/** capidtmf_recv_block and its callers (kernel/capidtmf.c): the resumable receiver, proved
    to do sample by sample what the framing, the decision and the timing say. */
module DtmfReceiver {
  import opened Machine
  import opened DtmfGoertzel
  import opened DtmfPower
  import opened DtmfDigit
  import opened DtmfFrames
  import opened DtmfTiming

  // ------------------------------------------------------ the receiver state

  datatype Rx = Rx(frames: Frames, timing: Timing, digits: seq<byte>) {
    ghost predicate Valid() {
      frames.Valid() && timing.Valid() && |digits| < RING
    }
  }

  /** The level of each frequency, from the words of a result bank. */
  function Levels(bank: Bank): levels
    requires bank.Valid()
  {
    seq(FREQUENCIES, i requires 0 <= i < FREQUENCIES => LevelOf(ToDword(bank.r[i].q2), ToDword(bank.r[i].q1)))
  }

  /** What a finished frame stands for. */
  function FrameDecision(bank: Bank): Decision
    requires bank.Valid()
  {
    Decision(ResultDigit(Levels(ResultBank(bank))), LikelyDigit(Levels(ResultBank(bank))))
  }

  /** The end of a chunk: a full frame is decided, timed and, if it says so, reported. */
  function EndChunk(r: Frames, timing: Timing, digits: seq<byte>): (x: Rx)
    requires Running(r) && r.cc > 0 && timing.Valid() && |digits| < RING
    ensures x.Valid()
  {
    if r.cc < ACCUMULATE then Rx(r, timing, digits)
    else
      DecisionKeepsTiming(timing, FrameDecision(r.bank));
      var o := OnDecision(timing, FrameDecision(r.bank));
      Rx(EndFrame(r), o.timing, Pushed(digits, o.event))
  }

  /** One sample. */
  function Sample(t: Tables, x: Rx, b: byte): (y: Rx)
    requires t.Valid() && x.Valid()
    ensures y.Valid()
  {
    StartRuns(x.frames);
    EndChunk(Accumulate(t, StartFrame(x.frames), b), x.timing, x.digits)
  }

  /** The simple form of the receiver: one sample after the other. */
  function Stream(t: Tables, x: Rx, s: seq<byte>): (y: Rx)
    requires t.Valid() && x.Valid()
    ensures y.Valid()
  {
    if s == [] then x else Sample(t, Stream(t, x, s[..|s| - 1]), s[|s| - 1])
  }

  lemma StreamEmpty(t: Tables, x: Rx)
    requires t.Valid() && x.Valid()
    ensures Stream(t, x, []) == x
  {
  }

  /** Cutting a stream into blocks does not change what the receiver does. */
  lemma {:induction false} BlockSplitInvisible(t: Tables, x: Rx, a: seq<byte>, b: seq<byte>)
    requires t.Valid() && x.Valid()
    ensures Stream(t, x, a + b) == Stream(t, Stream(t, x, a), b)
    decreases |b|
  {
    hide Sample;
    if b == [] {
      assert a + b == a;
    } else {
      BlockSplitInvisible(t, x, a, b[..|b| - 1]);
      assert (a + b)[..|a + b| - 1] == a + b[..|b| - 1];
    }
  }

  // ------------------------------------------------- the whole run, from idle

  function Decisions(banks: seq<Bank>): seq<Decision>
    requires forall i :: 0 <= i < |banks| ==> banks[i].Valid()
  {
    seq(|banks|, i requires 0 <= i < |banks| => FrameDecision(banks[i]))
  }

  function PushAll(q: seq<byte>, es: seq<byte>): (r: seq<byte>)
    requires |q| < RING
    ensures |r| < RING
  {
    if es == [] then q else Pushed(PushAll(q, es[..|es| - 1]), Some(es[|es| - 1]))
  }

  /** The ring keeps the digits in order, the first 31 of them until it is read. */
  lemma {:induction false} RingKeepsFirst(q: seq<byte>, es: seq<byte>)
    requires |q| < RING
    ensures PushAll(q, es) == (q + es)[..Min(31, |q| + |es|)]
  {
    if es == [] {
      assert q + es == q;
    } else {
      var before, n := es[..|es| - 1], |q| + |es|;
      RingKeepsFirst(q, before);
      assert (q + es)[..n - 1] == q + before && (q + es)[n - 1] == es[|es| - 1];
      assert PushAll(q, es) == if n - 1 < 31 then q + before + [es[|es| - 1]] else (q + before)[..31];
    }
  }

  lemma {:induction false} FinishedValid(t: Tables, f: Frames, s: seq<byte>)
    requires t.Valid() && f.Valid()
    ensures forall i :: 0 <= i < |FinishedBanks(t, f, s)| ==> FinishedBanks(t, f, s)[i].Valid()
  {
    if s != [] {
      FinishedValid(t, f, s[..|s| - 1]);
      StartRuns(FramesAfter(t, f, s[..|s| - 1]));
    }
  }

  /** The receiver's timing and digit queue are those of the run of frame decisions, where
      OverlapRefinesFrames says what each frame is. */
  lemma {:induction false} ReceiverFollowsFrames(t: Tables, x: Rx, s: seq<byte>)
    requires t.Valid() && x.Valid()
    ensures var banks := FinishedBanks(t, x.frames, s);
            && (forall i :: 0 <= i < |banks| ==> banks[i].Valid())
            && Stream(t, x, s).frames == FramesAfter(t, x.frames, s)
            && Stream(t, x, s).timing == TimingAfter(x.timing, Decisions(banks))
            && Stream(t, x, s).digits == PushAll(x.digits, Events(x.timing, Decisions(banks)))
  {
    FinishedValid(t, x.frames, s);
    if s != [] {
      var n := |s| - 1;
      ReceiverFollowsFrames(t, x, s[..n]);
      FinishedValid(t, x.frames, s[..n]);
      var f := FramesAfter(t, x.frames, s[..n]);
      StartRuns(f);
      var banks, last := FinishedBanks(t, x.frames, s[..n]), Finished(t, f, s[n]);
      if last.Some? {
        AddDecision(banks, last.value);
        AddToQueue(x, Decisions(banks), FrameDecision(last.value));
      }
    }
  }

  /** The state enabling leaves. */
  function Reenabled(x: Rx, digitMs: word, gapMs: word, pending: byte): Rx {
    Rx(x.frames.(cc := 0), Enabled(digitMs, gapMs, pending), x.digits)
  }

  /** What the receiver decides over a later stream are the decisions of that stream alone. */
  ghost predicate DecidesAfresh(t: Tables, f: Frames, u: seq<byte>)
    requires t.Valid() && f.Valid()
  {
    var banks := FinishedBanks(t, f, u);
    (forall i :: 0 <= i < |banks| ==> banks[i].Valid()) && Decisions(banks) == SimpleDecisions(t, u)
  }

  /** Enabling a receiver that has run for the samples s since it was idle: the state is consistent
      for the n of RestartIsConsistentIff; of these, every later stream is decided by its own samples
      alone exactly when n is a multiple of 103, and then the receiver is the simple one again. */
  lemma EnableIsFreshIff(t: Tables, x: Rx, s: seq<byte>, digitMs: word, gapMs: word, pending: byte)
    requires t.Valid() && x.Valid() && x.frames.cc == 0 && x.frames.cc0 == 0
    ensures var y := Reenabled(Stream(t, x, s), digitMs, gapMs, pending); var n := |s|;
            && (y.Valid() <==> n % HOP == 0 || (n % HOP == HOP - 1 && n >= ACCUMULATE))
            && (y.Valid() ==> ((forall u :: DecidesAfresh(t, y.frames, u)) <==> n % HOP == 0))
            && (n % HOP == 0 ==> forall u :: IsSimple(t, y, u))
  {
    hide Stream, FramesAfter, Frames.Valid;
    ReceiverFollowsFrames(t, x, s);
    RestartIsConsistentIff(t, x.frames, s);
    RestartIsFreshIff(t, x.frames, s);
    var y := Reenabled(Stream(t, x, s), digitMs, gapMs, pending);
    if y.Valid() {
      AfreshIff(t, y.frames);
    }
    if |s| % HOP == 0 {
      forall u ensures IsSimple(t, y, u) {
        ReceiverIsSimple(t, y, u);
      }
    }
  }

  ghost predicate IsSimple(t: Tables, y: Rx, u: seq<byte>)
    requires t.Valid() && y.Valid()
  {
    && Stream(t, y, u).timing == TimingAfter(y.timing, SimpleDecisions(t, u))
    && Stream(t, y, u).digits == PushAll(y.digits, Events(y.timing, SimpleDecisions(t, u)))
  }

  lemma AfreshIff(t: Tables, f: Frames)
    requires t.Valid() && f.Valid() && f.cc == 0
    ensures (forall u :: DecidesAfresh(t, f, u)) <==> f.cc0 == 0
  {
    if f.cc0 == 0 {
      forall u ensures DecidesAfresh(t, f, u) {
        OverlapRefinesFrames(t, f, u);
        FinishedValid(t, f, u);
        FramedDecisions(t, u, FramesAfter(t, f, u), FinishedBanks(t, f, u));
      }
    } else {
      var u := seq(HOP, _ => 0);
      EarlyFrame(t, f, u);
      assert |SimpleDecisions(t, u)| == FrameCount(HOP) == 0;
      assert !DecidesAfresh(t, f, u);
    }
  }

  /** The smallest run that goes on with old samples: enabling again after 205. */
  lemma EnableAfterOneFrame(t: Tables, x: Rx, s: seq<byte>, digitMs: word, gapMs: word, pending: byte)
    requires t.Valid() && x.Valid() && x.frames.cc == 0 && x.frames.cc0 == 0 && |s| == ACCUMULATE
    ensures var y := Reenabled(Stream(t, x, s), digitMs, gapMs, pending); var u := seq(HOP, _ => 0);
            && y.Valid() && y.frames.cc0 == HOP - 1 && y.frames.bank0 == FrameBank(t, s[HOP..])
            && |FinishedBanks(t, y.frames, u)| == 1 && |SimpleDecisions(t, u)| == 0
  {
    hide Stream, FramesAfter, Frames.Valid, FrameBank;
    ReceiverFollowsFrames(t, x, s);
    EnableIsFreshIff(t, x, s, digitMs, gapMs, pending);
    CountersAfter(t, x.frames, s);
    BoundaryKeeps(t, x.frames, s);
    EarlyFrame(t, Reenabled(Stream(t, x, s), digitMs, gapMs, pending).frames, seq(HOP, _ => 0));
  }

  lemma FrameFits(n: nat, i: nat)
    requires i < FrameCount(n)
    ensures HOP * i + ACCUMULATE <= n
  {
  }

  /** The decision of frame i of a stream, from its samples alone. */
  function SimpleDecision(t: Tables, s: seq<byte>, i: nat): Decision
    requires t.Valid() && i < FrameCount(|s|)
  {
    FrameFits(|s|, i);
    FrameDecision(FrameBank(t, s[HOP * i..HOP * i + ACCUMULATE]))
  }

  function SimpleDecisions(t: Tables, s: seq<byte>): seq<Decision>
    requires t.Valid()
  {
    seq(FrameCount(|s|), i requires 0 <= i < FrameCount(|s|) => SimpleDecision(t, s, i))
  }

  /** The whole receiver against its simple form: from idle, timing and digits after any stream are
      those of the decisions of frames 103i to 103i + 204, each folded from zero. */
  lemma ReceiverIsSimple(t: Tables, x: Rx, s: seq<byte>)
    requires t.Valid() && x.Valid() && x.frames.cc == 0 && x.frames.cc0 == 0
    ensures Stream(t, x, s).timing == TimingAfter(x.timing, SimpleDecisions(t, s))
    ensures Stream(t, x, s).digits == PushAll(x.digits, Events(x.timing, SimpleDecisions(t, s)))
  {
    ReceiverFollowsFrames(t, x, s);
    OverlapRefinesFrames(t, x.frames, s);
    FramedDecisions(t, s, FramesAfter(t, x.frames, s), FinishedBanks(t, x.frames, s));
  }

  lemma FramedDecisions(t: Tables, s: seq<byte>, f: Frames, banks: seq<Bank>)
    requires t.Valid() && f.Valid() && Framed(t, s, f, banks) && forall i :: 0 <= i < |banks| ==> banks[i].Valid()
    ensures Decisions(banks) == SimpleDecisions(t, s)
  {
    hide FrameDecision, FrameBank, FrameCount;
    forall i | 0 <= i < |banks| ensures Decisions(banks)[i] == SimpleDecisions(t, s)[i] {
      assert FrameDone(t, s, i, banks[i]);
    }
  }

  lemma AddDecision(banks: seq<Bank>, b: Bank)
    requires b.Valid() && forall i :: 0 <= i < |banks| ==> banks[i].Valid()
    ensures Decisions(banks + [b]) == Decisions(banks) + [FrameDecision(b)]
  {
    hide FrameDecision;
  }

  lemma AddToQueue(x: Rx, ds: seq<Decision>, d: Decision)
    requires x.Valid()
    ensures var o := OnDecision(TimingAfter(x.timing, ds), d);
            && TimingAfter(x.timing, ds + [d]) == o.timing
            && PushAll(x.digits, Events(x.timing, ds + [d])) == Pushed(PushAll(x.digits, Events(x.timing, ds)), o.event)
  {
    assert (ds + [d])[..|ds|] == ds;
    var es, e := Events(x.timing, ds), OnDecision(TimingAfter(x.timing, ds), d).event;
    if e.Some? {
      assert (es + [e.value])[..|es|] == es;
    }
  }

  // ---------------------------------------------------- chunks of a frame

  /** A run of samples inside one running frame. */
  function AccumulateAll(t: Tables, f: Frames, p: seq<byte>): (r: Frames)
    requires t.Valid() && Running(f) && f.cc + |p| <= ACCUMULATE
    ensures Running(r) && r.cc == f.cc + |p|
  {
    if p == [] then f else Accumulate(t, AccumulateAll(t, f, p[..|p| - 1]), p[|p| - 1])
  }

  /** How many samples of a chunk come before the second bank starts. */
  function Skipped(f: Frames): nat {
    if f.cc0 < 0 then -f.cc0 else 0
  }

  /** The two Goertzel loops of a chunk do what its samples do one by one. */
  lemma ChunkBanks(t: Tables, f: Frames, p: seq<byte>)
    requires t.Valid() && Running(f) && f.cc + |p| <= ACCUMULATE
    ensures var r, j := AccumulateAll(t, f, p), Skipped(f);
            && r.cc0 == f.cc0 + |p|
            && r.bank == BankFold(f.bank, t.Weighted(p, f.cc))
            && r.bank0 == if |p| <= j then f.bank0 else BankFold(f.bank0, t.Weighted(p[j..], f.cc0 + j))
  {
    ChunkFirstBank(t, f, p);
    ChunkSecondBank(t, f, p);
  }

  lemma {:induction false} ChunkFirstBank(t: Tables, f: Frames, p: seq<byte>)
    requires t.Valid() && Running(f) && f.cc + |p| <= ACCUMULATE
    ensures AccumulateAll(t, f, p).bank == BankFold(f.bank, t.Weighted(p, f.cc))
  {
    FoldNothing(t, f.bank, f.cc);
    hide BankFold, BankStep, Tables.Weighted, Tables.Windowed, ZeroBank;
    if p != [] {
      ChunkFirstBank(t, f, p[..|p| - 1]);
      WeightedMore(t, f.bank, p, f.cc);
    }
  }

  lemma {:induction false} ChunkSecondBank(t: Tables, f: Frames, p: seq<byte>)
    requires t.Valid() && Running(f) && f.cc + |p| <= ACCUMULATE
    ensures var j := Skipped(f);
            AccumulateAll(t, f, p).bank0
            == if |p| <= j then f.bank0 else BankFold(f.bank0, t.Weighted(p[j..], f.cc0 + j))
  {
    hide BankFold, BankStep, Tables.Weighted, Tables.Windowed, ZeroBank;
    if p != [] {
      ChunkSecondBank(t, f, p[..|p| - 1]);
      SecondBankMore(t, f, p, AccumulateAll(t, f, p[..|p| - 1]));
    }
  }

  lemma SecondBankMore(t: Tables, f: Frames, p: seq<byte>, g: Frames)
    requires t.Valid() && Running(f) && f.cc + |p| <= ACCUMULATE && p != []
    requires Running(g) && g.cc == f.cc + |p| - 1
    requires var j := Skipped(f);
             g.bank0 == if |p| - 1 <= j then f.bank0
                        else BankFold(f.bank0, t.Weighted(p[..|p| - 1][j..], f.cc0 + j))
    ensures var j := Skipped(f);
            Accumulate(t, g, p[|p| - 1]).bank0
            == if |p| <= j then f.bank0 else BankFold(f.bank0, t.Weighted(p[j..], f.cc0 + j))
  {
    var n, j := |p| - 1, Skipped(f);
    if n >= j {
      var q := p[j..];
      WeightedMore(t, f.bank0, q, f.cc0 + j);
      assert q[..|q| - 1] == p[..n][j..] && q[|q| - 1] == p[n];
      if n == j {
        assert q[..|q| - 1] == [];
        FoldNothing(t, f.bank0, f.cc0 + j);
      }
      hide BankFold, BankStep, Tables.Weighted, Tables.Windowed;
    }
  }

  lemma FoldNothing(t: Tables, bank: Bank, k: nat)
    requires t.Valid() && bank.Valid() && k <= ACCUMULATE
    ensures BankFold(bank, t.Weighted([], k)) == bank
  {
    assert t.Weighted([], k) == [];
  }

  lemma WeightedMore(t: Tables, bank: Bank, p: seq<byte>, k: nat)
    requires t.Valid() && bank.Valid() && p != [] && k + |p| <= ACCUMULATE
    ensures BankFold(bank, t.Weighted(p, k))
            == BankStep(BankFold(bank, t.Weighted(p[..|p| - 1], k)), t.Windowed(p[|p| - 1], k + |p| - 1))
  {
    assert t.Weighted(p, k)[..|p| - 1] == t.Weighted(p[..|p| - 1], k);
  }

  /** A chunk that stays in one frame, then its end, is the stream of its samples. */
  lemma {:induction false} ChunkIsStream(t: Tables, x: Rx, p: seq<byte>)
    requires t.Valid() && x.Valid() && p != []
    requires Running(StartFrame(x.frames)) && StartFrame(x.frames).cc + |p| <= ACCUMULATE
    ensures Stream(t, x, p) == EndChunk(AccumulateAll(t, StartFrame(x.frames), p), x.timing, x.digits)
  {
    var n := |p| - 1;
    if n > 0 {
      ChunkIsStream(t, x, p[..n]);
    } else {
      assert p[..0] == [];
    }
  }

  // --------------------------------------------------- capidtmf_recv_block

  const CHUNK := 32  // CAPIDTMF_RECV_WINDOWED_SAMPLES

  /** The counters and buffers of the two filter banks.  `coeffs` is the coefficient table
      shared by all receivers; its last entry is loaded before every use. */
  class FilterBanks {
    const t: Tables
    const coeffs: array<int>
    const buffer: array<int32>
    const buffer0: array<int32>
    var cc: int
    var cc0: int
    var fund: int
    var fund0: int

    ghost predicate Shape()
      reads coeffs
    {
      && t.Valid() && TableLoaded(coeffs[..])
      && buffer.Length == buffer0.Length == 2 * FREQUENCIES && buffer != buffer0
      && coeffs as object != buffer && coeffs as object != buffer0
    }

    /** windowed_sample_buffer is an array of its own. */
    ghost predicate Separate(windowed: array<int16>) {
      && windowed.Length == CHUNK
      && windowed as object != buffer && windowed as object != buffer0 && windowed as object != coeffs
    }

    ghost function State(): Frames
      requires buffer.Length == buffer0.Length == 2 * FREQUENCIES
      reads this, buffer, buffer0
    {
      Frames(cc, cc0, StoredBank(buffer[..], fund), StoredBank(buffer0[..], fund0))
    }

    constructor (t: Tables, coeffs: array<int>)
      requires t.Valid() && TableLoaded(coeffs[..])
      ensures this.t == t && this.coeffs == coeffs && fresh(buffer) && fresh(buffer0)
      ensures Shape() && cc == 0 && cc0 == 0
    {
      this.t, this.coeffs := t, coeffs;
      buffer, buffer0 := new int32[2 * FREQUENCIES](_ => 0), new int32[2 * FREQUENCIES](_ => 0);
      cc, cc0, fund, fund0 := 0, 0, 0, 0;
    }

    /** The block `if (cycle_counter == 0)`. */
    method BeginFrame()
      requires Shape() && State().Valid() && cc == 0
      modifies this, buffer, buffer0
      ensures Shape() && State() == StartFrame(old(State()))
    {
      ghost var f := State();
      cc := cc0;
      cc0 := -1;
      if cc == 0 {
        cc0 := -HOP;
        fund0 := FUNDAMENTAL_OFFSET;
        for i := 0 to 2 * FREQUENCIES
          invariant forall k :: 0 <= k < i ==> buffer0[k] == 0
          modifies buffer0
        {
          buffer0[i] := 0;
        }
      }
      ghost var b0 := buffer0[..];
      assert cc == 0 ==> StoredBank(b0, fund0) == ZeroBank();
      fund := fund0;
      fund0 := FUNDAMENTAL_OFFSET;
      for i := 0 to 2 * FREQUENCIES
        invariant forall k :: 0 <= k < i ==> buffer0[k] == 0
        invariant forall k :: i <= k < 2 * FREQUENCIES ==> buffer0[k] == b0[k]
        invariant forall k :: 0 <= k < i ==> buffer[k] == b0[k]
        modifies buffer, buffer0
      {
        buffer[i] := buffer0[i];
        buffer0[i] := 0;
      }
      assert buffer[..] == b0;
      assert StoredBank(buffer0[..], fund0) == ZeroBank();
    }

    /** Windows the samples of a chunk from place j on and runs one bank over them. */
    method RunBank(bank: array<int32>, f: int, p: seq<byte>, k: int, j: nat, windowed: array<int16>) returns (g: int)
      requires Shape() && (bank == buffer || bank == buffer0)
      requires Separate(windowed)
      requires j < |p| <= CHUNK && 0 <= k + j && k + |p| <= ACCUMULATE
      requires f == FundAt(k + j)
      modifies bank, coeffs, windowed
      ensures Shape()
      ensures StoredBank(bank[..], g) == BankFold(old(StoredBank(bank[..], f)), t.Weighted(p[j..], k + j))
    {
      FillWindow(p, k, j, windowed);
      coeffs[FUNDAMENTAL] := f;
      assert coeffs[..FUNDAMENTAL] == old(coeffs[..FUNDAMENTAL]);
      hide BankFold, StoredBank, TableLoaded, COEFFICIENTS, Tables.Weighted;
      GoertzelLoop(bank, coeffs, windowed[j..j + (|p| - j)]);
      g := coeffs[FUNDAMENTAL];
    }

    /** The windowing loop. */
    method FillWindow(p: seq<byte>, k: int, j: nat, windowed: array<int16>)
      requires t.Valid() && windowed.Length == CHUNK
      requires j < |p| <= CHUNK && 0 <= k + j && k + |p| <= ACCUMULATE
      modifies windowed
      ensures windowed[j..j + (|p| - j)] == t.Weighted(p[j..], k + j)
    {
      for i := j to |p|
        invariant forall m :: j <= m < i ==> windowed[m] == t.Windowed(p[m], k + m)
      {
        windowed[i] := t.Windowed(p[i], k + i);
      }
    }

    /** One chunk: the second bank over the part that belongs to its frame, then the first. */
    method RunChunk(p: seq<byte>, windowed: array<int16>)
      requires Shape() && Running(State()) && cc + |p| <= ACCUMULATE && 0 < |p| <= CHUNK
      requires Separate(windowed)
      modifies this, buffer, buffer0, coeffs, windowed
      ensures Shape() && State() == AccumulateAll(t, old(State()), p)
    {
      ghost var f := State();
      ChunkBanks(t, f, p);
      hide AccumulateAll, BankFold, StoredBank, TableLoaded, Tables.Weighted, FundAt;
      if cc0 + |p| > 0 {
        var j := if cc0 < 0 then -cc0 else 0;
        fund0 := RunBank(buffer0, fund0, p, cc0, j, windowed);
      }
      cc0 := cc0 + |p|;
      fund := RunBank(buffer, fund, p, cc, 0, windowed);
      assert p[0..] == p;
      cc := cc + |p|;
    }

    // capidtmf_goertzel_result
    method Result()
      requires Shape()
      modifies buffer, coeffs
      ensures Shape() && coeffs[FUNDAMENTAL] == fund
      ensures StoredBank(buffer[..], fund) == ResultBank(old(StoredBank(buffer[..], fund)))
    {
      ghost var bank := StoredBank(buffer[..], fund);
      ghost var out := ResultBank(bank).r;
      coeffs[FUNDAMENTAL] := fund;
      assert coeffs[..FUNDAMENTAL] == old(coeffs[..FUNDAMENTAL]);
      StoredFund(buffer[..], fund);
      MixEnds(out, bank.r);
      for i := 0 to FREQUENCIES
        invariant StoredBank(buffer[..], 0).r == Mix(out, bank.r, i)
        modifies buffer
      {
        hide StoredBank, Mix;
        ResultAt(i, bank, out);
      }
      StoredFund(buffer[..], fund);
    }

    /** One iteration of the frequency loop of capidtmf_goertzel_result. */
    method ResultAt(i: nat, ghost bank: Bank, ghost out: seq<Resonator>)
      requires Shape() && coeffs[FUNDAMENTAL] == bank.fund && bank.Valid() && i < FREQUENCIES
      requires out == ResultBank(bank).r && StoredBank(buffer[..], 0).r == Mix(out, bank.r, i)
      modifies buffer
      ensures StoredBank(buffer[..], 0).r == Mix(out, bank.r, i + 1)
    {
      MixStep(out, bank.r, i);
      CoefficientEven(coeffs[..], i);
      hide PowerWords, StoredBank, Mix, TableLoaded, COEFFICIENTS;
      ghost var b := buffer[..];
      StoredAt(b, i);
      var w := PowerWords(coeffs[i], Resonator(buffer[i], buffer[i + FREQUENCIES]));
      buffer[i] := w.q1;
      buffer[i + FREQUENCIES] := w.q2;
      StoreResonator(b, i, w);
    }

    /** The powers of a full frame, their levels and the decision. */
    method Conclude() returns (d: Decision)
      requires Shape()
      modifies buffer, coeffs, this`cc
      ensures Shape() && cc == 0
      ensures State() == old(State()).(cc := 0, bank := ResultBank(old(State()).bank))
      ensures d == FrameDecision(old(State()).bank)
    {
      ghost var bank := State().bank;
      Result();
      hide FrameDecision, ResultBank, StoredBank, TableLoaded, ResultDigit, LikelyDigit, Levels;
      var l := ReadLevels(buffer, fund);
      var result, likely := Decide(l);
      DecisionOfLevels(bank, l);
      cc := 0;
      d := Decision(result, likely);
    }

    /** `if (cycle_counter == 0)`. */
    method BeginIfDue()
      requires Shape() && State().Valid()
      modifies this, buffer, buffer0
      ensures Shape() && State() == StartFrame(old(State()))
    {
      if cc == 0 {
        BeginFrame();
      }
    }
  }

  /** A DTMF receiver: the filter banks and the digit timing. */
  class Receiver {
    const banks: FilterBanks
    const timer: DigitTimer
    var active: bool

    ghost function State(): Rx
      requires banks.Shape() && timer.digits.Positions()
      reads this, banks, banks.buffer, banks.buffer0, banks.coeffs, timer, timer.digits, timer.digits.buffer
    {
      Rx(banks.State(), timer.State(), timer.Digits())
    }

    ghost predicate Parts()
      reads this, banks, banks.coeffs, timer, timer.digits, timer.digits.buffer
    {
      && banks.Shape() && timer.digits.Valid()
      && timer.digits.buffer as object != banks.buffer && timer.digits.buffer as object != banks.buffer0
      && timer.digits.buffer as object != banks.coeffs
    }

    /** An idle receiver is ready to start a fresh frame. */
    ghost predicate Valid()
      reads this, banks, banks.buffer, banks.buffer0, banks.coeffs, timer, timer.digits, timer.digits.buffer
    {
      && Parts() && State().Valid()
      && (!active ==> banks.cc == 0 && banks.cc0 == 0)
    }

    // capidtmf_init
    constructor (t: Tables, coeffs: array<int>)
      requires t.Valid() && TableLoaded(coeffs[..])
      ensures Valid() && !active && State().digits == []
    {
      banks := new FilterBanks(t, coeffs);
      timer := new DigitTimer();
      active := false;
    }

    // capidtmf_recv_enable.  It restarts cycle_counter but not cycle_counter0.  On a receiver that is
    // already active the counters stay consistent at two places of a frame only, and the frames start
    // afresh at one of them only (EnableIsFreshIff).
    method Enable(digitMs: word, gapMs: word, pending: byte)
      requires Valid()
      modifies this, banks, timer
      ensures Valid() <==> old(banks.cc) == 0 || old(banks.cc) == HOP
      ensures Parts() && active
      ensures State() == Reenabled(old(State()), digitMs, gapMs, pending)
      ensures !old(active) ==> State().frames.cc == 0 && State().frames.cc0 == 0
    {
      timer.Enable(digitMs, gapMs, pending);
      banks.cc := 0;
      active := true;
    }

    // capidtmf_recv_disable: no state bit is left, so it always ends in capidtmf_recv_init
    method Disable()
      requires Valid()
      modifies this, banks, timer, timer.digits
      ensures Valid() && !active && State().digits == []
    {
      active := false;
      banks.cc0, banks.cc := 0, 0;
      timer.Clear();
    }

    /** The block `if (cycle_counter == CAPIDTMF_RECV_ACCUMULATE_CYCLES)`. */
    method FinishFrame()
      requires Parts() && Running(banks.State()) && banks.cc == ACCUMULATE
      requires timer.State().Valid()
      modifies timer, banks`cc, banks.buffer, banks.coeffs, timer.digits, timer.digits.buffer
      ensures Parts()
      ensures State() == EndChunk(old(State()).frames, old(State()).timing, old(State()).digits)
    {
      hide Running, OnDecision, FrameDecision, ResultBank, StoredBank, Timing.Valid, Pushed, FundAt, TableLoaded;
      var d := banks.Conclude();
      timer.Time(d);
    }

    /** A chunk of a running frame, and the end of the frame if it is full. */
    method RunAndFinish(p: seq<byte>, windowed: array<int16>)
      requires Parts() && Running(banks.State()) && timer.State().Valid()
      requires banks.cc + |p| <= ACCUMULATE && 0 < |p| <= CHUNK
      requires banks.Separate(windowed) && windowed as object != timer.digits.buffer
      modifies banks, banks.buffer, banks.buffer0, banks.coeffs, timer, timer.digits, timer.digits.buffer, windowed
      ensures Parts()
      ensures var x := old(State()); State() == EndChunk(AccumulateAll(banks.t, x.frames, p), x.timing, x.digits)
    {
      hide Running, AccumulateAll, StoredBank, TableLoaded, OnDecision, Pushed, FundAt, Timing.Valid, FrameDecision, ResultBank;
      banks.RunChunk(p, windowed);
      if banks.cc == ACCUMULATE {
        FinishFrame();
      }
    }

    /** One pass of the sample loop: starts a frame if one is due, takes as many samples as the
        frame, the block and the chunk buffer allow, and ends the frame if it is full. */
    method ProcessChunk(block: seq<byte>, sample: nat, windowed: array<int16>) returns (next: nat)
      requires Valid() && active && sample < |block|
      requires banks.Separate(windowed) && windowed as object != timer.digits.buffer
      modifies banks, banks.buffer, banks.buffer0, banks.coeffs, timer, timer.digits, timer.digits.buffer, windowed
      ensures Valid() && sample < next <= |block|
      ensures State() == Stream(banks.t, old(State()), block[sample..next])
    {
      hide Stream, AccumulateAll, StoredBank, TableLoaded, OnDecision, Pushed, FundAt, Running, EndChunk, StartFrame;
      hide Frames.Valid, Timing.Valid, DigitRing.Contents, Tables.Valid;
      ghost var x := State();
      StartRuns(x.frames);
      banks.BeginIfDue();
      var n := Min(Min(ACCUMULATE - banks.cc, |block| - sample), CHUNK);
      next := sample + n;
      ChunkIsStream(banks.t, x, block[sample..next]);
      RunAndFinish(block[sample..next], windowed);
    }

    // capidtmf_recv_block
    method RecvBlock(block: seq<byte>)
      requires Valid() && |block| < 0x1_0000
      modifies banks, banks.buffer, banks.buffer0, banks.coeffs, timer, timer.digits, timer.digits.buffer
      ensures Valid()
      ensures State() == if active then Stream(banks.t, old(State()), block) else old(State())
    {
      hide Stream, Frames.Valid, Timing.Valid, DigitRing.Contents, StoredBank, TableLoaded, Tables.Valid;
      if active {
        ghost var x := State();
        StreamEmpty(banks.t, x);
        var windowed := new int16[CHUNK](_ => 0);
        var sample := 0;
        assert block[..0] == [];
        while sample < |block|
          invariant 0 <= sample <= |block| && Valid()
          invariant State() == Stream(banks.t, x, block[..sample])
          decreases |block| - sample
        {
          var next := ProcessChunk(block, sample, windowed);
          BlockSplitInvisible(banks.t, x, block[..sample], block[sample..next]);
          assert block[..sample] + block[sample..next] == block[..next];
          sample := next;
        }
        assert block[..|block|] == block;
      }
    }
  }

  lemma DecisionOfLevels(bank: Bank, l: levels)
    requires bank.Valid() && l == Levels(ResultBank(bank))
    ensures Decision(ResultDigit(l), LikelyDigit(l)) == FrameDecision(bank)
  {
  }

  /** The loop that turns powers into levels. */
  method ReadLevels(buffer: array<int32>, ghost fund: int) returns (l: levels)
    requires buffer.Length == 2 * FREQUENCIES
    ensures l == Levels(StoredBank(buffer[..], fund))
  {
    hide LevelOf;
    l := seq(FREQUENCIES, _ => 0);
    for i := 0 to FREQUENCIES
      invariant forall k :: 0 <= k < i ==> l[k] == LevelOf(ToDword(buffer[k + FREQUENCIES]), ToDword(buffer[k]))
    {
      l := l[i := LevelOf(ToDword(buffer[i + FREQUENCIES]), ToDword(buffer[i]))];
    }
  }
}
