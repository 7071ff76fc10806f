/** The overlapped framing of capidtmf_recv_block (kernel/capidtmf.c): two interleaved filter
    banks, 205-sample windowed frames, a new frame every 103 samples. */
module DtmfFrames {
  import opened Machine
  import opened DtmfGoertzel
  import opened DtmfPower

  const ACCUMULATE := 205  // CAPIDTMF_RECV_ACCUMULATE_CYCLES
  const HOP := 103         // (CAPIDTMF_RECV_ACCUMULATE_CYCLES + 1) >> 1

  /** The expansion table of the law in use and the window function; their values are free. */
  datatype Tables = Tables(expand: seq<int16>, window: seq<int16>) {
    predicate Valid() {
      |expand| == 0x100 && |window| == ACCUMULATE
    }

    /** Sample code b, expanded and weighted for place k of a frame. */
    function Windowed(b: byte, k: nat): int16
      requires Valid() && k < ACCUMULATE
    {
      ToInt16(expand[b] as int * window[k] / 0x8000)
    }

    /** A run of samples weighted from place k on. */
    function Weighted(s: seq<byte>, k: nat): (w: seq<int16>)
      requires Valid() && k + |s| <= ACCUMULATE
      ensures |w| == |s|
    {
      seq(|s|, i requires 0 <= i < |s| => Windowed(s[i], k + i))
    }
  }

  /** A weighted sample is the expanded one times its weight, in units of 2^-15 and rounded down; only
      the least value times itself wraps around. */
  lemma WindowedIs(t: Tables, b: byte, k: nat)
    requires t.Valid() && k < ACCUMULATE
    ensures var p := t.expand[b] as int * t.window[k] as int; var w: int := t.Windowed(b, k);
            if t.expand[b] == t.window[k] == -0x8000 then w == -0x8000 else 0x8000 * w <= p < 0x8000 * (w + 1)
  {
    var x: int, y: int := t.expand[b], t.window[k];
    ProductRange(x, y);
  }

  lemma ProductRange(x: int, y: int)
    requires -0x8000 <= x < 0x8000 && -0x8000 <= y < 0x8000
    ensures -0x8000 * 0x7fff - 0x8000 <= x * y <= 0x8000 * 0x8000
    ensures x * y == 0x8000 * 0x8000 <==> x == y == -0x8000
    ensures !(x == y == -0x8000) ==> x * y <= 0x8000 * 0x7fff
  {
    if x < 0 && y < 0 {
      assert x * y == (-x) * (-y);
      Cap(-x, -y);
    } else if x >= 0 && y >= 0 {
      Cap(x, y);
    } else if x < 0 {
      Cap(-x, y);
    } else {
      Cap(x, -y);
    }
  }

  lemma Cap(x: nat, y: nat)
    requires x <= 0x8000 && y <= 0x8000
    ensures x * y <= 0x8000 * 0x8000
    ensures x < 0x8000 || y < 0x8000 ==> x * y <= 0x8000 * 0x7fff
  {
    assert x * y <= 0x8000 * y;
    assert x * y <= x * 0x8000;
  }

  /** cycle_counter, cycle_counter0 and the banks goertzel_buffer and goertzel_buffer0 with
      their fundamental accumulators. */
  datatype Frames = Frames(cc: int, cc0: int, bank: Bank, bank0: Bank) {
    /** In a frame the counters differ by the hop; between frames the second counter says
        whether a half-finished frame is taken over. */
    ghost predicate Valid() {
      && bank.Valid() && bank0.Valid()
      && 0 <= cc < ACCUMULATE
      && if cc == 0 then cc0 == 0 || (cc0 == 102 && bank0.fund == FundAt(cc0))
         else cc0 == cc - HOP && bank.fund == FundAt(cc) && bank0.fund == FundAt(Max(cc0, 0))
    }
  }

  function FundAt(n: int): int {
    FUNDAMENTAL_OFFSET - FUNDAMENTAL_DECREMENT * n
  }

  /** The start of a frame: the second bank becomes the first. */
  function StartFrame(f: Frames): Frames {
    if f.cc != 0 then f
    else if f.cc0 == 0 then Frames(0, -HOP, ZeroBank(), ZeroBank())
    else Frames(f.cc0, -1, f.bank0, ZeroBank())
  }

  /** A running frame: between StartFrame and the decision. */
  ghost predicate Running(f: Frames) {
    && f.bank.Valid() && f.bank0.Valid()
    && 0 <= f.cc <= ACCUMULATE && f.cc0 == f.cc - HOP
    && f.bank.fund == FundAt(f.cc) && f.bank0.fund == FundAt(Max(f.cc0, 0))
  }

  lemma StartRuns(f: Frames)
    requires f.Valid()
    ensures Running(StartFrame(f)) && StartFrame(f).cc < ACCUMULATE
  {
  }

  /** One sample in a running frame. */
  function Accumulate(t: Tables, f: Frames, b: byte): (r: Frames)
    requires t.Valid() && Running(f) && f.cc < ACCUMULATE
    ensures Running(r)
  {
    Frames(f.cc + 1, f.cc0 + 1, BankStep(f.bank, t.Windowed(b, f.cc)),
           if f.cc0 >= 0 then BankStep(f.bank0, t.Windowed(b, f.cc0)) else f.bank0)
  }

  function PowerWords(c: int, r: Resonator): Resonator {
    var l := PowerLimbs(c, r.q1, r.q2);
    Resonator(l.LowWord(), l.HighWord())
  }

  /** The words capidtmf_goertzel_result leaves in the buffer of the finished frame. */
  function ResultBank(bank: Bank): (b: Bank)
    requires bank.Valid()
    ensures b.Valid()
  {
    Bank(seq(FREQUENCIES, i requires 0 <= i < FREQUENCIES => PowerWords(Coefficient(bank, i), bank.r[i])), bank.fund)
  }

  /** The end of a full frame: its bank is turned into powers and the counter restarts. */
  function EndFrame(f: Frames): (r: Frames)
    requires Running(f)
    ensures f.cc == ACCUMULATE || f.cc > 0 ==> r.Valid()
  {
    if f.cc == ACCUMULATE then Frames(0, f.cc0, ResultBank(f.bank), f.bank0) else f
  }

  /** One sample, from one resting state to the next. */
  function FrameStep(t: Tables, f: Frames, b: byte): (r: Frames)
    requires t.Valid() && f.Valid()
    ensures r.Valid()
  {
    StartRuns(f);
    EndFrame(Accumulate(t, StartFrame(f), b))
  }

  /** The bank of the frame that sample b completes, if it completes one. */
  function Finished(t: Tables, f: Frames, b: byte): Option<Bank>
    requires t.Valid() && f.Valid()
  {
    StartRuns(f);
    var r := Accumulate(t, StartFrame(f), b);
    if r.cc == ACCUMULATE then Some(r.bank) else None
  }

  // ----------------------------------------------------- the simple form

  /** Number of frames complete after n samples. */
  function FrameCount(n: nat): nat {
    if n < ACCUMULATE then 0 else (n - ACCUMULATE) / HOP + 1
  }

  /** The bank of a (possibly unfinished) frame whose samples are s: a fold from zero. */
  function FrameBank(t: Tables, s: seq<byte>): (b: Bank)
    requires t.Valid() && |s| <= ACCUMULATE
    ensures b.Valid() && b.fund == FundAt(|s|)
  {
    BankFold(ZeroBank(), t.Weighted(s, 0))
  }

  /** Resting state after a stream. */
  function FramesAfter(t: Tables, f: Frames, s: seq<byte>): (r: Frames)
    requires t.Valid() && f.Valid()
    ensures r.Valid()
  {
    if s == [] then f else FrameStep(t, FramesAfter(t, f, s[..|s| - 1]), s[|s| - 1])
  }

  function Add(done: seq<Bank>, last: Option<Bank>): seq<Bank> {
    if last.None? then done else done + [last.value]
  }

  /** Banks of the frames finished during a stream, in order. */
  function FinishedBanks(t: Tables, f: Frames, s: seq<byte>): seq<Bank>
    requires t.Valid() && f.Valid()
  {
    if s == [] then []
    else Add(FinishedBanks(t, f, s[..|s| - 1]), Finished(t, FramesAfter(t, f, s[..|s| - 1]), s[|s| - 1]))
  }

  /** The i-th finished bank is the simple form of frame i. */
  ghost predicate FrameDone(t: Tables, s: seq<byte>, i: nat, bank: Bank)
    requires t.Valid()
  {
    HOP * i + ACCUMULATE <= |s| && bank == FrameBank(t, s[HOP * i..HOP * i + ACCUMULATE])
  }

  /** What a receiver enabled from idle holds after the stream s. */
  ghost predicate Framed(t: Tables, s: seq<byte>, f: Frames, done: seq<Bank>)
    requires t.Valid() && f.Valid()
  {
    && |done| == FrameCount(|s|)
    && (forall i :: 0 <= i < |done| ==> FrameDone(t, s, i, done[i]))
    && (s == [] ==> f.cc == 0 && f.cc0 == 0)
    && (s != [] && f.cc == 0 ==>
          |s| == HOP * |done| + 102 && f.cc0 == 102 && f.bank0 == FrameBank(t, s[HOP * |done|..]))
    && (f.cc != 0 ==>
          |s| == HOP * |done| + f.cc && f.bank == FrameBank(t, s[HOP * |done|..])
          && f.bank0 == FrameBank(t, if f.cc0 >= 0 then s[HOP * |done| + HOP..] else []))
  }

  lemma FrameBankAppend(t: Tables, s: seq<byte>, b: byte)
    requires t.Valid() && |s| < ACCUMULATE
    ensures FrameBank(t, s + [b]) == BankStep(FrameBank(t, s), t.Windowed(b, |s|))
  {
    assert t.Weighted(s + [b], 0) == t.Weighted(s, 0) + [t.Windowed(b, |s|)];
    assert t.Weighted(s + [b], 0)[..|s|] == t.Weighted(s, 0);
  }

  /** The same inside a running frame, where the current frame may be full. */
  ghost predicate FramedRun(t: Tables, s: seq<byte>, g: Frames, k: nat)
    requires t.Valid() && Running(g)
  {
    && |s| == HOP * k + g.cc
    && g.bank == FrameBank(t, s[HOP * k..])
    && g.bank0 == FrameBank(t, if g.cc0 >= 0 then s[HOP * k + HOP..] else [])
  }

  lemma FramedStart(t: Tables, s: seq<byte>, f: Frames, done: seq<Bank>)
    requires t.Valid() && f.Valid() && Framed(t, s, f, done)
    ensures Running(StartFrame(f)) && StartFrame(f).cc < ACCUMULATE
    ensures FramedRun(t, s, StartFrame(f), |done|)
  {
    StartRuns(f);
    EmptyFrame(t);
    hide FrameBank, ZeroBank;
    if s == [] {
      assert s[0..] == [];
    }
  }

  lemma FramedAccumulate(t: Tables, s: seq<byte>, b: byte, g: Frames, k: nat)
    requires t.Valid() && Running(g) && g.cc < ACCUMULATE && FramedRun(t, s, g, k)
    ensures FramedRun(t, s + [b], Accumulate(t, g, b), k)
  {
    FrameBankAppend(t, s[HOP * k..], b);
    assert (s + [b])[HOP * k..] == s[HOP * k..] + [b];
    EmptyFrame(t);
    if g.cc0 >= 0 {
      FrameBankAppend(t, s[HOP * k + HOP..], b);
      assert (s + [b])[HOP * k + HOP..] == s[HOP * k + HOP..] + [b];
    } else if g.cc0 == -1 {
      assert (s + [b])[HOP * k + HOP..] == [];
    }
  }

  lemma DoneStays(t: Tables, s: seq<byte>, b: byte, done: seq<Bank>)
    requires t.Valid() && forall i :: 0 <= i < |done| ==> FrameDone(t, s, i, done[i])
    ensures forall i :: 0 <= i < |done| ==> FrameDone(t, s + [b], i, done[i])
  {
    forall i | 0 <= i < |done|
      ensures FrameDone(t, s + [b], i, done[i])
    {
      assert FrameDone(t, s, i, done[i]);
      assert (s + [b])[HOP * i..HOP * i + ACCUMULATE] == s[HOP * i..HOP * i + ACCUMULATE];
    }
  }

  lemma FrameCountStep(k: nat, c: nat)
    requires k == FrameCount(HOP * k + c) && c < ACCUMULATE
    ensures FrameCount(HOP * k + c + 1) == if c + 1 == ACCUMULATE then k + 1 else k
  {
  }

  lemma FramedFull(t: Tables, u: seq<byte>, r: Frames, done: seq<Bank>)
    requires t.Valid() && Running(r) && r.cc == ACCUMULATE && FramedRun(t, u, r, |done|)
    requires forall i :: 0 <= i < |done| ==> FrameDone(t, u, i, done[i])
    requires FrameCount(|u|) == |done| + 1
    ensures Framed(t, u, EndFrame(r), done + [r.bank])
  {
    hide FrameBank, ResultBank, FrameCount;
    var k := |done|;
    assert u[HOP * k..HOP * k + ACCUMULATE] == u[HOP * k..];
    assert FrameDone(t, u, k, r.bank);
    assert HOP * k + HOP == HOP * (k + 1);
  }

  lemma FramedPartial(t: Tables, u: seq<byte>, r: Frames, done: seq<Bank>)
    requires t.Valid() && Running(r) && 0 < r.cc < ACCUMULATE && FramedRun(t, u, r, |done|)
    requires forall i :: 0 <= i < |done| ==> FrameDone(t, u, i, done[i])
    requires FrameCount(|u|) == |done|
    ensures Framed(t, u, EndFrame(r), done)
  {
    hide FrameBank, ResultBank, FrameCount, FrameDone;
  }

  /** Framing, one sample later. */
  lemma FramedStep(t: Tables, s: seq<byte>, b: byte, f: Frames, done: seq<Bank>)
    requires t.Valid() && f.Valid() && Framed(t, s, f, done)
    ensures Framed(t, s + [b], FrameStep(t, f, b), Add(done, Finished(t, f, b)))
  {
    FramedStart(t, s, f, done);
    FramedAccumulate(t, s, b, StartFrame(f), |done|);
    DoneStays(t, s, b, done);
    FrameCountStep(|done|, StartFrame(f).cc);
    if StartFrame(f).cc + 1 == ACCUMULATE {
      FramedFull(t, s + [b], Accumulate(t, StartFrame(f), b), done);
    } else {
      FramedPartial(t, s + [b], Accumulate(t, StartFrame(f), b), done);
    }
    hide FrameBank, StartFrame, ResultBank, FrameCount, Framed, EndFrame, FramedRun, BankStep;
  }

  lemma EmptyFrame(t: Tables)
    requires t.Valid()
    ensures FrameBank(t, []) == ZeroBank()
  {
    assert t.Weighted([], 0) == [];
  }

  /** Overlapped framing is exactly the simple form: enabled from idle, frame i is the fold
      from zero of samples 103i to 103i + 204 with window weights 0 to 204, for every stream. */
  lemma {:induction false} OverlapRefinesFrames(t: Tables, f: Frames, s: seq<byte>)
    requires t.Valid() && f.Valid() && f.cc == 0 && f.cc0 == 0
    ensures Framed(t, s, FramesAfter(t, f, s), FinishedBanks(t, f, s))
  {
    hide FrameStep, Finished, Framed, Add;
    if s == [] {
      FramedNone(t, f);
    } else {
      var n := |s| - 1;
      OverlapRefinesFrames(t, f, s[..n]);
      FramedStep(t, s[..n], s[n], FramesAfter(t, f, s[..n]), FinishedBanks(t, f, s[..n]));
      assert s[..n] + [s[n]] == s;
    }
  }

  lemma FramedNone(t: Tables, f: Frames)
    requires t.Valid() && f.Valid() && f.cc == 0 && f.cc0 == 0
    ensures Framed(t, [], f, [])
  {
  }

  /** cycle_counter after n samples from idle. */
  function CycleCounter(n: nat): nat {
    if n < ACCUMULATE then n
    else if (n - ACCUMULATE) % HOP == 0 then 0 else HOP - 1 + (n - ACCUMULATE) % HOP
  }

  lemma {:induction false} CountersAfter(t: Tables, f: Frames, s: seq<byte>)
    requires t.Valid() && f.Valid() && f.cc == 0 && f.cc0 == 0
    ensures var r := FramesAfter(t, f, s); var n := |s|;
            r.cc == CycleCounter(n) && (r.cc == 0 ==> r.cc0 == if n == 0 then 0 else HOP - 1)
  {
    hide FrameStep, CycleCounter;
    NextCounter(|s| - 1);
    if s != [] {
      var n := |s| - 1;
      CountersAfter(t, f, s[..n]);
      StepCounters(t, FramesAfter(t, f, s[..n]), s[n]);
    }
  }

  /** The counters one sample later. */
  lemma StepCounters(t: Tables, f: Frames, b: byte)
    requires t.Valid() && f.Valid()
    ensures var r := FrameStep(t, f, b); var c := (if f.cc == 0 then f.cc0 else f.cc) + 1;
            r.cc == (if c == ACCUMULATE then 0 else c) && (c == ACCUMULATE ==> r.cc0 == HOP - 1)
  {
    hide BankStep, ResultBank;
    StartRuns(f);
  }

  lemma NextCounter(n: int)
    ensures CycleCounter(0) == 0
    ensures n >= 0 ==>
              var k := CycleCounter(n); var c := (if n > 0 && k == 0 then HOP - 1 else k) + 1;
              CycleCounter(n + 1) == if c == ACCUMULATE then 0 else c
  {
    if n >= ACCUMULATE {
      Place(n);
      Place(n + 1);
    }
  }

  /** n samples, from the first 205 on, in hops. */
  lemma Place(n: nat)
    requires n >= ACCUMULATE
    ensures var c := (n - ACCUMULATE) % HOP;
            && n % HOP == (if c == 0 then HOP - 1 else c - 1)
            && (n + 1 - ACCUMULATE) % HOP == if c == HOP - 1 then 0 else c + 1
  {
    var q, c := (n - ACCUMULATE) / HOP, (n - ACCUMULATE) % HOP;
    assert n == HOP * (q + 1) + HOP - 1 + c;
  }

  /** After n samples from idle, for these n only, a restart of cycle_counter alone leaves the two
      counters consistent: the frame in progress stands at sample 0 or 103. */
  lemma RestartIsConsistentIff(t: Tables, f: Frames, s: seq<byte>)
    requires t.Valid() && f.Valid() && f.cc == 0 && f.cc0 == 0
    ensures var r := FramesAfter(t, f, s); var n := |s|;
            && (r.(cc := 0).Valid() <==> r.cc == 0 || r.cc == HOP)
            && (r.cc == 0 || r.cc == HOP <==> n % HOP == 0 || (n % HOP == HOP - 1 && n >= ACCUMULATE))
  {
    hide FramesAfter;
    CountersAfter(t, f, s);
    if |s| >= ACCUMULATE {
      Place(|s|);
    }
  }

  /** Only for multiples of 103 the restart is a fresh start as well. */
  lemma RestartIsFreshIff(t: Tables, f: Frames, s: seq<byte>)
    requires t.Valid() && f.Valid() && f.cc == 0 && f.cc0 == 0
    ensures FramesAfter(t, f, s).cc0 == 0 <==> |s| % HOP == 0
  {
    hide FramesAfter;
    CountersAfter(t, f, s);
    if |s| >= ACCUMULATE {
      Place(|s|);
    }
  }

  /** Between two frames the second bank keeps the last 102 samples. */
  lemma BoundaryKeeps(t: Tables, f: Frames, s: seq<byte>)
    requires t.Valid() && f.Valid() && f.cc == 0 && f.cc0 == 0 && |s| >= ACCUMULATE
    ensures var r := FramesAfter(t, f, s);
            r.cc == 0 ==> r.cc0 == HOP - 1 && r.bank0 == FrameBank(t, s[|s| - (HOP - 1)..])
  {
    hide FramesAfter, FrameBank, Framed, FinishedBanks;
    CountersAfter(t, f, s);
    OverlapRefinesFrames(t, f, s);
    if FramesAfter(t, f, s).cc == 0 {
      KeptBank(t, s, FramesAfter(t, f, s), FinishedBanks(t, f, s));
    }
  }

  lemma KeptBank(t: Tables, s: seq<byte>, f: Frames, done: seq<Bank>)
    requires t.Valid() && f.Valid() && Framed(t, s, f, done) && s != [] && f.cc == 0
    ensures |s| >= HOP - 1 && f.bank0 == FrameBank(t, s[|s| - (HOP - 1)..])
  {
    hide FrameBank;
  }

  /** A frame that starts at sample 102 ends 103 samples later, too early by 102. */
  lemma {:induction false} EarlyFrame(t: Tables, f: Frames, u: seq<byte>)
    requires t.Valid() && f.Valid() && f.cc == 0 && f.cc0 == HOP - 1 && |u| <= HOP
    ensures |FinishedBanks(t, f, u)| == if |u| == HOP then 1 else 0
    ensures 0 < |u| < HOP ==> FramesAfter(t, f, u).cc == HOP - 1 + |u|
  {
    hide FrameStep, Accumulate, StartFrame;
    if u != [] {
      var n := |u| - 1;
      EarlyFrame(t, f, u[..n]);
      StepCounters(t, FramesAfter(t, f, u[..n]), u[n]);
      FinishedWhen(t, FramesAfter(t, f, u[..n]), u[n]);
    }
  }

  lemma FinishedWhen(t: Tables, f: Frames, b: byte)
    requires t.Valid() && f.Valid()
    ensures Finished(t, f, b).Some? <==> (if f.cc == 0 && f.cc0 != 0 then f.cc0 else f.cc) + 1 == ACCUMULATE
  {
    hide BankStep;
    StartRuns(f);
  }
}
