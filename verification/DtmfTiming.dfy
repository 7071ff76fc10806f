/** The digit on/off timing of capidtmf_recv_block and the ring of reported digits
    (kernel/capidtmf.c). */
module DtmfTiming {
  import opened Machine
  import opened DtmfDigit

  const END_MARKER: byte := 0x7f
  const REPORTED: word := 0xffff
  const MIN_GAP := 2
  const MIN_DIGIT := 1
  const GRANULARITY := 103  // CAPIDTMF_RECV_TIME_GRANULARITY, samples between decisions

  datatype Timing = Timing(on: word, off: word, value: byte, minGap: word, minDigit: word) {
    /** Kept by every decision; in particular no off time is counted without on time. */
    predicate Valid() {
      && (on == 0 ==> off == 0)
      && (on == REPORTED || on < minDigit)
      && off <= minGap
      && 1 <= minDigit <= 0x7000 && 1 <= minGap <= 0x7000
    }
  }

  /** What one frame stood for: result_digit and likely_digit. */
  datatype Decision = Decision(result: byte, likely: byte)

  datatype Outcome = Outcome(timing: Timing, event: Option<byte>)

  function Increment(w: int): word {
    w % 0x1_0000
  }

  /** The branches after `if (result_digit == CAPIDTMF_RECV_NO_DIGIT)`. */
  function OnDecision(t: Timing, d: Decision): Outcome {
    if d.result == NO_DIGIT then
      if t.on != 0 then
        var off := Increment(t.off + 1);
        if (if d.likely == t.value then off as int - 1 else off) >= t.minGap
        then Outcome(t.(on := 0, off := 0), if t.on == REPORTED then Some(END_MARKER) else None)
        else Outcome(t.(off := off), None)
      else if t.off != 0 then Outcome(t.(off := t.off - 1), None)
      else Outcome(t, None)
    else if t.on == 0 && t.off != 0 then Outcome(t.(off := t.off - 1), None)
    else
      var changed := t.on != 0 && d.result != t.value;
      var on := if changed then 0 else t.on;
      var n := if changed then 0 else t.off;
      if on == REPORTED then Outcome(t.(value := d.result, off := 0), None)
      else
        var m := Increment(on + n + 1);
        if m >= t.minDigit then Outcome(t.(on := REPORTED, off := 0, value := d.result), Some(d.result))
        else Outcome(t.(on := m, off := 0, value := d.result), None)
  }

  /** Every decision keeps the invariant, the 16-bit counters never wrap, and the two
      branches that count the off time down are never taken. */
  lemma DecisionKeepsTiming(t: Timing, d: Decision)
    requires t.Valid()
    ensures OnDecision(t, d).timing.Valid()
    ensures !(t.on == 0 && t.off != 0)
    ensures t.on != REPORTED ==> t.on + t.off + 1 < 0x1_0000
    ensures t.off + 1 < 0x1_0000
    ensures OnDecision(t, d).timing.minGap == t.minGap && OnDecision(t, d).timing.minDigit == t.minDigit
  {
  }

  function TimingAfter(t: Timing, ds: seq<Decision>): (r: Timing)
    requires t.Valid()
    ensures r.Valid()
  {
    if ds == [] then t
    else
      DecisionKeepsTiming(TimingAfter(t, ds[..|ds| - 1]), ds[|ds| - 1]);
      OnDecision(TimingAfter(t, ds[..|ds| - 1]), ds[|ds| - 1]).timing
  }

  function AddEvent(es: seq<byte>, e: Option<byte>): seq<byte> {
    if e.None? then es else es + [e.value]
  }

  /** The digits and end markers reported over a run of decisions. */
  function Events(t: Timing, ds: seq<Decision>): seq<byte>
    requires t.Valid()
  {
    if ds == [] then []
    else AddEvent(Events(t, ds[..|ds| - 1]), OnDecision(TimingAfter(t, ds[..|ds| - 1]), ds[|ds| - 1]).event)
  }

  /** Every end marker comes right after its digit: the event before it, or the digit that
      was pending when the receiver was enabled. */
  ghost predicate Paired(pending: bool, es: seq<byte>) {
    forall i :: 0 <= i < |es| && es[i] == END_MARKER ==> if i == 0 then pending else es[i - 1] < 16
  }

  /** While a digit counts as reported, the last event is that digit, not yet ended. */
  ghost predicate OpenDigit(t0: Timing, t: Timing, es: seq<byte>) {
    t.on == REPORTED ==>
      if es == [] then t0.on == REPORTED && t.value == t0.value else es[|es| - 1] == t.value < 16
  }

  lemma {:induction false} MarkersPair(t: Timing, ds: seq<Decision>)
    requires t.Valid()
    requires forall i :: 0 <= i < |ds| ==> ds[i].result < 16 || ds[i].result == NO_DIGIT
    ensures Paired(t.on == REPORTED, Events(t, ds))
    ensures OpenDigit(t, TimingAfter(t, ds), Events(t, ds))
    ensures forall i :: 0 <= i < |Events(t, ds)| ==> Events(t, ds)[i] < 16 || Events(t, ds)[i] == END_MARKER
  {
    if ds != [] {
      MarkersPair(t, ds[..|ds| - 1]);
    }
  }

  lemma NoDecision(t: Timing, ds: seq<Decision>)
    requires t.Valid() && ds == []
    ensures TimingAfter(t, ds) == t && Events(t, ds) == []
  {
  }

  lemma OneDecision(t: Timing, ds: seq<Decision>, d: Decision)
    requires t.Valid()
    ensures var o := OnDecision(TimingAfter(t, ds), d);
            TimingAfter(t, ds + [d]) == o.timing && Events(t, ds + [d]) == AddEvent(Events(t, ds), o.event)
  {
    assert (ds + [d])[..|ds|] == ds;
  }

  /** From silence a steady digit is reported once, at exactly the min_digit_duration-th
      decision. */
  lemma {:induction false} SteadyDigit(t: Timing, d: byte, n: nat)
    requires t.Valid() && t.on == 0 && d < 16
    ensures var ds := seq(n, _ => Decision(d, d));
            && Events(t, ds) == (if n < t.minDigit then [] else [d])
            && TimingAfter(t, ds) == if n == 0 then t else
                 t.(on := if n < t.minDigit then n else REPORTED, value := d)
  {
    hide TimingAfter, Events;
    var ds := seq(n, _ => Decision(d, d));
    if n == 0 {
      NoDecision(t, ds);
    } else {
      SteadyDigit(t, d, n - 1);
      assert ds == seq(n - 1, _ => Decision(d, d)) + [Decision(d, d)];
      OneDecision(t, seq(n - 1, _ => Decision(d, d)), Decision(d, d));
    }
  }

  /** After a reported digit, steady silence gives one end marker, at exactly the
      min_gap_duration-th decision, one later when the digit is still the likely one. */
  lemma {:induction false} SteadyGap(t: Timing, likely: byte, n: nat)
    requires t.Valid() && t.on == REPORTED && t.off == 0
    ensures var gap := if likely == t.value then t.minGap + 1 else t.minGap;
            var ds := seq(n, _ => Decision(NO_DIGIT, likely));
            && Events(t, ds) == (if n < gap then [] else [END_MARKER])
            && TimingAfter(t, ds) == if n < gap then t.(off := n) else t.(on := 0)
  {
    hide TimingAfter, Events;
    var ds := seq(n, _ => Decision(NO_DIGIT, likely));
    if n == 0 {
      NoDecision(t, ds);
    } else {
      SteadyGap(t, likely, n - 1);
      assert ds == seq(n - 1, _ => Decision(NO_DIGIT, likely)) + [Decision(NO_DIGIT, likely)];
      OneDecision(t, seq(n - 1, _ => Decision(NO_DIGIT, likely)), Decision(NO_DIGIT, likely));
    }
  }

  /** No digit is decided. */
  predicate Silent(ds: seq<Decision>) {
    forall i :: 0 <= i < |ds| ==> ds[i].result == NO_DIGIT
  }

  /** Whether a silence behind a digit is long enough to end it: one decision more is granted when
      the digit is still the likely one. */
  predicate EndsDigit(t: Timing, ds: seq<Decision>) {
    |ds| > t.minGap || (|ds| == t.minGap > 0 && ds[|ds| - 1].likely != t.value)
  }

  /** Any silence behind a digit: while it is too short to end the digit it is only counted; then
      it ends the digit, with one end marker if the digit has been reported. */
  lemma {:induction false} SilenceCounts(t: Timing, ds: seq<Decision>)
    requires t.Valid() && t.on != 0 && t.off == 0 && Silent(ds)
    ensures Events(t, ds) == (if EndsDigit(t, ds) && t.on == REPORTED then [END_MARKER] else [])
    ensures TimingAfter(t, ds) == if EndsDigit(t, ds) then t.(on := 0) else t.(off := |ds|)
  {
    hide TimingAfter, Events;
    if ds == [] {
      NoDecision(t, ds);
    } else {
      var before, d := ds[..|ds| - 1], ds[|ds| - 1];
      SilenceCounts(t, before);
      assert ds == before + [d];
      OneDecision(t, before, d);
    }
  }

  /** Silence behind silence changes nothing and reports nothing. */
  lemma {:induction false} IdleSilence(t: Timing, ds: seq<Decision>)
    requires t.Valid() && t.on == 0 && Silent(ds)
    ensures Events(t, ds) == [] && TimingAfter(t, ds) == t
  {
    hide TimingAfter, Events;
    if ds == [] {
      NoDecision(t, ds);
    } else {
      var before, d := ds[..|ds| - 1], ds[|ds| - 1];
      IdleSilence(t, before);
      assert ds == before + [d];
      OneDecision(t, before, d);
    }
  }

  /** A dropout too short to end a digit is bridged: when the digit comes back, the off time counts
      towards its duration, and a digit already reported is not reported again.  Another digit
      starts from one. */
  lemma DropoutIsBridged(t: Timing, ds: seq<Decision>, d: Decision)
    requires t.Valid() && t.on != 0 && t.off == 0 && Silent(ds) && !EndsDigit(t, ds) && d.result != NO_DIGIT
    ensures var on := if d.result != t.value then 1 else if t.on == REPORTED then REPORTED else t.on + |ds| + 1;
            var reports := on >= t.minDigit && !(t.on == REPORTED && d.result == t.value);
            && Events(t, ds + [d]) == (if reports then [d.result] else [])
            && TimingAfter(t, ds + [d]) == t.(on := if on >= t.minDigit then REPORTED else on, value := d.result)
  {
    hide TimingAfter, Events;
    SilenceCounts(t, ds);
    OneDecision(t, ds, d);
  }

  // ----------------------------------------------------------- the ring

  const RING := 32  // CAPIDTMF_RECV_DIGIT_BUFFER_SIZE

  /** A queue of at most 31 digits; a digit that finds it full is dropped. */
  function Pushed(q: seq<byte>, e: Option<byte>): seq<byte> {
    if e.None? || |q| == RING - 1 then q else q + [e.value]
  }

  /** digit_buffer with its positions, and bit 0 of the two indication words, the only bit
      in use. */
  class DigitRing {
    const buffer: array<byte>
    var writePos: nat
    var readPos: nat
    var indicated: bool
    var acknowledged: bool

    ghost function Contents(): seq<byte>
      requires Positions()
      reads this, buffer
    {
      if readPos <= writePos then buffer[readPos..writePos] else buffer[readPos..] + buffer[..writePos]
    }

    ghost predicate Positions()
      reads this
    {
      buffer.Length == RING && writePos < RING && readPos < RING
    }

    /** An indication is due exactly while digits are queued. */
    ghost predicate Valid()
      reads this, buffer
    {
      Positions() && (indicated != acknowledged <==> Contents() != [])
    }

    constructor ()
      ensures Valid() && Contents() == [] && fresh(buffer)
    {
      buffer := new byte[RING](_ => 0);
      writePos, readPos, indicated, acknowledged := 0, 0, false, false;
    }

    // capidtmf_recv_init
    method Clear()
      requires Valid()
      modifies this
      ensures Valid() && Contents() == []
    {
      writePos, readPos, indicated, acknowledged := 0, 0, false, false;
    }

    // capidtmf_recv_indicate_digit
    method IndicateDigit(digit: byte)
      requires Valid()
      modifies this, buffer
      ensures Valid() && Contents() == Pushed(old(Contents()), Some(digit))
    {
      var i := if writePos == RING - 1 then 0 else writePos + 1;
      if i != readPos {
        buffer[writePos] := digit;
        writePos := i;
        indicated := !acknowledged;
      }
    }

    // capidtmf_recv_indication
    method Indication(out: array<byte>) returns (n: nat)
      requires Valid() && out.Length >= RING - 1 && out != buffer
      modifies this, out
      ensures Valid() && Contents() == []
      ensures n == |old(Contents())| < RING && out[..n] == old(Contents())
      ensures old(Contents()) == [] ==> acknowledged == old(acknowledged)
    {
      var flag := indicated != acknowledged;
      acknowledged := acknowledged != flag;
      if writePos != readPos {
        n := CopyOut(out);
        readPos := writePos;
        return n;
      }
      acknowledged := acknowledged != flag;
      return 0;
    }

    /** The copying loop of capidtmf_recv_indication. */
    method CopyOut(out: array<byte>) returns (n: nat)
      requires Positions() && writePos != readPos
      requires out.Length >= RING - 1 && out != buffer
      modifies out
      ensures n == |Contents()| < RING && out[..n] == Contents()
    {
      ghost var q := Contents();
      n := 0;
      var k, j := writePos, readPos;
      while true
        invariant 0 <= j < RING && n < |q|
        invariant q == Contents() && |q| == if readPos <= writePos then writePos - readPos else writePos - readPos + RING
        invariant out[..n] == q[..n]
        invariant j == if readPos + n < RING then readPos + n else readPos + n - RING
        decreases |q| - n
      {
        assert buffer[j] == q[n];
        out[n] := buffer[j];
        assert out[..n + 1] == q[..n + 1];
        n := n + 1;
        j := if j == RING - 1 then 0 else j + 1;
        if j == k {
          break;
        }
      }
    }
  }

  // --------------------------------------------------- enabling the receiver

  /** min_digit_duration in units of decisions, from milliseconds. */
  function MinDigit(ms: word): (n: word)
    ensures 1 <= n <= 0x7000
  {
    var n := (ms * 8 + GRANULARITY / 2) / GRANULARITY;
    if n <= MIN_DIGIT then MIN_DIGIT else if n - 1 > MIN_DIGIT then n - 2 else n - 1
  }

  function MinGap(ms: word): (n: word)
    ensures 2 <= n <= 0x7000
  {
    var n := ms * 8 / GRANULARITY;
    if n <= MIN_GAP then MIN_GAP else if n - 1 > MIN_GAP then n - 2 else n - 1
  }

  /** The durations, from 8 samples a millisecond: what is left of the demanded time, in hops of
      103 samples, once two hops are taken off, and never less than the minimum. */
  lemma DurationsAre(ms: word)
    ensures MinGap(ms) == Max(MIN_GAP, (8 * ms as int - 2 * GRANULARITY) / GRANULARITY)
    ensures MinDigit(ms) == Max(MIN_DIGIT, (8 * ms as int + GRANULARITY / 2 - 2 * GRANULARITY) / GRANULARITY)
  {
  }

  /** Frame k, of 205 samples from sample 103k on, lies within the n samples from a on. */
  predicate Lies(a: nat, n: nat, k: nat) {
    a <= GRANULARITY * k && GRANULARITY * k + 2 * GRANULARITY - 1 <= a + n
  }

  /** The m frames from k on lie within the n samples from a on. */
  predicate RunLies(a: nat, n: nat, k: nat, m: nat) {
    forall i :: k <= i < k + m ==> Lies(a, n, i)
  }

  ghost predicate HoldsAt(a: nat, n: nat, m: nat) {
    exists k: nat :: RunLies(a, n, k, m)
  }

  /** A time of n samples holds m successive whole frames, wherever it begins. */
  ghost predicate Holds(n: nat, m: nat) {
    forall a: nat :: HoldsAt(a, n, m)
  }

  /** Frames that lie within n samples wherever these begin. */
  function FramesWithin(n: nat): nat {
    if n < 2 * GRANULARITY - 2 then 0 else (n - (2 * GRANULARITY - 2)) / GRANULARITY
  }

  /** The first frame that starts at sample a or later. */
  function FirstFrom(a: nat): nat {
    (a + GRANULARITY - 1) / GRANULARITY
  }

  lemma FramesLieWithin(a: nat, n: nat)
    ensures RunLies(a, n, FirstFrom(a), FramesWithin(n))
  {
    forall i | FirstFrom(a) <= i < FirstFrom(a) + FramesWithin(n) ensures Lies(a, n, i) {
      assert GRANULARITY * FirstFrom(a) <= a + GRANULARITY - 1;
      assert GRANULARITY * (FramesWithin(n)) <= n - (2 * GRANULARITY - 2);
    }
  }

  /** From sample 1 on there are no more of them. */
  lemma NoMoreFromOne(n: nat, k: nat)
    requires Lies(1, n, k)
    ensures 1 <= k <= FramesWithin(n)
  {
    assert GRANULARITY * k <= n - (2 * GRANULARITY - 2);
  }

  lemma HoldsIff(n: nat, m: nat)
    requires m > 0
    ensures Holds(n, m) <==> m <= FramesWithin(n)
  {
    if m <= FramesWithin(n) {
      forall a: nat ensures HoldsAt(a, n, m) {
        FramesLieWithin(a, n);
        assert RunLies(a, n, FirstFrom(a), m);
      }
    } else if HoldsAt(1, n, m) {
      var k: nat :| RunLies(1, n, k, m);
      var last: nat := k + m - 1;
      assert Lies(1, n, k) && Lies(1, n, last);
      NoMoreFromOne(n, k);
      NoMoreFromOne(n, last);
    }
  }

  /** A silence of the demanded length holds min_gap_duration whole frames, wherever it begins,
      exactly when 52 ms or more are demanded. */
  lemma GapIsHeldIff(ms: word)
    ensures Holds(8 * ms, MinGap(ms)) <==> ms >= 52
  {
    HoldsIff(8 * ms, MinGap(ms));
    hide Holds;
    DurationsAre(ms);
  }

  /** A digit of the demanded length holds min_digit_duration whole frames, wherever it begins,
      except below 39 ms and where rounding has added a frame. */
  lemma DigitIsHeldIff(ms: word)
    ensures Holds(8 * ms, MinDigit(ms))
            <==> ms >= 39 && (MinDigit(ms) == MIN_DIGIT || !(52 <= (8 * ms as int - 206) % GRANULARITY <= 100))
  {
    HoldsIff(8 * ms, MinDigit(ms));
    hide Holds;
    DurationsAre(ms);
  }

  /** The timing state capidtmf_recv_enable sets up; a pending digit counts as reported. */
  function Enabled(digitMs: word, gapMs: word, pending: byte): (t: Timing)
    ensures t.Valid() && t.off == 0
    ensures t.on == (if pending < 16 then REPORTED else 0) && t.value == (if pending < 16 then pending else NO_DIGIT)
    ensures t.minGap == Max(2, (8 * gapMs as int - 206) / 103)
    ensures t.minDigit == Max(1, (8 * digitMs as int - 155) / 103)
  {
    DurationsAre(gapMs);
    DurationsAre(digitMs);
    if pending < 16 then Timing(REPORTED, 0, pending, MinGap(gapMs), MinDigit(digitMs))
    else Timing(0, 0, NO_DIGIT, MinGap(gapMs), MinDigit(digitMs))
  }

  /** The timing counters of a receiver together with its digit ring. */
  class DigitTimer {
    const digits: DigitRing
    var on: word
    var off: word
    var value: byte
    var minGap: word
    var minDigit: word

    ghost function State(): Timing
      reads this
    {
      Timing(on, off, value, minGap, minDigit)
    }

    ghost function Digits(): seq<byte>
      requires digits.Positions()
      reads digits, digits.buffer
    {
      digits.Contents()
    }

    // the timing part of capidtmf_recv_init
    constructor ()
      ensures digits.Valid() && fresh(digits) && fresh(digits.buffer) && Digits() == [] && State().Valid()
    {
      digits := new DigitRing();
      on, off, value, minGap, minDigit := 0, 0, NO_DIGIT, MIN_GAP, MIN_DIGIT;
    }

    method Clear()
      requires digits.Valid()
      modifies this, digits
      ensures digits.Valid() && Digits() == [] && State().Valid()
    {
      minGap, minDigit := MIN_GAP, MIN_DIGIT;
      on, off, value := 0, 0, NO_DIGIT;
      digits.Clear();
    }

    // the timing part of capidtmf_recv_enable
    method Enable(digitMs: word, gapMs: word, pending: byte)
      modifies this
      ensures State() == Enabled(digitMs, gapMs, pending)
    {
      minDigit := MinDigit(digitMs);
      minGap := MinGap(gapMs);
      if pending < 0x10 {
        on, off, value := REPORTED, 0, pending;
      } else {
        on, off, value := 0, 0, NO_DIGIT;
      }
    }

    /** The digit on/off timing after the decision of a frame. */
    method Time(d: Decision)
      requires digits.Valid()
      modifies this, digits, digits.buffer
      ensures digits.Valid()
      ensures var o := OnDecision(old(State()), d);
              State() == o.timing && Digits() == Pushed(old(Digits()), o.event)
    {
      hide DigitRing.Contents;
      if d.result == NO_DIGIT {
        if on != 0 {
          off := Increment(off + 1);
          if (if d.likely == value then off as int - 1 else off) >= minGap {
            if on == REPORTED {
              digits.IndicateDigit(END_MARKER);
            }
            on, off := 0, 0;
          }
        } else if off != 0 {
          off := off - 1;
        }
      } else if on == 0 && off != 0 {
        off := off - 1;
      } else {
        TimeDigit(d.result);
      }
    }

    /** The branch of a decided digit. */
    method TimeDigit(result: byte)
      requires digits.Valid() && result != NO_DIGIT && !(on == 0 && off != 0)
      modifies this, digits, digits.buffer
      ensures digits.Valid()
      ensures var o := OnDecision(old(State()), Decision(result, result));
              State() == o.timing && Digits() == Pushed(old(Digits()), o.event)
    {
      hide DigitRing.Contents;
      var n := off;
      if on != 0 && result != value {
        on, n := 0, 0;
      }
      value, off := result, 0;
      if on != REPORTED {
        on := Increment(on + n + 1);
        if on >= minDigit {
          on := REPORTED;
          digits.IndicateDigit(result);
        }
      }
    }
  }
}
