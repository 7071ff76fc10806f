/** No sum or product of the DTMF receiver (kernel/capidtmf.c) overflows: for every sample stream
    the filters, powers and levels of a frame are those of unbounded integers.  (The level of no power
    at all comes from a shift of 0 by 32 bits, which C leaves undefined; it is taken as 0 here.) */
module DtmfExact {
  import opened Machine
  import opened DtmfGoertzel
  import opened DtmfPower
  import opened DtmfLevel
  import opened DtmfDigit
  import opened DtmfFrames
  import opened DtmfReceiver
  import opened DtmfBound

  /** What the energy argument says of resonator i after n samples. */
  ghost predicate Kept(bank: Bank, i: nat, n: nat)
    requires bank.Valid() && i < FREQUENCIES
  {
    if i < FUNDAMENTAL then Bounded(COEFFICIENTS[i], bank.r[i].q1, bank.r[i].q2, n)
    else Moving(bank.fund, bank.r[i].q1, bank.r[i].q2, n)
  }

  lemma KeptInRange(bank: Bank, i: nat, n: nat)
    requires bank.Valid() && i < FREQUENCIES && n <= 205 && Kept(bank, i, n)
    requires bank.fund == FUNDAMENTAL_OFFSET - FUNDAMENTAL_DECREMENT * n
    ensures Abs(bank.r[i].q1) < 0x4000_0000 && Abs(bank.r[i].q2) < 0x4000_0000
  {
    FrameReach(n);
    if i == FUNDAMENTAL {
      MovingInRange(bank.fund, bank.r[i].q1, bank.r[i].q2, n);
    }
  }

  /** The input of a step: the sample, less the rounding of the product. */
  lemma InputBound(c: int, q1: int, q2: int, sample: int16) returns (w: int)
    ensures var q0 := sample - q2 + c * q1 / 0x1_0000; K * q0 == c * q1 - K * q2 + w
    ensures Abs(w) <= K * U
  {
    var p := c * q1;
    w := K * sample - p % 0x1_0000;
    assert p == 0x1_0000 * (p / 0x1_0000) + p % 0x1_0000;
  }

  /** The accumulators of a frame stay below 2^30, and every step of it is the recurrence without
      any wrap-around. */
  lemma {:induction false} FrameStaysInRange(s: seq<int16>, i: nat)
    requires |s| <= 205 && i < FREQUENCIES
    ensures var b := BankFold(ZeroBank(), s);
            && Kept(b, i, |s|)
            && Abs(b.r[i].q1) < 0x4000_0000 && Abs(b.r[i].q2) < 0x4000_0000
            && (s != [] ==>
                  var a := BankFold(ZeroBank(), s[..|s| - 1]);
                  && b.r[i].q1 == s[|s| - 1] - a.r[i].q2 + Coefficient(a, i) * a.r[i].q1 / 0x1_0000
                  && b.r[i].q2 == a.r[i].q1)
  {
    var b := BankFold(ZeroBank(), s);
    if s == [] {
      NothingKept(i);
    } else {
      var n := |s| - 1;
      FrameStaysInRange(s[..n], i);
      FundamentalInRange(s[..n]);
      var a := BankFold(ZeroBank(), s[..n]);
      NextKept(a, i, n, s[n]);
    }
    hide BankFold, Kept;
    KeptInRange(b, i, |s|);
  }

  lemma NothingKept(i: nat)
    requires i < FREQUENCIES
    ensures Kept(ZeroBank(), i, 0)
  {
  }

  lemma NextKept(a: Bank, i: nat, n: nat, sample: int16)
    requires a.Valid() && i < FREQUENCIES && n < 205 && Kept(a, i, n)
    requires a.fund == FUNDAMENTAL_OFFSET - FUNDAMENTAL_DECREMENT * n && a.fund % 2 == 0
    ensures var b := BankStep(a, sample);
            && Kept(b, i, n + 1)
            && b.r[i].q1 == sample - a.r[i].q2 + Coefficient(a, i) * a.r[i].q1 / 0x1_0000 && b.r[i].q2 == a.r[i].q1
  {
    hide Step, Bounded, Moving;
    var c, r := Coefficient(a, i), a.r[i];
    assert 0 <= c < 0x2_0000 && c % 2 == 0;
    if i < FUNDAMENTAL {
      FixedStep(c, r, sample, n);
    } else {
      FundamentalStep(c, r, sample, n);
    }
  }

  lemma FixedStep(c: int, r: Resonator, sample: int16, n: nat)
    requires 0 <= c < 0x2_0000 && c % 2 == 0 && n < 205 && Bounded(c, r.q1, r.q2, n)
    ensures var x := Step(r, c, sample);
            Bounded(c, x.q1, x.q2, n + 1) && x.q1 == sample - r.q2 + c * r.q1 / 0x1_0000 && x.q2 == r.q1
  {
    hide Step, Bounded, Reach;
    StepIsRecurrence(r, c, sample);
    var w := InputBound(c, r.q1, r.q2, sample);
    var q0 := sample - r.q2 + c * r.q1 / 0x1_0000;
    StepBounded(c, q0, r.q1, r.q2, w, n);
    FrameReach(n + 1);
    BoundedInRange(c, q0, r.q1, n + 1);
  }

  lemma FundamentalStep(c: int, r: Resonator, sample: int16, n: nat)
    requires LAST + FUNDAMENTAL_DECREMENT <= c <= FUNDAMENTAL_OFFSET && c % 2 == 0 && n < 205 && Moving(c, r.q1, r.q2, n)
    ensures var x := Step(r, c, sample);
            && Moving(c - FUNDAMENTAL_DECREMENT, x.q1, x.q2, n + 1)
            && x.q1 == sample - r.q2 + c * r.q1 / 0x1_0000 && x.q2 == r.q1
  {
    hide Step, Moving;
    StepIsRecurrence(r, c, sample);
    var w := InputBound(c, r.q1, r.q2, sample);
    var q0 := sample - r.q2 + c * r.q1 / 0x1_0000;
    MovingStep(c, q0, r.q1, r.q2, w, n);
    MovingInRange(c - FUNDAMENTAL_DECREMENT, q0, r.q1, n + 1);
  }

  lemma BoundedInRange(c: int, q1: int, q2: int, n: nat)
    requires Bounded(c, q1, q2, n)
    ensures Abs(q1) <= Reach(n) && Abs(q2) <= Reach(n)
  {
  }

  /** The power of a resonator, in unbounded integers. */
  function Power(c: int, r: Resonator): int {
    (-c * r.q1 / 0x1_0000) * r.q2 + r.q1 * r.q1 + r.q2 * r.q2
  }

  /** For every frame of every stream the level of each frequency is that of its exact power. */
  lemma FrameLevelsAreExact(t: Tables, s: seq<byte>, i: nat)
    requires t.Valid() && |s| <= ACCUMULATE && i < FREQUENCIES
    ensures var b := FrameBank(t, s); var v := Power(Coefficient(b, i), b.r[i]);
            && 0 <= v < 0x8000_0000 * 0x1_0000_0000
            && Levels(ResultBank(b))[i] == 3 * BitLength(v) + 3 + Third(TopBits(v))
  {
    var w, b := t.Weighted(s, 0), FrameBank(t, s);
    FrameStaysInRange(w, i);
    FundamentalInRange(w);
    ExactLevel(b, i);
  }

  lemma ExactLevel(b: Bank, i: nat)
    requires b.Valid() && i < FREQUENCIES && 0 < b.fund < 0x2_0000 && b.fund % 2 == 0
    requires Abs(b.r[i].q1) < 0x4000_0000 && Abs(b.r[i].q2) < 0x4000_0000
    ensures var v := Power(Coefficient(b, i), b.r[i]);
            && 0 <= v < 0x8000_0000 * 0x1_0000_0000
            && Levels(ResultBank(b))[i] == 3 * BitLength(v) + 3 + Third(TopBits(v))
  {
    hide PowerLimbs, LevelOf, BitLength, TopBits, Third;
    var c, r := Coefficient(b, i), b.r[i];
    assert 0 <= c < 0x2_0000 && c % 2 == 0;
    PowerExact(c, r.q1, r.q2);
    PowerRange(c, r.q1, r.q2);
    var out := PowerWords(c, r);
    assert ResultBank(b).r[i] == out;
    HighIsUnsigned(out.q2, out.q1, Power(c, r));
    LevelIs(ToDword(out.q2), ToDword(out.q1));
  }

  lemma HighIsUnsigned(hi: int32, lo: int32, v: int)
    requires hi * 0x1_0000_0000 + ToDword(lo) == v && 0 <= v < 0x8000_0000 * 0x1_0000_0000
    ensures 0 <= hi && ToDword(hi) == hi && ToDword(hi) * 0x1_0000_0000 + ToDword(lo) == v
  {
  }

  /** The digit decided for a frame of samples, with and without a look at the other frequencies. */
  lemma FrameDecisionMeaning(t: Tables, s: seq<byte>, d: byte)
    requires t.Valid() && |s| <= ACCUMULATE && d != NO_DIGIT
    ensures var b := FrameBank(t, s); var l, x := Levels(ResultBank(b)), FrameDecision(b);
            && (forall i: nat :: i < FREQUENCIES ==>
                  var v := Power(Coefficient(b, i), b.r[i]); v >= 0 && l[i] == 3 * BitLength(v) + 3 + Third(TopBits(v)))
            && (x.result == d <==> exists i: nat, j: nat :: Makes(l, i, j, d))
            && (x.likely == d <==> exists i: nat, j: nat :: Tones(l, i, j) && d == i + 4 * (j - 4))
  {
    hide FrameBank, ResultBank, Levels, BitLength, TopBits, Third, Makes, Tones, LikelyDigit, ResultDigit, Power;
    var b := FrameBank(t, s);
    forall i: nat | i < FREQUENCIES
      ensures var v := Power(Coefficient(b, i), b.r[i]); v >= 0 && Levels(ResultBank(b))[i] == 3 * BitLength(v) + 3 + Third(TopBits(v))
    {
      FrameLevelsAreExact(t, s, i);
    }
    DigitMeaning(Levels(ResultBank(b)), d);
    LikelyMeaning(Levels(ResultBank(b)));
  }
}
