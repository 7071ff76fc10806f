/** The decision at the end of a frame in capidtmf_recv_block (kernel/capidtmf.c): which
    digit, if any, the sixteen levels stand for. */
module DtmfDigit {
  import opened Machine
  import opened DtmfGoertzel
  import opened DtmfPower

  const NO_DIGIT: byte := 0xff
  const LOW_GROUP := 4
  const BASE_FREQUENCIES := 8
  const SENSITIVITY := 83
  const TWIST := 10
  const DONTCARE := 0xc000
  const GUARD_LOW: seq<word> := [
    14, 14, 14, 14, DONTCARE, DONTCARE, DONTCARE, DONTCARE,
    14, 16, DONTCARE, DONTCARE, 4, 8, 8, 12]
  const GUARD_HIGH: seq<word> := [
    DONTCARE, DONTCARE, DONTCARE, DONTCARE, 18, 18, 18, 18,
    DONTCARE, DONTCARE, 16, 4, 6, 8, 16, 12]

  // ----------------------------------------------------------------- levels

  function BitLength(x: nat): nat {
    if x == 0 then 0 else 1 + BitLength(x / 2)
  }

  function Pow2(n: nat): (p: nat)
    ensures p > 0
  {
    if n == 0 then 1 else 2 * Pow2(n - 1)
  }

  function LeadingZeros(d: dword): int {
    32 - BitLength(d)
  }

  /** Three steps an octave of power: the top 32 bits after normalising decide the remainder. */
  function LevelOf(hi: dword, lo: dword): byte {
    var n := if hi != 0 then LeadingZeros(hi) else 32 + LeadingZeros(lo);
    var m := if hi != 0 then ToDword(hi * Pow2(Max(n, 0)) + lo / Pow2(Max(32 - n, 0)))
             else ToDword(lo * Pow2(Max(n - 32, 0)));
    (195 - 3 * n + if m >= 0xcb30_0000 then 2 else if m >= 0xa145_0000 then 1 else 0) % 0x100
  }

  type levels = l: seq<byte> | |l| == FREQUENCIES witness seq(FREQUENCIES, _ => 0)

  // ------------------------------------------------------------- the decision

  /** The greatest of `floor` and the levels in [a, b). */
  function PeakLevel(l: levels, a: nat, b: nat, floor: byte): byte
    requires a <= b <= FREQUENCIES
  {
    if a == b then floor else Max(PeakLevel(l, a, b - 1, floor), l[b - 1])
  }

  /** The first place in [a, b) of the greatest level, if that exceeds `floor`. */
  function PeakIndex(l: levels, a: nat, b: nat, floor: byte): Option<nat>
    requires a <= b <= FREQUENCIES
  {
    if a == b then None
    else if l[b - 1] > PeakLevel(l, a, b - 1, floor) then Some(b - 1)
    else PeakIndex(l, a, b - 1, floor)
  }

  lemma {:induction false} PeakMeaning(l: levels, a: nat, b: nat, floor: byte)
    requires a <= b <= FREQUENCIES
    ensures match PeakIndex(l, a, b, floor)
            case None => PeakLevel(l, a, b, floor) == floor && forall k :: a <= k < b ==> l[k] <= floor
            case Some(i) =>
              && a <= i < b && l[i] == PeakLevel(l, a, b, floor) > floor
              && (forall k :: a <= k < i ==> l[k] < l[i])
              && (forall k :: i < k < b ==> l[k] <= l[i])
  {
    if a < b {
      PeakMeaning(l, a, b - 1, floor);
    }
  }

  /** Frequency i is too strong beside the group peaks. */
  predicate TooStrong(l: levels, i: nat, low: byte, high: byte)
    requires i < FREQUENCIES
  {
    || ToInt16(low as int - l[i] - GUARD_LOW[i]) < 0
    || ToInt16(high as int - l[i] - GUARD_HIGH[i]) < 0
  }

  function CountStrong(l: levels, n: nat, low: byte, high: byte): (c: nat)
    requires n <= FREQUENCIES
    ensures c <= n
  {
    if n == 0 then 0
    else CountStrong(l, n - 1, low, high) + if TooStrong(l, n - 1, low, high) then 1 else 0
  }

  function LowPeak(l: levels): byte {
    PeakLevel(l, 0, LOW_GROUP, SENSITIVITY)
  }

  function HighPeak(l: levels): byte {
    PeakLevel(l, LOW_GROUP, BASE_FREQUENCIES, SENSITIVITY)
  }

  /** The digit of the two group peaks, before the guard frequencies are looked at. */
  function LikelyDigit(l: levels): (d: byte)
    ensures d == NO_DIGIT || d < 16
  {
    var low, high := PeakIndex(l, 0, LOW_GROUP, SENSITIVITY), PeakIndex(l, LOW_GROUP, BASE_FREQUENCIES, SENSITIVITY);
    PeakMeaning(l, 0, LOW_GROUP, SENSITIVITY);
    PeakMeaning(l, LOW_GROUP, BASE_FREQUENCIES, SENSITIVITY);
    if low.None? || high.None? || Abs(LowPeak(l) as int - HighPeak(l)) > TWIST then NO_DIGIT
    else low.value + 4 * (high.value - LOW_GROUP)
  }

  function ResultDigit(l: levels): (d: byte)
    ensures d == NO_DIGIT || d == LikelyDigit(l) < 16
  {
    if CountStrong(l, FREQUENCIES, LowPeak(l), HighPeak(l)) == 2 then LikelyDigit(l) else NO_DIGIT
  }

  lemma {:induction false} CountsExactly(l: levels, n: nat, low: byte, high: byte, i: nat, j: nat)
    requires n <= FREQUENCIES && i < j < FREQUENCIES
    requires TooStrong(l, i, low, high) && TooStrong(l, j, low, high)
    ensures CountStrong(l, n, low, high) >= (if i < n then 1 else 0) + if j < n then 1 else 0
    ensures CountStrong(l, n, low, high) == (if i < n then 1 else 0) + (if j < n then 1 else 0)
            <==> forall k :: 0 <= k < n && k != i && k != j ==> !TooStrong(l, k, low, high)
  {
    hide TooStrong;
    if n > 0 {
      CountsExactly(l, n - 1, low, high, i, j);
    }
  }

  /** Frequency i is the first strongest of the group [a, b), and above the sensitivity. */
  predicate Strongest(l: levels, a: nat, b: nat, i: nat)
    requires b <= FREQUENCIES
  {
    && a <= i < b && l[i] > 83
    && (forall k :: a <= k < i ==> l[k] < l[i]) && (forall k :: i < k < b ==> l[k] <= l[i])
  }

  /** A row tone i and a column tone j that make a digit: neither is more than 10 above the other. */
  predicate Tones(l: levels, i: nat, j: nat) {
    Strongest(l, 0, 4, i) && Strongest(l, 4, 8, j) && -10 <= l[i] as int - l[j] as int <= 10
  }

  /** The peak of a group is its strongest frequency, if there is one. */
  lemma PeakIsStrongest(l: levels, a: nat, b: nat)
    requires a <= b <= FREQUENCIES
    ensures var p := PeakIndex(l, a, b, SENSITIVITY);
            && (forall i: nat :: Strongest(l, a, b, i) <==> p == Some(i))
            && (p.Some? ==> PeakLevel(l, a, b, SENSITIVITY) == l[p.value])
  {
    hide PeakIndex, PeakLevel;
    PeakMeaning(l, a, b, SENSITIVITY);
  }

  /** The likely digit is the one of the two tones, and there is none exactly when no two tones make
      a digit. */
  lemma LikelyMeaning(l: levels)
    ensures forall i: nat, j: nat :: Tones(l, i, j) ==> i < 4 <= j < 8 && LikelyDigit(l) == i + 4 * (j - 4)
    ensures LikelyDigit(l) == NO_DIGIT <==> !exists i: nat, j: nat :: Tones(l, i, j)
    ensures forall i: nat, j: nat :: Tones(l, i, j) ==> LowPeak(l) == l[i] && HighPeak(l) == l[j]
  {
    hide PeakIndex, PeakLevel;
    PeakIsStrongest(l, 0, LOW_GROUP);
    PeakIsStrongest(l, LOW_GROUP, BASE_FREQUENCIES);
    var p, q := PeakIndex(l, 0, LOW_GROUP, SENSITIVITY), PeakIndex(l, LOW_GROUP, BASE_FREQUENCIES, SENSITIVITY);
    if p.Some? && q.Some? {
      assert Strongest(l, 0, 4, p.value) && Strongest(l, 4, 8, q.value);
      assert LikelyDigit(l) != NO_DIGIT <==> Tones(l, p.value, q.value);
    }
  }

  /** Frequency k is within its guard distance of a peak that it is measured against. */
  predicate Disturbs(l: levels, k: nat, low: byte, high: byte)
    requires k < FREQUENCIES
  {
    || (GUARD_LOW[k] != DONTCARE && low as int - l[k] as int < GUARD_LOW[k] as int)
    || (GUARD_HIGH[k] != DONTCARE && high as int - l[k] as int < GUARD_HIGH[k] as int)
  }

  lemma TooStrongMeaning(l: levels, k: nat, low: byte, high: byte)
    requires k < FREQUENCIES
    ensures TooStrong(l, k, low, high) <==> Disturbs(l, k, low, high)
  {
    assert GUARD_LOW[k] == DONTCARE || GUARD_LOW[k] < 0x100;
    assert GUARD_HIGH[k] == DONTCARE || GUARD_HIGH[k] < 0x100;
  }

  /** No third frequency disturbs the tones i and j. */
  predicate Alone(l: levels, i: nat, j: nat)
    requires i < FREQUENCIES && j < FREQUENCIES
  {
    forall k :: 0 <= k < FREQUENCIES && k != i && k != j ==> !Disturbs(l, k, l[i], l[j])
  }

  /** A row tone and a column tone that make the digit d, with nothing beside them. */
  predicate Makes(l: levels, i: nat, j: nat, d: byte) {
    Tones(l, i, j) && d == i + 4 * (j - 4) && Alone(l, i, j)
  }

  /** A frame is a digit exactly when it has two tones that make the digit and no other frequency
      disturbs them. */
  lemma DigitMeaning(l: levels, d: byte)
    requires d != NO_DIGIT
    ensures ResultDigit(l) == d <==> exists i: nat, j: nat :: Makes(l, i, j, d)
  {
    hide TooStrong, LikelyDigit, PeakLevel, Strongest, Alone, LowPeak, HighPeak, CountStrong;
    LikelyMeaning(l);
    if LikelyDigit(l) != NO_DIGIT {
      var i: nat, j: nat :| Tones(l, i, j);
      AloneMeansTwo(l, i, j);
      if ResultDigit(l) == d {
        assert Makes(l, i, j, d);
      }
    }
    if i: nat, j: nat :| Makes(l, i, j, d) {
      AloneMeansTwo(l, i, j);
    }
  }

  lemma AloneMeansTwo(l: levels, i: nat, j: nat)
    requires Tones(l, i, j)
    ensures Alone(l, i, j) <==> CountStrong(l, FREQUENCIES, l[i], l[j]) == 2
  {
    forall k | 0 <= k < FREQUENCIES ensures TooStrong(l, k, l[i], l[j]) <==> Disturbs(l, k, l[i], l[j]) {
      TooStrongMeaning(l, k, l[i], l[j]);
    }
    hide TooStrong;
    assert Disturbs(l, i, l[i], l[j]) && Disturbs(l, j, l[i], l[j]);
    CountsExactly(l, FREQUENCIES, l[i], l[j], i, j);
    hide Disturbs;
  }

  /** b | n for the two halves of a digit: either may be NO_DIGIT. */
  function Combine(low: byte, high: byte): byte
    requires low < 4 || low == NO_DIGIT
    requires high == NO_DIGIT || (high < 16 && high % 4 == 0)
  {
    if low == NO_DIGIT || high == NO_DIGIT then NO_DIGIT else low + high
  }

  /** The decision of capidtmf_recv_block over goertzel_result_buffer. */
  method Decide(l: levels) returns (result: byte, likely: byte)
    ensures result == ResultDigit(l) && likely == LikelyDigit(l)
  {
    var low_peak: byte, low := SENSITIVITY, NO_DIGIT;
    for i := 0 to LOW_GROUP
      invariant low_peak == PeakLevel(l, 0, i, SENSITIVITY)
      invariant low == match PeakIndex(l, 0, i, SENSITIVITY) case None => NO_DIGIT case Some(k) => k
    {
      if l[i] > low_peak {
        low_peak, low := l[i], i;
      }
    }
    var high_peak: byte, high := SENSITIVITY, NO_DIGIT;
    for i := LOW_GROUP to BASE_FREQUENCIES
      invariant high_peak == PeakLevel(l, LOW_GROUP, i, SENSITIVITY)
      invariant high == match PeakIndex(l, LOW_GROUP, i, SENSITIVITY) case None => NO_DIGIT case Some(k) => (k - LOW_GROUP) * 4
    {
      if l[i] > high_peak {
        high_peak, high := l[i], (i - LOW_GROUP) * 4;
      }
    }
    PeakMeaning(l, 0, LOW_GROUP, SENSITIVITY);
    PeakMeaning(l, LOW_GROUP, BASE_FREQUENCIES, SENSITIVITY);
    result := Combine(low, high);
    if low_peak as int + TWIST < high_peak {
      result := NO_DIGIT;
    }
    if high_peak as int + TWIST < low_peak {
      result := NO_DIGIT;
    }
    likely := result;
    var n := 0;
    for i := 0 to FREQUENCIES
      invariant n == CountStrong(l, i, low_peak, high_peak)
    {
      if TooStrong(l, i, low_peak, high_peak) {
        n := n + 1;
      }
    }
    if n != 2 {
      result := NO_DIGIT;
    }
  }
}
