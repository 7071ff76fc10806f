/** The fixed-point Goertzel filter bank of kernel/capidtmf.c: one resonator per frequency,
    16x32-bit products split at bit 16, and the 64-bit power built from 16-bit limbs. */
module DtmfGoertzel {
  import opened Machine

  const FREQUENCIES := 16
  const FUNDAMENTAL := 15
  const FUNDAMENTAL_OFFSET := 0xff35 * 2
  const FUNDAMENTAL_DECREMENT := 0x0028 * 2

  /** capidtmf_recv_goertzel_coef_table without its last entry, the moving fundamental. */
  const COEFFICIENTS: seq<int> := [
    0xda97 * 2, 0xd299 * 2, 0xc8cb * 2, 0xbd36 * 2, 0x9501 * 2, 0x7f89 * 2, 0x6639 * 2, 0x48c6 * 2,
    0xe14c * 2, 0xb2e0 * 2, 0xa1a0 * 2, 0x8a87 * 2, 0x7353 * 2, 0x583b * 2, 0x37d8 * 2]

  // ------------------------------------------------------- the split product

  /** (c * (q1 >> 16)) + (((dword) d * (dword)(q1 & 0xffff)) >> 15) with c = d << 1. */
  function SplitProduct(d: int, q1: int32): int {
    2 * d * (q1 / 0x1_0000) + ToDword(d * (q1 % 0x1_0000)) / 0x8000
  }

  /** The partial product fits a dword, and the split computes floor(c * q1 / 2^16) exactly. */
  lemma SplitProductIsFloor(d: int, q1: int32)
    requires 0 <= d < 0x1_0000
    ensures 0 <= d * (q1 % 0x1_0000) < 0x1_0000_0000
    ensures SplitProduct(d, q1) == 2 * d * q1 / 0x1_0000
  {
    var hi, lo := q1 / 0x1_0000, q1 % 0x1_0000;
    ProductBound(d, lo, 0x1_0000, 0x1_0000);
    FloorOfSplit(2 * d * hi, d * lo);
    assert 2 * d * q1 == 0x1_0000 * (2 * d * hi) + 2 * (d * lo) by {
      assert q1 == 0x1_0000 * hi + lo;
      assert 2 * d * q1 == 2 * d * (0x1_0000 * hi) + 2 * d * lo;
    }
  }

  lemma ProductBound(x: int, y: int, m: int, n: int)
    requires 0 <= x < m && 0 <= y < n
    ensures 0 <= x * y <= (m - 1) * (n - 1) < m * n
  {
    assert x * y <= (m - 1) * y <= (m - 1) * (n - 1);
  }

  lemma FloorOfSplit(a: int, b: int)
    ensures (0x1_0000 * a + 2 * b) / 0x1_0000 == a + b / 0x8000
  {
  }

  // --------------------------------------------------------- the resonators

  datatype Resonator = Resonator(q1: int32, q2: int32)

  /** One iteration of the sample loop with coefficient c. */
  function Step(r: Resonator, c: int, sample: int16): Resonator {
    var d := c / 2;
    var p := if d >= 0 then SplitProduct(d, r.q1) else -SplitProduct(-d, r.q1);
    Resonator(ToInt32(sample - r.q2 + p), r.q1)
  }

  /** In the range of the table an iteration is the recurrence
      q0 = sample - q2 + floor(c * q1 / 2^16), modulo 2^32. */
  lemma StepIsRecurrence(r: Resonator, c: int, sample: int16)
    requires 0 <= c < 0x2_0000 && c % 2 == 0
    ensures Step(r, c, sample) == Resonator(ToInt32(sample - r.q2 + c * r.q1 / 0x1_0000), r.q1)
  {
    SplitProductIsFloor(c / 2, r.q1);
    assert 2 * (c / 2) == c;
  }

  /** The filter bank after a number of samples; `fund` is the moving coefficient. */
  datatype Bank = Bank(r: seq<Resonator>, fund: int) {
    ghost predicate Valid() {
      |r| == FREQUENCIES
    }
  }

  function Coefficient(bank: Bank, i: nat): int
    requires i < FREQUENCIES
  {
    if i < FUNDAMENTAL then COEFFICIENTS[i] else bank.fund
  }

  function BankStep(bank: Bank, sample: int16): (b: Bank)
    requires bank.Valid()
    ensures b.Valid()
  {
    Bank(seq(FREQUENCIES, i requires 0 <= i < FREQUENCIES => Step(bank.r[i], Coefficient(bank, i), sample)),
         bank.fund - FUNDAMENTAL_DECREMENT)
  }

  /** The bank after the samples, all resonators advancing together sample by sample. */
  function BankFold(bank: Bank, samples: seq<int16>): (b: Bank)
    requires bank.Valid()
    ensures b.Valid()
    ensures b.fund == bank.fund - FUNDAMENTAL_DECREMENT * |samples|
  {
    if samples == [] then bank
    else BankStep(BankFold(bank, samples[..|samples| - 1]), samples[|samples| - 1])
  }

  /** The bank at the start of a frame. */
  function ZeroBank(): (b: Bank)
    ensures b.Valid() && b.fund == FUNDAMENTAL_OFFSET
  {
    Bank(seq(FREQUENCIES, _ => Resonator(0, 0)), FUNDAMENTAL_OFFSET)
  }

  lemma {:induction false} BankFoldAppend(bank: Bank, s: seq<int16>, t: seq<int16>)
    requires bank.Valid()
    ensures BankFold(bank, s + t) == BankFold(BankFold(bank, s), t)
    decreases |t|
  {
    if t == [] {
      assert s + t == s;
    } else {
      var u := t[..|t| - 1];
      BankFoldAppend(bank, s, u);
      assert (s + t)[..|s + t| - 1] == s + u;
    }
  }

  /** Over a frame of at most 205 samples from the zero bank the moving coefficient stays
      positive, even and below 2^17, so the sign test of the loop has one outcome. */
  lemma FundamentalInRange(samples: seq<int16>)
    requires |samples| <= 205
    ensures var c := BankFold(ZeroBank(), samples).fund; 0 < c < 0x2_0000 && c % 2 == 0
  {
    hide BankFold;
  }

  /** One resonator alone, its coefficient falling by `dec` a sample. */
  function Fold(r: Resonator, c: int, dec: int, samples: seq<int16>): Resonator {
    if samples == [] then r
    else
      var n := |samples| - 1;
      Step(Fold(r, c, dec, samples[..n]), c - dec * n, samples[n])
  }

  function Decrement(i: nat): int {
    if i < FUNDAMENTAL then 0 else FUNDAMENTAL_DECREMENT
  }

  /** How far the coefficient of frequency i falls over n samples. */
  function Spent(i: nat, n: nat): nat {
    if i < FUNDAMENTAL then 0 else FUNDAMENTAL_DECREMENT * n
  }

  /** Running the resonators one after the other gives what running them together gives. */
  lemma {:induction false} LoopInterchange(bank: Bank, samples: seq<int16>, i: nat)
    requires bank.Valid() && i < FREQUENCIES
    ensures BankFold(bank, samples).r[i] == Fold(bank.r[i], Coefficient(bank, i), Decrement(i), samples)
  {
    if samples != [] {
      var n := |samples| - 1;
      LoopInterchange(bank, samples[..n], i);
    }
  }

  // ------------------------------------------------- capidtmf_goertzel_loop

  /** The bank stored in goertzel_buffer[2][16], row 0 holding q1 and row 1 holding q2. */
  ghost function StoredBank(buffer: seq<int32>, fund: int): (b: Bank)
    requires |buffer| == 2 * FREQUENCIES
    ensures b.Valid()
  {
    Bank(seq(FREQUENCIES, i requires 0 <= i < FREQUENCIES => Resonator(buffer[i], buffer[i + FREQUENCIES])), fund)
  }

  ghost predicate TableLoaded(coeffs: seq<int>) {
    |coeffs| == FREQUENCIES && coeffs[..FUNDAMENTAL] == COEFFICIENTS
  }

  /** The sample loop of one frequency.  The coefficient is constant but for the fundamental,
      whose range keeps the sign it is tested for once. */
  method RunResonator(r0: Resonator, c0: int, dec: int, s: seq<int16>) returns (r: Resonator, c: int)
    requires c0 % 2 == 0 && (dec == 0 || 0 <= dec * |s| <= c0)
    ensures c == c0 - dec * |s|
    ensures r == Fold(r0, c0, dec, s)
  {
    hide Fold, SplitProduct, ToInt32;
    var q1: int32, q2: int32 := r0.q1, r0.q2;
    EmptyFold(r0, c0, dec, s);
    c := c0;
    var j := 0;
    if c0 >= 0 {
      while j < |s|
        invariant 0 <= j <= |s| && c == c0 - dec * j
        invariant Resonator(q1, q2) == Fold(r0, c0, dec, s[..j])
      {
        FoldMore(r0, c0, dec, s, j);
        DecrementBound(c0, dec, j, |s|);
        assert dec * (j + 1) == dec * j + dec;
        q1, q2 := ToInt32(s[j] - q2 + SplitProduct(c / 2, q1)), q1;
        c := c - dec;
        j := j + 1;
      }
    } else {
      while j < |s|
        invariant 0 <= j <= |s| && c == c0
        invariant Resonator(q1, q2) == Fold(r0, c0, dec, s[..j])
      {
        FoldMore(r0, c0, dec, s, j);
        q1, q2 := ToInt32(s[j] - q2 - SplitProduct(-(c / 2), q1)), q1;
        j := j + 1;
      }
    }
    r := Resonator(q1, q2);
    assert s[..|s|] == s;
  }

  lemma EmptyFold(r: Resonator, c: int, dec: int, s: seq<int16>)
    ensures Fold(r, c, dec, s[..0]) == r
  {
  }

  lemma FoldMore(r: Resonator, c: int, dec: int, s: seq<int16>, j: nat)
    requires j < |s|
    ensures Fold(r, c, dec, s[..j + 1]) == Step(Fold(r, c, dec, s[..j]), c - dec * j, s[j])
  {
    assert s[..j + 1][..j] == s[..j];
  }

  lemma DecrementBound(c: int, dec: int, j: nat, count: nat)
    requires j < count && (dec == 0 || 0 <= dec * count <= c) && c >= 0
    ensures c - dec * j >= 0
  {
    if dec > 0 {
      assert dec * j <= dec * count;
    }
  }

  /** The arrays of the loop: the buffer and, apart from it, the loaded table. */
  ghost predicate LoopArrays(buffer: array<int32>, coeffs: array<int>)
    reads coeffs
  {
    buffer.Length == 2 * FREQUENCIES && TableLoaded(coeffs[..]) && buffer as object != coeffs
  }

  method GoertzelLoop(buffer: array<int32>, coeffs: array<int>, s: seq<int16>)
    requires LoopArrays(buffer, coeffs)
    requires coeffs[FUNDAMENTAL] % 2 == 0 && FUNDAMENTAL_DECREMENT * |s| <= coeffs[FUNDAMENTAL]
    modifies buffer, coeffs
    ensures LoopArrays(buffer, coeffs)
    ensures StoredBank(buffer[..], coeffs[FUNDAMENTAL])
            == BankFold(old(StoredBank(buffer[..], coeffs[FUNDAMENTAL])), s)
  {
    hide Progress, StoredBank, BankFold, Mix;
    ghost var bank := StoredBank(buffer[..], coeffs[FUNDAMENTAL]);
    LoopStarts(buffer, coeffs, s);
    var i := 0;
    while i < FREQUENCIES
      invariant 0 <= i <= FREQUENCIES && LoopArrays(buffer, coeffs) && Progress(buffer, coeffs, bank, s, i)
    {
      Advance(buffer, coeffs, s, i, bank);
      i := i + 1;
    }
    LoopEnds(buffer, coeffs, s, bank);
  }

  lemma LoopStarts(buffer: array<int32>, coeffs: array<int>, s: seq<int16>)
    requires LoopArrays(buffer, coeffs)
    requires coeffs[FUNDAMENTAL] % 2 == 0 && FUNDAMENTAL_DECREMENT * |s| <= coeffs[FUNDAMENTAL]
    ensures var bank := StoredBank(buffer[..], coeffs[FUNDAMENTAL]);
            bank.Valid() && bank.fund == coeffs[FUNDAMENTAL] && Progress(buffer, coeffs, bank, s, 0)
  {
    StoredFund(buffer[..], coeffs[FUNDAMENTAL]);
    var bank := StoredBank(buffer[..], coeffs[FUNDAMENTAL]);
    MixEnds(BankFold(bank, s).r, bank.r);
  }

  lemma LoopEnds(buffer: array<int32>, coeffs: array<int>, s: seq<int16>, bank: Bank)
    requires LoopArrays(buffer, coeffs) && bank.Valid()
    requires Progress(buffer, coeffs, bank, s, FREQUENCIES)
    ensures StoredBank(buffer[..], coeffs[FUNDAMENTAL]) == BankFold(bank, s)
  {
    MixEnds(BankFold(bank, s).r, bank.r);
    StoredFund(buffer[..], coeffs[FUNDAMENTAL]);
    hide TableLoaded;
  }

  /** The first i resonators have run over s from the given bank. */
  ghost predicate Progress(buffer: array<int32>, coeffs: array<int>, bank: Bank, s: seq<int16>, i: nat)
    requires bank.Valid() && i <= FREQUENCIES
    reads buffer, coeffs
  {
    && buffer.Length == 2 * FREQUENCIES && coeffs.Length == FREQUENCIES
    && coeffs[FUNDAMENTAL] == bank.fund - (if i < FREQUENCIES then 0 else FUNDAMENTAL_DECREMENT * |s|)
    && StoredBank(buffer[..], 0).r == Mix(BankFold(bank, s).r, bank.r, i)
  }

  method Advance(buffer: array<int32>, coeffs: array<int>, s: seq<int16>, i: nat, ghost bank: Bank)
    requires LoopArrays(buffer, coeffs) && i < FREQUENCIES && bank.Valid()
    requires bank.fund % 2 == 0 && FUNDAMENTAL_DECREMENT * |s| <= bank.fund
    requires Progress(buffer, coeffs, bank, s, i)
    modifies buffer, coeffs
    ensures LoopArrays(buffer, coeffs) && Progress(buffer, coeffs, bank, s, i + 1)
  {
    MixStep(BankFold(bank, s).r, bank.r, i);
    LoopInterchange(bank, s, i);
    CoefficientEven(coeffs[..], i);
    hide Fold, BankFold, BankStep, Mix, StoredBank, TableLoaded, COEFFICIENTS, Decrement;
    RunFrequency(buffer, coeffs, s, i);
  }

  /** One iteration of the frequency loop. */
  method RunFrequency(buffer: array<int32>, coeffs: array<int>, s: seq<int16>, i: nat)
    requires LoopArrays(buffer, coeffs) && i < FREQUENCIES
    requires coeffs[i] % 2 == 0 && 0 <= Spent(i, |s|) <= coeffs[i]
    modifies buffer, coeffs
    ensures LoopArrays(buffer, coeffs)
    ensures coeffs[FUNDAMENTAL] == old(coeffs[FUNDAMENTAL]) - Spent(i, |s|)
    ensures StoredBank(buffer[..], 0).r
            == old(StoredBank(buffer[..], 0)).r[i := Fold(old(StoredBank(buffer[..], 0)).r[i], old(coeffs[i]),
                                                          Decrement(i), s)]
  {
    hide Fold, StoredBank;
    ghost var b := buffer[..];
    StoredAt(b, i);
    var r, c := RunResonator(Resonator(buffer[i], buffer[i + FREQUENCIES]), coeffs[i], Decrement(i), s);
    buffer[i] := r.q1;
    buffer[i + FREQUENCIES] := r.q2;
    StoreResonator(b, i, r);
    if i == FUNDAMENTAL {
      coeffs[FUNDAMENTAL] := c;
    }
  }

  /** Progress of the frequency loop: the first i resonators have run. */
  ghost function Mix(out: seq<Resonator>, r: seq<Resonator>, i: nat): seq<Resonator>
    requires |out| == |r| && i <= |r|
  {
    out[..i] + r[i..]
  }

  lemma MixEnds(out: seq<Resonator>, r: seq<Resonator>)
    requires |out| == |r|
    ensures Mix(out, r, 0) == r && Mix(out, r, |r|) == out
  {
  }

  lemma MixStep(out: seq<Resonator>, r: seq<Resonator>, i: nat)
    requires |out| == |r| && i < |r|
    ensures |Mix(out, r, i)| == |r| && Mix(out, r, i)[i] == r[i]
    ensures Mix(out, r, i)[i := out[i]] == Mix(out, r, i + 1)
  {
  }

  lemma StoredAt(b: seq<int32>, i: nat)
    requires |b| == 2 * FREQUENCIES && i < FREQUENCIES
    ensures StoredBank(b, 0).r[i] == Resonator(b[i], b[i + FREQUENCIES])
  {
  }

  lemma StoredFund(b: seq<int32>, fund: int)
    requires |b| == 2 * FREQUENCIES
    ensures StoredBank(b, fund) == Bank(StoredBank(b, 0).r, fund)
  {
  }

  lemma StoreResonator(b: seq<int32>, i: nat, r: Resonator)
    requires |b| == 2 * FREQUENCIES && i < FREQUENCIES
    ensures StoredBank(b[i := r.q1][i + FREQUENCIES := r.q2], 0).r == StoredBank(b, 0).r[i := r]
  {
  }

  lemma CoefficientEven(coeffs: seq<int>, i: nat)
    requires TableLoaded(coeffs) && i < FREQUENCIES
    ensures |coeffs| == FREQUENCIES && |COEFFICIENTS| == FUNDAMENTAL
    ensures i < FUNDAMENTAL ==> coeffs[i] == COEFFICIENTS[i] && coeffs[i] % 2 == 0 && coeffs[i] > 0
  {
    if i < FUNDAMENTAL {
      assert coeffs[i] == coeffs[..FUNDAMENTAL][i];
    }
  }
}
