/** The levels of capidtmf_recv_block (kernel/capidtmf.c): what the normalising shifts make of a
    64-bit power. */
module DtmfLevel {
  import opened Machine
  import opened DtmfDigit

  const WORDS := 0x1_0000_0000

  /** The 32 bits from the highest set bit of a power on. */
  function TopBits(v: nat): nat {
    if BitLength(v) > 32 then v / Pow2(BitLength(v) - 32) else v * Pow2(32 - BitLength(v))
  }

  /** Whether the top bits are at least two thirds, one third or none of an octave up. */
  function Third(m: nat): (s: nat)
    ensures s <= 2
  {
    if m >= 0xcb30_0000 then 2 else if m >= 0xa145_0000 then 1 else 0
  }

  lemma PowStep(n: nat)
    ensures Pow2(n + 1) == 2 * Pow2(n)
  {
  }

  lemma {:induction false} PowPlus(m: nat, n: nat)
    ensures Pow2(m + n) == Pow2(m) * Pow2(n)
  {
    if n > 0 {
      PowPlus(m, n - 1);
      assert Pow2(m) * (2 * Pow2(n - 1)) == 2 * (Pow2(m) * Pow2(n - 1));
    }
  }

  lemma Pow32()
    ensures Pow2(32) == WORDS
  {
    assert Pow2(8) == 0x100;
    PowPlus(8, 8);
    PowPlus(16, 16);
  }

  /** The number of bits, with bounds. */
  lemma {:induction false} Bits(v: nat)
    ensures v < Pow2(BitLength(v))
    ensures v > 0 ==> BitLength(v) > 0 && Pow2(BitLength(v) - 1) <= v
  {
    if v > 0 {
      Bits(v / 2);
    }
  }

  lemma {:induction false} BitsGrow(v: nat, w: nat)
    requires v <= w
    ensures BitLength(v) <= BitLength(w)
  {
    if v > 0 {
      BitsGrow(v / 2, w / 2);
    }
  }

  lemma {:induction false} BitsOfTwoWords(hi: nat, r: nat, k: nat)
    requires hi > 0 && r < Pow2(k)
    ensures BitLength(hi * Pow2(k) + r) == k + BitLength(hi)
  {
    if k > 0 {
      var p := Pow2(k - 1);
      BitsOfTwoWords(hi, r / 2, k - 1);
      HalfOf(hi, r, p);
      hide Pow2;
      assert hi * Pow2(k) + r > 0;
    }
  }

  lemma HalfOf(hi: nat, r: nat, p: nat)
    ensures hi * (2 * p) == 2 * (hi * p) && (hi * (2 * p) + r) / 2 == hi * p + r / 2
  {
  }

  lemma {:induction false} BitsOfDword(d: dword)
    ensures BitLength(d) <= 32
  {
    Bits(d);
    Pow32();
    if BitLength(d) > 32 {
      PowGrows(32, BitLength(d) - 1);
    }
  }

  lemma {:induction false} PowGrows(m: nat, n: nat)
    requires m <= n
    ensures Pow2(m) <= Pow2(n)
  {
    if m < n {
      PowGrows(m, n - 1);
    }
  }

  lemma Divided(hi: nat, lo: nat, p: nat, q: nat)
    requires p > 0 && p * q == WORDS
    ensures (hi * WORDS + lo) / p == hi * q + lo / p
  {
    assert hi * (p * q) == (hi * q) * p;
    assert hi * WORDS + lo == (hi * q + lo / p) * p + lo % p;
    Quotient((hi * WORDS + lo), hi * q + lo / p, p, lo % p);
  }

  /** The top bits fit 32 bits. */
  lemma TopFits(v: nat)
    ensures TopBits(v) < WORDS
  {
    hide BitLength, Pow2;
    Bits(v);
    Pow32();
    var n := BitLength(v);
    if n > 32 {
      PowPlus(n - 32, 32);
      LessQuotient(v, Pow2(n - 32), WORDS);
    } else {
      PowPlus(n, 32 - n);
      ProductGrows(v + 1, Pow2(n), Pow2(32 - n));
    }
  }

  lemma LessQuotient(v: nat, p: nat, q: nat)
    requires p > 0 && v < p * q
    ensures v / p < q
  {
    assert (v / p) * p <= v < q * p;
  }

  /** The level of a power is three times its number of bits, and the third of the octave its top
      bits are in: no byte of it is lost, for every power the result loop can give. */
  lemma LevelIs(hi: dword, lo: dword)
    requires hi < 0x8000_0000
    ensures var v := hi * WORDS + lo;
            LevelOf(hi, lo) == 3 * BitLength(v) + 3 + Third(TopBits(v))
  {
    if hi != 0 {
      HighLevel(hi, lo);
    } else {
      LowLevel(lo);
    }
  }

  lemma LowLevel(lo: dword)
    ensures LevelOf(0, lo) == 3 * BitLength(lo) + 3 + Third(TopBits(lo))
  {
    hide BitLength, Pow2;
    BitsOfDword(lo);
    TopFits(lo);
  }

  lemma HighLevel(hi: dword, lo: dword)
    requires 0 < hi < 0x8000_0000
    ensures var v := hi * WORDS + lo;
            LevelOf(hi, lo) == 3 * BitLength(v) + 3 + Third(TopBits(v))
  {
    hide BitLength, Pow2, TopBits;
    SmallBits(hi);
    TopOfTwoWords(hi, lo);
    TopFits(hi * WORDS + lo);
  }

  lemma TopOfTwoWords(hi: dword, lo: dword)
    requires hi > 0 && 0 < BitLength(hi) <= 31
    ensures var v, j := hi * WORDS + lo, BitLength(hi);
            BitLength(v) == 32 + j && TopBits(v) == hi * Pow2(32 - j) + lo / Pow2(j)
  {
    hide BitLength, Pow2;
    var j := BitLength(hi);
    Pow32();
    BitsOfTwoWords(hi, lo, 32);
    PowPlus(j, 32 - j);
    Divided(hi, lo, Pow2(j), Pow2(32 - j));
  }

  lemma SmallBits(hi: dword)
    requires 0 < hi < 0x8000_0000
    ensures 0 < BitLength(hi) <= 31
  {
    Bits(hi);
    PowStep(31);
    Pow32();
    if BitLength(hi) > 31 {
      PowGrows(31, BitLength(hi) - 1);
    }
  }

  /** A stronger tone never has a lower level. */
  lemma LevelsAreMonotone(hi: dword, lo: dword, hi': dword, lo': dword)
    requires hi < 0x8000_0000 && hi' < 0x8000_0000 && hi * WORDS + lo <= hi' * WORDS + lo'
    ensures LevelOf(hi, lo) <= LevelOf(hi', lo')
  {
    hide LevelOf, BitLength, Pow2, TopBits;
    var v, w := hi * WORDS + lo, hi' * WORDS + lo';
    LevelIs(hi, lo);
    LevelIs(hi', lo');
    BitsGrow(v, w);
    if BitLength(v) == BitLength(w) {
      TopGrows(v, w);
    }
  }

  lemma TopGrows(v: nat, w: nat)
    requires v <= w && BitLength(v) == BitLength(w)
    ensures TopBits(v) <= TopBits(w)
  {
    hide BitLength, Pow2;
    if BitLength(v) > 32 {
      QuotientGrows(v, w, Pow2(BitLength(v) - 32));
    } else {
      ProductGrows(v, w, Pow2(32 - BitLength(v)));
    }
  }

  lemma QuotientGrows(v: nat, w: nat, p: nat)
    requires p > 0 && v <= w
    ensures v / p <= w / p
  {
    assert w < p * (w / p + 1);
    LessQuotient(v, p, w / p + 1);
  }
}
