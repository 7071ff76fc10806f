/** The end of a frame in kernel/capidtmf.c: the 64-bit power of each resonator, its
    logarithmic level, and the digit the sixteen levels stand for. */
module DtmfPower {
  import opened Machine
  import opened DtmfGoertzel

  // ---------------------------------------------- capidtmf_goertzel_result

  /** A 64-bit value in three signed parts, as lo, mid and hi of the C code. */
  datatype Limbs = Limbs(lo: int, mid: int, hi: int32) {
    function Value(): int {
      lo + 0x1_0000 * mid + 0x1_0000_0000 * hi
    }

    function Negate(): Limbs {
      Limbs(-lo, -mid, ToInt32(-(hi as int)))
    }

    function Plus(l: Limbs): Limbs {
      Limbs(lo + l.lo, mid + l.mid, ToInt32(hi + l.hi))
    }

    /** Carries of lo into mid and of mid into hi, then the words stored in the buffer. */
    function LowWord(): int32 {
      ToInt32(lo % 0x1_0000 + (mid + lo / 0x1_0000) * 0x1_0000)
    }

    function HighWord(): int32 {
      ToInt32(hi + (mid + lo / 0x1_0000) / 0x1_0000)
    }
  }

  function MulLimbs(x: int32, y: int32): Limbs
    requires x >= 0 && y >= 0
  {
    var k1 := ToDword((x % 0x1_0000) * (y % 0x1_0000));
    var k2 := ToDword((x / 0x1_0000) * (y % 0x1_0000));
    var k3 := ToDword((x % 0x1_0000) * (y / 0x1_0000));
    Limbs(k1 % 0x1_0000, k1 / 0x1_0000 + k2 % 0x1_0000 + k3 % 0x1_0000,
          ToInt32(k2 / 0x1_0000 + k3 / 0x1_0000 + ToDword((x / 0x1_0000) * (y / 0x1_0000))))
  }

  function SquareLimbs(x: int32): Limbs
    requires x >= 0
  {
    var k1 := ToDword((x % 0x1_0000) * (x % 0x1_0000));
    var k2 := ToDword((x / 0x1_0000) * (x % 0x1_0000));
    Limbs(k1 % 0x1_0000, k1 / 0x1_0000 + k2 % 0x1_0000 * 2,
          ToInt32(k2 / 0x1_0000 * 2 + ToDword((x / 0x1_0000) * (x / 0x1_0000))))
  }

  function Abs(x: int): nat {
    if x >= 0 then x else -x
  }

  /** d of capidtmf_goertzel_result: the split product of the coefficient and -q1. */
  function Reflected(c: int, q1: int32): int32 {
    ToInt32(SplitProduct(Abs(c / 2), ToInt32(-(q1 as int))))
  }

  function SumOf(p: Limbs, s: Limbs, t: Limbs, positive: bool): Limbs {
    (if positive then p else p.Negate()).Plus(s).Plus(t)
  }

  function PowerLimbs(c: int, q1: int32, q2: int32): Limbs {
    var d := Reflected(c, q1);
    var p := MulLimbs(Max(ToInt32(Abs(d)), 0), Max(ToInt32(Abs(q2)), 0));
    SumOf(p, SquareLimbs(Max(ToInt32(Abs(q1)), 0)), SquareLimbs(Max(ToInt32(Abs(q2)), 0)), (d >= 0) == (q2 >= 0))
  }

  lemma MulLimbsExact(x: int32, y: int32)
    requires 0 <= x && 0 <= y < 0x4000_0000
    ensures var l := MulLimbs(x, y);
            && l.Value() == x * y
            && 0 <= l.lo < 0x1_0000 && 0 <= l.mid < 0x3_0000 && 0 <= l.hi < 0x2001_0000
  {
    var xl, xh, yl, yh := x % 0x1_0000, x / 0x1_0000, y % 0x1_0000, y / 0x1_0000;
    ProductBound(xl, yl, 0x1_0000, 0x1_0000);
    ProductBound(xh, yl, 0x8000, 0x1_0000);
    ProductBound(xl, yh, 0x1_0000, 0x4000);
    ProductBound(xh, yh, 0x8000, 0x4000);
    assert x * y == 0x1_0000_0000 * (xh * yh) + 0x1_0000 * (xh * yl + xl * yh) + xl * yl by {
      SplitExpand(xh, xl, yh, yl);
    }
  }

  lemma SplitExpand(xh: int, xl: int, yh: int, yl: int)
    ensures (0x1_0000 * xh + xl) * (0x1_0000 * yh + yl)
            == 0x1_0000_0000 * (xh * yh) + 0x1_0000 * (xh * yl + xl * yh) + xl * yl
  {
  }

  lemma SquareLimbsExact(x: int32)
    requires 0 <= x < 0x4000_0000
    ensures var l := SquareLimbs(x);
            && l.Value() == x * x
            && 0 <= l.lo < 0x1_0000 && 0 <= l.mid < 0x3_0000 && 0 <= l.hi < 0x1001_0000
  {
    var xl, xh := x % 0x1_0000, x / 0x1_0000;
    ProductBound(xl, xl, 0x1_0000, 0x1_0000);
    ProductBound(xh, xl, 0x4000, 0x1_0000);
    ProductBound(xh, xh, 0x4000, 0x4000);
    SplitExpand(xh, xl, xh, xl);
  }

  /** In the stated range no step overflows, and the two words hold exactly
      d * q2 + q1^2 + q2^2 with d = floor(-c * q1 / 2^16). */
  lemma PowerExact(c: int, q1: int32, q2: int32)
    requires 0 <= c < 0x2_0000 && c % 2 == 0
    requires -0x4000_0000 < q1 < 0x4000_0000 && -0x4000_0000 < q2 < 0x4000_0000
    ensures var l := PowerLimbs(c, q1, q2);
            l.HighWord() * 0x1_0000_0000 + ToDword(l.LowWord())
            == (-c * q1 / 0x1_0000) * q2 + q1 * q1 + q2 * q2
  {
    PowerLimbsExact(c, q1, q2);
    hide PowerLimbs;
    WordsExact(PowerLimbs(c, q1, q2));
  }

  lemma PowerLimbsExact(c: int, q1: int32, q2: int32)
    requires 0 <= c < 0x2_0000 && c % 2 == 0
    requires -0x4000_0000 < q1 < 0x4000_0000 && -0x4000_0000 < q2 < 0x4000_0000
    ensures var l := PowerLimbs(c, q1, q2);
            && l.Value() == (-c * q1 / 0x1_0000) * q2 + q1 * q1 + q2 * q2
            && -0x10_0000 < l.lo < 0x10_0000 && -0x10_0000 < l.mid < 0x10_0000
            && -0x7000_0000 < l.hi < 0x7000_0000
  {
    ReflectedExact(c, q1);
    PowerLimbsParts(c, q1, q2);
    var d: int, x: int, y: int := Reflected(c, q1), Abs(q1), Abs(q2);
    MulLimbsExact(Abs(d), y);
    SquareLimbsExact(x);
    SquareLimbsExact(y);
    SignedProduct(d, q2);
    AbsSquare(q1);
    AbsSquare(q2);
    var p, s, t := MulLimbs(Abs(d), y), SquareLimbs(x), SquareLimbs(y);
    hide MulLimbs, SquareLimbs, Reflected, SumOf, PowerLimbs, Limbs.Value;
    SumLimbs(p, s, t, (d >= 0) == (q2 >= 0));
  }

  lemma PowerLimbsParts(c: int, q1: int32, q2: int32)
    requires -0x4000_0000 < q1 < 0x4000_0000 && -0x4000_0000 < q2 < 0x4000_0000
    requires Abs(Reflected(c, q1)) < 0x8000_0000
    ensures PowerLimbs(c, q1, q2) == SumOf(MulLimbs(Abs(Reflected(c, q1)), Abs(q2)), SquareLimbs(Abs(q1)),
                                           SquareLimbs(Abs(q2)), (Reflected(c, q1) >= 0) == (q2 >= 0))
  {
    hide MulLimbs, SquareLimbs, Reflected, SumOf;
  }

  lemma SumLimbs(p: Limbs, s: Limbs, t: Limbs, positive: bool)
    requires 0 <= p.hi < 0x2001_0000 && 0 <= s.hi < 0x1001_0000 && 0 <= t.hi < 0x1001_0000
    requires 0 <= p.lo < 0x1_0000 && 0 <= s.lo < 0x1_0000 && 0 <= t.lo < 0x1_0000
    requires 0 <= p.mid < 0x3_0000 && 0 <= s.mid < 0x3_0000 && 0 <= t.mid < 0x3_0000
    ensures var l := SumOf(p, s, t, positive);
            && l.Value() == (if positive then p.Value() else -p.Value()) + s.Value() + t.Value()
            && -0x10_0000 < l.lo < 0x10_0000 && -0x10_0000 < l.mid < 0x10_0000
            && -0x7000_0000 < l.hi < 0x7000_0000
  {
  }

  lemma ReflectedExact(c: int, q1: int32)
    requires 0 <= c < 0x2_0000 && c % 2 == 0
    requires -0x4000_0000 < q1 < 0x4000_0000
    ensures Reflected(c, q1) == -c * q1 / 0x1_0000
    ensures Abs(Reflected(c, q1)) < 0x8000_0000
    ensures Abs(Reflected(c, q1)) <= 2 * Abs(q1)
  {
    SplitProductIsFloor(c / 2, -q1);
    assert 2 * (c / 2) * -q1 == -c * q1;
    ReflectedBound(c, -q1);
  }

  lemma ReflectedBound(c: int, q: int)
    requires 0 <= c < 0x2_0000
    ensures Abs(c * q / 0x1_0000) <= 2 * Abs(q)
  {
    if q >= 0 {
      assert 0 <= c * q <= 0x2_0000 * q;
    } else {
      assert 0x2_0000 * q <= c * q <= 0;
    }
  }

  lemma SignedProduct(d: int, q: int)
    ensures d * q == if (d >= 0) == (q >= 0) then Abs(d) * Abs(q) else -(Abs(d) * Abs(q))
  {
  }

  lemma AbsSquare(q: int)
    ensures Abs(q) * Abs(q) == q * q
  {
  }

  lemma WordsExact(l: Limbs)
    requires -0x10_0000 < l.lo < 0x10_0000 && -0x10_0000 < l.mid < 0x10_0000
    requires -0x7000_0000 < l.hi < 0x7000_0000
    ensures l.HighWord() * 0x1_0000_0000 + ToDword(l.LowWord()) == l.Value()
  {
    var mid := l.mid + l.lo / 0x1_0000;
    LowWordExact(l.lo % 0x1_0000, mid);
    assert l.HighWord() == l.hi + mid / 0x1_0000;
  }

  lemma LowWordExact(lo: int, mid: int)
    requires 0 <= lo < 0x1_0000
    ensures ToDword(ToInt32(lo + mid * 0x1_0000)) == lo + mid % 0x1_0000 * 0x1_0000
  {
    assert lo + mid * 0x1_0000 == (lo + mid % 0x1_0000 * 0x1_0000) + 0x1_0000_0000 * (mid / 0x1_0000);
    ModShift(lo + mid % 0x1_0000 * 0x1_0000, mid / 0x1_0000);
  }

  lemma ModShift(a: int, k: int)
    requires 0 <= a < 0x1_0000_0000
    ensures ToDword(ToInt32(a + 0x1_0000_0000 * k)) == a
  {
    var r := if a < 0x8000_0000 then a else a - 0x1_0000_0000;
    var m := if a < 0x8000_0000 then k else k + 1;
    Quotient(a + 0x1_0000_0000 * k + 0x8000_0000, m, r + 0x8000_0000);
  }

  lemma Quotient(x: int, m: int, r: int)
    requires x == 0x1_0000_0000 * m + r && 0 <= r < 0x1_0000_0000
    ensures x % 0x1_0000_0000 == r
  {
  }

  /** The power is never negative, so reading its high word as unsigned is right, and it is
      below 2^63, so the normalising shift of the level is by 1 to 31 bits when the high word is not
      zero; otherwise it is by 0 to 32, and by 32 for no power at all. */
  lemma PowerRange(c: int, q1: int32, q2: int32)
    requires 0 <= c < 0x2_0000 && c % 2 == 0
    requires -0x4000_0000 < q1 < 0x4000_0000 && -0x4000_0000 < q2 < 0x4000_0000
    ensures 0 <= (-c * q1 / 0x1_0000) * q2 + q1 * q1 + q2 * q2 < 0x8000_0000 * 0x1_0000_0000
  {
    ReflectedExact(c, q1);
    var d: int := Reflected(c, q1);
    hide Reflected;
    PowerBound(d, q2, q1);
  }

  lemma PowerBound(d: int, q: int, r: int)
    requires Abs(d) <= 2 * Abs(r)
    requires -0x4000_0000 < q < 0x4000_0000 && -0x4000_0000 < r < 0x4000_0000
    ensures 0 <= d * q + r * r + q * q < 0x8000_0000 * 0x1_0000_0000
  {
    var x, y := Abs(r), Abs(q);
    SignedProduct(d, q);
    AbsSquare(r);
    AbsSquare(q);
    MonotoneProduct(Abs(d), 2 * x, y);
    SquareDiff(x, y);
    ProductBound(x, x, 0x4000_0000, 0x4000_0000);
    ProductBound(y, y, 0x4000_0000, 0x4000_0000);
    SumBound(d * q, Abs(d) * y, x * y, x * x, y * y);
  }

  lemma SumBound(p: int, dy: int, xy: int, xx: int, yy: int)
    requires -dy <= p <= dy <= 2 * xy <= xx + yy
    requires 0 <= xx < 0x1000_0000_0000_0000 && 0 <= yy < 0x1000_0000_0000_0000
    ensures 0 <= p + xx + yy < 0x8000_0000 * 0x1_0000_0000
  {
  }

  lemma MonotoneProduct(a: nat, b: nat, y: nat)
    requires a <= b
    ensures 0 <= a * y <= b * y
  {
  }

  lemma SquareDiff(x: int, y: int)
    ensures 2 * x * y == 2 * (x * y) <= x * x + y * y
  {
    Distribute(x, x, y);
    Distribute(y, x, y);
    SquareNotNegative(x - y);
    assert (x - y) * (x - y) == x * (x - y) - y * (x - y) by {
      Distribute(x - y, x, y);
    }
  }

  lemma Distribute(a: int, x: int, y: int)
    ensures a * (x - y) == a * x - a * y == (x - y) * a
  {
  }

  lemma SquareNotNegative(d: int)
    ensures d * d >= 0
  {
  }
}
