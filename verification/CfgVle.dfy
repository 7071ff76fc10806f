/** Variable-length numbers of kernel/diva_cfg_lib.c, the format of unsigned LEB128
    (section 7.6 of DWARF Version 4). */
module CfgVle {
  import opened Machine

  /** The canonical encoding: seven bits a byte, least significant first. */
  function Vle(v: nat): (b: seq<byte>)
    ensures |b| > 0
  {
    if v < 0x80 then [v] else [v % 0x80 + 0x80] + Vle(v / 0x80)
  }

  /** A dword takes at most five bytes. */
  lemma VleLength(v: dword)
    ensures |Vle(v)| <= 5
    ensures v < 0x80 ==> |Vle(v)| == 1
    ensures v < 0x4000 ==> |Vle(v)| <= 2
  {
    assert |Vle(v / 0x80 / 0x80 / 0x80 / 0x80)| == 1;
    assert |Vle(v / 0x80 / 0x80 / 0x80)| <= 2;
    assert |Vle(v / 0x80 / 0x80)| <= 3;
  }

  /** A number ends within n bytes from p. */
  predicate Ends(src: seq<byte>, p: nat, n: nat)
    decreases n
  {
    n > 0 && p < |src| && (src[p] < 0x80 || Ends(src, p + 1, n - 1))
  }

  /** Bytes the number at p takes. */
  function Used(src: seq<byte>, p: nat, n: nat): (u: nat)
    requires Ends(src, p, n)
    ensures 0 < u <= n && p + u <= |src|
    decreases n
  {
    if src[p] < 0x80 then 1 else 1 + Used(src, p + 1, n - 1)
  }

  /** The number at p. */
  function ValueAt(src: seq<byte>, p: nat, n: nat): nat
    requires Ends(src, p, n)
    decreases n
  {
    if src[p] < 0x80 then src[p] else src[p] - 0x80 + 0x80 * ValueAt(src, p + 1, n - 1)
  }

  /** Decoding undoes encoding, whatever follows the number. */
  lemma {:induction false} VleRoundTrip(src: seq<byte>, p: nat, v: nat, n: nat)
    requires p + |Vle(v)| <= |src| && src[p..p + |Vle(v)|] == Vle(v)
    requires |Vle(v)| <= n
    ensures Ends(src, p, n) && ValueAt(src, p, n) == v && Used(src, p, n) == |Vle(v)|
    decreases v
  {
    var e := Vle(v);
    assert src[p] == src[p..p + |e|][0] == e[0];
    if v >= 0x80 {
      assert src[p + 1..p + 1 + |Vle(v / 0x80)|] == src[p..p + |e|][1..] == e[1..] == Vle(v / 0x80);
      VleRoundTrip(src, p + 1, v / 0x80, n - 1);
    }
  }

  /** Every number is the encoding of only one value, and no encoding is a prefix of another. */
  lemma VleInjective(v: nat, w: nat, s: seq<byte>, t: seq<byte>)
    requires Vle(v) + s == Vle(w) + t
    ensures v == w && s == t
  {
    var b := Vle(v) + s;
    var n := Max(|Vle(v)|, |Vle(w)|);
    VleRoundTrip(b, 0, v, n);
    assert b[0..|Vle(w)|] == Vle(w);
    VleRoundTrip(b, 0, w, n);
    assert s == b[|Vle(v)|..];
  }

  const MAX_USED := 5

  // vle_to_dword: the value and the number of bytes read
  method VleToDword(src: seq<byte>, p: nat) returns (v: dword, used: nat)
    requires Ends(src, p, MAX_USED)
    ensures used == Used(src, p, MAX_USED)
    ensures v == ValueAt(src, p, MAX_USED) % 0x1_0000_0000
  {
    hide Ends, Used, ValueAt, Weight;
    v, used := 0, 0;
    var m, q := 1, p;
    ghost var n := MAX_USED;
    ghost var acc := 0;
    WeightBound(0);
    var more := true;
    while more
      invariant n == MAX_USED - used && q == p + used && used <= MAX_USED
      invariant more ==> Ends(src, q, n) && Used(src, p, MAX_USED) == used + Used(src, q, n)
      invariant more ==> m == Weight(used) && v == acc < m && used < MAX_USED
      invariant more ==> ValueAt(src, p, MAX_USED) == acc + m * ValueAt(src, q, n)
      invariant !more ==> used == Used(src, p, MAX_USED) && v == ValueAt(src, p, MAX_USED) % 0x1_0000_0000
      decreases n, more
    {
      NumberStep(src, q, n);
      var d := src[q] % 0x80;
      DigitBound(m, d, acc);
      WeightBound(used);
      if src[q] >= 0x80 {
        Horner(m, d, ValueAt(src, q + 1, n - 1));
      }
      acc := acc + m * d;
      v := ToDword(v + m * d);
      used := used + 1;
      more := src[q] >= 0x80;
      m := m * 0x80;
      q := q + 1;
      n := n - 1;
    }
  }

  lemma NumberStep(src: seq<byte>, q: nat, n: nat)
    requires Ends(src, q, n)
    ensures q < |src| && n > 0 && (n == 1 ==> src[q] < 0x80)
    ensures src[q] < 0x80 ==> Used(src, q, n) == 1 && ValueAt(src, q, n) == src[q] == src[q] % 0x80
    ensures src[q] >= 0x80 ==>
              && Ends(src, q + 1, n - 1) && Used(src, q, n) == 1 + Used(src, q + 1, n - 1)
              && ValueAt(src, q, n) == src[q] % 0x80 + 0x80 * ValueAt(src, q + 1, n - 1)
  {
  }

  function Weight(i: nat): (w: nat)
    ensures w > 0
  {
    if i == 0 then 1 else Weight(i - 1) * 0x80
  }

  /** Byte k of an encoding holds seven bits of the value, and its top bit says that more follow.
      There are as many bytes as the value needs: the last one is no zero, but for the value 0. */
  lemma {:induction false} VleBytes(v: nat, k: nat)
    requires k < |Vle(v)|
    ensures Vle(v)[k] == v / Weight(k) % 0x80 + if k < |Vle(v)| - 1 then 0x80 else 0
    ensures v < Weight(|Vle(v)|) && (|Vle(v)| > 1 ==> v >= Weight(|Vle(v)| - 1))
    decreases v
  {
    if v >= 0x80 {
      var n := |Vle(v)|;
      VleBytes(v / 0x80, if k > 0 then k - 1 else 0);
      if k > 0 {
        QuotientTwice(v, 0x80, Weight(k - 1), Weight(k));
      }
      assert Weight(n) == 0x80 * Weight(n - 1);
      assert n > 2 ==> Weight(n - 1) == 0x80 * Weight(n - 2);
    } else {
      assert Weight(1) == 0x80;
    }
  }

  lemma WeightBound(i: nat)
    requires i < MAX_USED
    ensures i < 4 ==> Weight(i) * 0x80 <= 0x1000_0000
    ensures Weight(0) == 1 && Weight(i + 1) == Weight(i) * 0x80
  {
    assert Weight(1) == 0x80 && Weight(2) == 0x4000 && Weight(3) == 0x20_0000;
  }

  lemma DigitBound(m: nat, d: nat, acc: nat)
    requires d < 0x80 && acc < m
    ensures 0 <= m * d && acc + m * d < m * 0x80
  {
    assert m * d <= m * 0x7f;
  }

  lemma Horner(m: nat, d: nat, x: nat)
    ensures m * (d + 0x80 * x) == m * d + m * 0x80 * x
  {
  }

  // dword_to_vle: the number of bytes, or 0 when they do not fit; without a destination
  // the bytes are only counted
  method DwordToVle(value: dword, dst: array?<byte>, at: nat, maxLength: nat) returns (pos: nat)
    requires dst != null ==> at + maxLength <= dst.Length
    modifies dst
    ensures dst == null || |Vle(value)| <= maxLength ==> pos == |Vle(value)|
    ensures dst != null && |Vle(value)| > maxLength ==> pos == 0
    ensures dst != null && |Vle(value)| <= maxLength ==> dst[..] == Overlay(old(dst[..]), at, Vle(value))
  {
    pos := 0;
    var v: nat := value;
    ghost var done: seq<byte> := [];
    ghost var b := if dst == null then [] else dst[..];
    if dst != null {
      OverlayNone(b, at);
    }
    hide Overlay;
    while true
      invariant Vle(value) == done + Vle(v) && |done| == pos
      invariant dst != null ==> pos <= maxLength && dst[..] == Overlay(b, at, done)
      decreases v
    {
      var last := v / 0x80 == 0;
      ghost var digit: byte := if last then v else v % 0x80 + 0x80;
      if dst != null {
        if pos >= maxLength {
          return 0;
        }
        OverlayByte(b, at, done, digit);
        dst[at + pos] := v % 0x80;
        if !last {
          dst[at + pos] := dst[at + pos] + 0x80;
        }
        assert dst[..] == Overlay(b, at, done)[at + pos := digit];
      }
      v := v / 0x80;
      pos := pos + 1;
      done := done + [digit];
      if last {
        break;
      }
    }
  }
}
