/** Fixed-width integers of the C code, little-endian storage of 32-bit values, and memory
    that is overwritten in part. */
module Machine {

  type byte = x: int | 0 <= x < 0x100
  type word = x: int | 0 <= x < 0x1_0000
  type dword = x: int | 0 <= x < 0x1_0000_0000
  type int16 = x: int | -0x8000 <= x < 0x8000
  type int32 = x: int | -0x8000_0000 <= x < 0x8000_0000

  datatype Option<+T> = None | Some(value: T)

  function Min(x: int, y: int): int {
    if x < y then x else y
  }

  function Max(x: int, y: int): int {
    if x > y then x else y
  }

  lemma ProductGrows(v: nat, w: nat, p: nat)
    requires v <= w
    ensures v * p <= w * p
  {
  }

  lemma Quotient(x: nat, k: nat, p: nat, r: nat)
    requires r < p && x == k * p + r
    ensures x / p == k
  {
    var q := x / p;
    assert q * p + x % p == x;
    if q > k {
      ProductGrows(k + 1, q, p);
    } else if q < k {
      ProductGrows(q + 1, k, p);
    }
  }

  lemma QuotientTwice(x: nat, m: nat, w: nat, p: nat)
    requires m > 0 && w > 0 && p == m * w
    ensures p > 0 && x / p == x / m / w
  {
    Euclid(x, m);
    Euclid(x / m, w);
    QuotientParts(x, m, w, p, x / m / w, x / m % w, x % m);
  }

  lemma Euclid(x: nat, m: nat)
    requires m > 0
    ensures x == x / m * m + x % m && 0 <= x / m && 0 <= x % m < m
  {
  }

  lemma QuotientParts(x: nat, m: nat, w: nat, p: nat, q: nat, r: nat, s: nat)
    requires p == m * w && x == (q * w + r) * m + s && r < w && s < m
    ensures p > 0 && x / p == q
  {
    Regroup(m, w, q, r);
    ProductGrows(r + 1, w, m);
    Quotient(x, q, p, r * m + s);
  }

  lemma Regroup(m: nat, w: nat, q: nat, r: nat)
    ensures (q * w + r) * m == q * (m * w) + r * m && (r + 1) * m == r * m + m && w * m == m * w
  {
    assert q * w * m == q * (m * w);
  }

  /** x modulo 2^32 as a two's complement value. */
  function ToInt32(x: int): (r: int32)
    ensures -0x8000_0000 <= x < 0x8000_0000 ==> r == x
  {
    (x + 0x8000_0000) % 0x1_0000_0000 - 0x8000_0000
  }

  function ToInt16(x: int): (r: int16)
    ensures -0x8000 <= x < 0x8000 ==> r == x
  {
    (x + 0x8000) % 0x1_0000 - 0x8000
  }

  function ToDword(x: int): (r: dword)
    ensures 0 <= x < 0x1_0000_0000 ==> r == x
  {
    x % 0x1_0000_0000
  }

  /** The 32-bit value stored little-endian at offset p. */
  function DwordAt(b: seq<byte>, p: nat): (v: dword)
    requires p + 4 <= |b|
  {
    var b0: int, b1: int, b2: int, b3: int := b[p], b[p + 1], b[p + 2], b[p + 3];
    b0 + 0x100 * b1 + 0x1_0000 * b2 + 0x100_0000 * b3
  }

  /** The four little-endian bytes of v. */
  function DwordBytes(v: dword): (b: seq<byte>)
    ensures |b| == 4 && DwordAt(b, 0) == v
  {
    var w: nat := v / 0x100;
    var x := w / 0x100;
    [v % 0x100, w % 0x100, x % 0x100, x / 0x100]
  }

  /** b over mem from place a on. */
  function Overlay(mem: seq<byte>, a: nat, b: seq<byte>): (r: seq<byte>)
    requires a + |b| <= |mem|
    ensures |r| == |mem|
  {
    mem[..a] + b + mem[a + |b|..]
  }

  lemma OverlayNone(mem: seq<byte>, a: nat)
    requires a <= |mem|
    ensures Overlay(mem, a, []) == mem
  {
  }

  lemma OverlayByte(mem: seq<byte>, a: nat, b: seq<byte>, x: byte)
    requires a + |b| < |mem|
    ensures Overlay(mem, a, b)[a + |b| := x] == Overlay(mem, a, b + [x])
  {
  }

  /** The bytes lie in dst from place a on; b is what dst held before. */
  ghost predicate Overlaid(dst: array?<byte>, b: seq<byte>, a: nat, bytes: seq<byte>)
    reads dst
  {
    dst != null ==> a + |bytes| <= |b| == dst.Length && dst[..] == Overlay(b, a, bytes)
  }

  lemma OverlayMore(b: seq<byte>, a: nat, bytes: seq<byte>, data: seq<byte>)
    requires a + |bytes| + |data| <= |b|
    ensures Overlay(Overlay(b, a, bytes), a + |bytes|, data) == Overlay(b, a, bytes + data)
  {
  }

  /** memcpy to place at. */
  method WriteBytes(dst: array<byte>, at: nat, data: seq<byte>)
    requires at + |data| <= dst.Length
    modifies dst
    ensures dst[..] == Overlay(old(dst[..]), at, data)
  {
    ghost var c := dst[..];
    OverlayNone(c, at);
    hide Overlay;
    assert data[..0] == [];
    for i := 0 to |data|
      invariant dst[..] == Overlay(c, at, data[..i])
    {
      OverlayByte(c, at, data[..i], data[i]);
      assert data[..i] + [data[i]] == data[..i + 1];
      dst[at + i] := data[i];
    }
    assert data[..|data|] == data;
  }
}
