/** The accumulators of a frame stay in the range in which the arithmetic of kernel/capidtmf.c is
    exact.  A resonator with coefficient c keeps its energy K*q1^2 - c*q1*q2 + K*q2^2, but for what
    a sample adds; so the root of the energy grows linearly and the accumulators quadratically. */
module DtmfBound {
  import opened Machine
  import opened DtmfGoertzel
  import opened DtmfPower

  const K := 0x1_0000
  const U := 0x8001  // a sample and the rounding of the product

  function Energy(c: int, q1: int, q2: int): int {
    K * q1 * q1 - c * q1 * q2 + K * q2 * q2
  }

  /** Bound of the accumulators after n samples. */
  function Reach(n: nat): nat {
    if n == 0 then 0 else Reach(n - 1) + n * U
  }

  lemma {:induction false} ReachIs(n: nat)
    ensures 2 * Reach(n) == U * n * (n + 1)
  {
    if n > 0 {
      ReachIs(n - 1);
    }
  }

  /** A frame has 205 samples. */
  lemma FrameReach(n: nat)
    requires n <= 205
    ensures Reach(n) < 0x4000_0000
  {
    ReachIs(n);
    ProductLess(n, 205, n + 1);
    assert U * n * (n + 1) == U * (n * (n + 1));
  }

  ghost predicate Bounded(c: int, q1: int, q2: int, n: nat) {
    && K * Energy(c, q1, q2) <= (n * K * U) * (n * K * U)
    && Abs(q1) <= Reach(n) && Abs(q2) <= Reach(n)
  }

  lemma Expand(c: int, q1: int, q2: int, w: int)
    ensures (c * q1 - K * q2 + w) * (c * q1 - K * q2 + w) - c * q1 * (c * q1 - K * q2 + w) + K * K * q1 * q1
            == K * Energy(c, q1, q2) + w * w + w * (c * q1 - 2 * K * q2)
  {
    var a, b := c * q1, K * q2;
    Square3(a, b, w);
    assert a * (a - b + w) == a * a - a * b + a * w;
    assert K * (c * q1 * q2) == a * b;
    assert K * (K * q2 * q2) == b * b;
    assert w * (a - 2 * b) == w * a - 2 * (w * b);
  }

  lemma Square3(a: int, b: int, w: int)
    ensures (a - b + w) * (a - b + w) == a * a + b * b + w * w - 2 * (a * b) + 2 * (a * w) - 2 * (b * w)
  {
  }

  /** With K*q0 = c*q1 - K*q2 + w the energy grows by what the input w adds. */
  lemma EnergyStep(c: int, q0: int, q1: int, q2: int, w: int)
    requires K * q0 == c * q1 - K * q2 + w
    ensures K * Energy(c, q0, q1) == K * Energy(c, q1, q2) + w * w + w * (c * q1 - 2 * K * q2)
  {
    Expand(c, q1, q2, w);
    var v := K * q0;
    assert K * (K * q0 * q0) == v * v;
    assert K * (c * q0 * q1) == c * q1 * v;
  }

  /** The energy bounds the part of one accumulator that the other does not explain. */
  lemma EnergyBounds(c: int, q1: int, q2: int)
    requires -2 * K <= c <= 2 * K
    ensures (c * q1 - 2 * K * q2) * (c * q1 - 2 * K * q2) <= 4 * (K * Energy(c, q1, q2))
    ensures (c * q2 - 2 * K * q1) * (c * q2 - 2 * K * q1) <= 4 * (K * Energy(c, q1, q2))
  {
    OneSide(c, q1, q2);
    OneSide(c, q2, q1);
    assert c * q1 * q2 == c * q2 * q1;
  }

  lemma OneSide(c: int, p: int, q: int)
    requires -2 * K <= c <= 2 * K
    ensures (c * p - 2 * K * q) * (c * p - 2 * K * q) <= 4 * (K * Energy(c, p, q))
  {
    var a, b := c * p, 2 * K * q;
    assert (a - b) * (a - b) == a * a - 2 * (a * b) + b * b;
    assert a * b == 2 * K * (c * p * q);
    assert b * b == 4 * (K * (K * q * q));
    assert 4 * (K * (K * p * p)) == (2 * K) * (2 * K) * (p * p);
    assert a * a == (c * c) * (p * p);
    SquareLess(c, 2 * K);
    ProductLess(c * c, (2 * K) * (2 * K), p * p);
    SquareIsNat(p);
  }

  lemma SquareIsNat(p: int)
    ensures p * p >= 0
  {
  }

  lemma SquareLess(c: int, m: nat)
    requires Abs(c) <= m
    ensures c * c <= m * m
  {
    var a := Abs(c);
    assert c * c == a * a;
    assert a * a <= a * m <= m * m;
  }

  lemma ProductLess(a: int, b: int, p: nat)
    requires a <= b
    ensures a * p <= b * p
  {
  }

  /** From the squares to the numbers. */
  lemma RootLess(z: int, s: nat)
    requires z * z <= s * s
    ensures Abs(z) <= s
  {
    var a := Abs(z);
    assert z * z == a * a;
    if a > s {
      SquareMore(a, s);
    }
  }

  lemma SquareMore(a: nat, s: nat)
    requires a > s
    ensures a * a > s * s
  {
    assert a * a >= (s + 1) * a >= (s + 1) * (s + 1);
  }

  /** One sample: energy and accumulators stay within the bounds of one sample more. */
  lemma StepBounded(c: int, q0: int, q1: int, q2: int, w: int, n: nat)
    requires 0 <= c < 2 * K && Bounded(c, q1, q2, n)
    requires K * q0 == c * q1 - K * q2 + w && Abs(w) <= K * U
    ensures Bounded(c, q0, q1, n + 1)
  {
    var s, t := n * K * U, (n + 1) * K * U;
    assert t == s + K * U;
    EnergyStep(c, q0, q1, q2, w);
    EnergyBounds(c, q1, q2);
    RootOfFour(c * q1 - 2 * K * q2, K * Energy(c, q1, q2), s);
    Grows(K * Energy(c, q1, q2), w, c * q1 - 2 * K * q2, s, K * U);
    EnergyBounds(c, q0, q1);
    RootOfFour(c * q1 - 2 * K * q0, K * Energy(c, q0, q1), t);
    hide Energy;
    Triangle(c, q0, q1, t, n + 1);
  }

  /** |z| <= 2s when z^2 <= 4e and e <= s^2. */
  lemma RootOfFour(z: int, e: int, s: nat)
    requires z * z <= 4 * e && e <= s * s
    ensures Abs(z) <= 2 * s
  {
    assert (2 * s) * (2 * s) == 4 * (s * s);
    RootLess(z, 2 * s);
  }

  lemma Grows(e: int, w: int, z: int, s: nat, b: nat)
    requires e <= s * s && Abs(z) <= 2 * s && Abs(w) <= b
    ensures e + w * w + w * z <= (s + b) * (s + b)
  {
    SquareLess(w, b);
    var a, y := Abs(w), Abs(z);
    assert w * z <= a * y;
    assert a * y <= b * y <= b * (2 * s);
    assert (s + b) * (s + b) == s * s + b * (2 * s) + b * b;
  }

  lemma Triangle(c: int, q0: int, q1: int, t: nat, n: nat)
    requires 0 <= c < 2 * K && Abs(c * q1 - 2 * K * q0) <= 2 * t && t == n * K * U
    ensures Abs(q0) <= Abs(q1) + n * U
  {
    var a := Abs(q1);
    assert Abs(c * q1) == c * a;
    ProductLess(c, 2 * K, a);
    assert 2 * K * Abs(q0) <= 2 * K * a + 2 * t;
    assert 2 * t == 2 * K * (n * U);
  }

  // ------------------------------------------------- the moving fundamental

  /** What is left of 4K^2: the energy is at least D/4K times the square of an accumulator. */
  function D(c: int): int {
    4 * K * K - c * c
  }

  const B := K * U
  const LAST := FUNDAMENTAL_OFFSET - 205 * FUNDAMENTAL_DECREMENT

  /** Bound of the root of the energy, relative to D, after n samples. */
  function Root(n: nat): nat {
    B * n + B / 512 * n * n
  }

  ghost predicate Moving(c: int, q1: int, q2: int, n: nat) {
    K * Energy(c, q1, q2) * D(FUNDAMENTAL_OFFSET) <= Root(n) * Root(n) * D(c)
  }

  lemma DNext(c: int)
    ensures D(c - FUNDAMENTAL_DECREMENT) == D(c) + 160 * c - 6400
    ensures D(c - FUNDAMENTAL_DECREMENT) == (2 * K - c + 80) * (2 * K + c - 80)
  {
    var e := c - 80;
    assert e * e == c * c - 160 * c + 6400;
    Difference(2 * K, e);
  }

  lemma DLarge(c: int)
    requires LAST <= c <= FUNDAMENTAL_OFFSET
    ensures 10000 * 10000 <= D(FUNDAMENTAL_OFFSET) <= D(c)
  {
    SquareLess(c, FUNDAMENTAL_OFFSET);
  }

  lemma DGrows(c: int)
    requires LAST <= c <= FUNDAMENTAL_OFFSET
    ensures 0 <= D(c - FUNDAMENTAL_DECREMENT)
    ensures (D(c) + 4 * FUNDAMENTAL_DECREMENT * K) * (1024 * 1024) <= D(c - FUNDAMENTAL_DECREMENT) * (1025 * 1025)
  {
    hide D;
    DNext(c);
    ProductLess(200000, 2 * K + c - 80, 2 * K - c + 80);
  }

  lemma Difference(x: int, y: int)
    ensures (x - y) * (x + y) == x * x - y * y
  {
  }

  lemma RootIs(n: nat)
    ensures Root(n) == B / 512 * (512 * n + n * n)
  {
    var b := B / 512;
    assert B == 512 * b;
    Distribute3(b, 512 * n, n * n);
    assert b * n * n == b * (n * n);
    assert b * (512 * n) == 512 * b * n;
  }

  lemma Distribute3(a: int, x: int, y: int)
    ensures a * (x + y) == a * x + a * y
  {
  }

  lemma RootNext(n: nat)
    requires n <= 1000
    ensures 1025 * (Root(n) + B) <= 1024 * Root(n + 1)
  {
    hide Root;
    RootIs(n);
    RootIs(n + 1);
    var m := n * n;
    assert (n + 1) * (n + 1) == m + 2 * n + 1;
    ProductLess(n, 1000, n);
  }

  /** A bounded energy bounds both accumulators. */
  lemma AccumulatorBounds(c: int, q1: int, q2: int)
    requires 0 <= c <= 2 * K
    ensures q1 * q1 * D(c) <= 4 * (K * Energy(c, q1, q2)) && q2 * q2 * D(c) <= 4 * (K * Energy(c, q1, q2))
  {
    Side(c, q1, q2);
    Side(c, q2, q1);
    assert c * q1 * q2 == c * q2 * q1;
  }

  lemma Side(c: int, p: int, q: int)
    ensures p * p * D(c) <= 4 * (K * Energy(c, p, q))
  {
    var a, b := c * p, 2 * K * q;
    SquareIsNat(a - b);
    assert (a - b) * (a - b) == a * a - 2 * (a * b) + b * b;
    assert a * b == 2 * K * (c * p * q);
    assert b * b == 4 * (K * (K * q * q));
    assert a * a == (c * c) * (p * p);
    assert p * p * D(c) == 4 * (K * (K * p * p)) - (c * c) * (p * p);
  }

  lemma ProductsLess(a: nat, b: nat, x: nat, y: nat)
    requires a <= b && x <= y
    ensures a * x <= b * y
  {
    ProductLess(a, b, x);
    ProductLess(x, y, b);
  }

  /** The energy after a sample, with the same coefficient. */
  lemma MovingInput(e: int, w: int, z: int, r: nat, d: int, d0: int)
    requires 0 < d0 <= d && e * d0 <= r * r * d && z * z <= 4 * e && Abs(w) <= B
    ensures (e + w * w + w * z) * d0 <= (r + B) * (r + B) * d
  {
    ScaledRoot(e, z, r, d, d0);
    SquareLess(w, B);
    SquareIsNat(w);
    ProductsLess(w * w, B * B, d0, d);
    CrossTerm(w, z, r * d, d0);
    SquareOfSum(e, w, z, d0, r, d);
  }

  lemma CrossTerm(w: int, z: int, m: nat, d0: nat)
    requires Abs(z) * d0 <= 2 * m && Abs(w) <= B
    ensures w * z * d0 <= B * (2 * m)
  {
    var a, y := Abs(w), Abs(z);
    assert w * z <= a * y;
    ProductLess(w * z, a * y, d0);
    assert a * y * d0 == a * (y * d0);
    ProductsLess(a, B, y * d0, 2 * m);
  }

  lemma SquareOfSum(e: int, w: int, z: int, d0: int, r: nat, d: int)
    requires e * d0 <= r * r * d && w * w * d0 <= B * B * d && w * z * d0 <= B * (2 * (r * d))
    ensures (e + w * w + w * z) * d0 <= (r + B) * (r + B) * d
  {
    Distribute3(d0, e + w * w, w * z);
    Distribute3(d0, e, w * w);
    assert (r + B) * (r + B) == r * r + 2 * B * r + B * B;
    assert (r * r + 2 * B * r + B * B) * d == r * r * d + 2 * B * r * d + B * B * d;
    assert 2 * B * r * d == B * (2 * (r * d));
  }

  lemma ScaledRoot(e: int, z: int, r: nat, d: int, d0: int)
    requires 0 < d0 <= d && e * d0 <= r * r * d && z * z <= 4 * e
    ensures Abs(z) * d0 <= 2 * (r * d)
  {
    var y := Abs(z);
    assert z * z == y * y;
    ProductLess(z * z, 4 * e, d0);
    assert 4 * e * d0 == 4 * (e * d0);
    ScaledSquare(y, r, d, d0);
    RootLess(y * d0, 2 * (r * d));
  }

  lemma ScaledSquare(y: nat, r: nat, d: nat, d0: nat)
    requires y * y * d0 <= 4 * (r * r * d) && d0 <= d
    ensures (y * d0) * (y * d0) <= (2 * (r * d)) * (2 * (r * d))
  {
    var m := r * r * d;
    ProductsLess(y * y * d0, 4 * m, d0, d);
    assert (y * d0) * (y * d0) == y * y * d0 * d0;
    assert (2 * (r * d)) * (2 * (r * d)) == 4 * (r * d) * (r * d);
    assert (r * d) * (r * d) == m * d;
  }

  /** The coefficient falls: the energy grows by a product of accumulators. */
  lemma Fall(c: int, q0: int, q1: int)
    requires LAST <= c <= FUNDAMENTAL_OFFSET
    ensures K * Energy(c - FUNDAMENTAL_DECREMENT, q0, q1) * D(c)
            <= K * Energy(c, q0, q1) * (D(c) + 4 * FUNDAMENTAL_DECREMENT * K)
  {
    AccumulatorBounds(c, q0, q1);
    DLarge(c);
    FallenEnergy(c, q0, q1);
    hide Energy, D;
    var e, d := Energy(c, q0, q1), D(c);
    MixedProduct(q0, q1, d, 4 * (K * e));
    FallenProduct(e, d, q0 * q1);
  }

  lemma FallenEnergy(c: int, q0: int, q1: int)
    ensures Energy(c - FUNDAMENTAL_DECREMENT, q0, q1) == Energy(c, q0, q1) + 80 * (q0 * q1)
  {
    Distribute3(q0 * q1, c, -80);
    assert c * q0 * q1 == c * (q0 * q1) && (c - 80) * q0 * q1 == (c - 80) * (q0 * q1);
  }

  lemma FallenProduct(e: int, d: int, p: int)
    requires p * d <= 4 * (K * e)
    ensures K * (e + 80 * p) * d <= K * e * (d + 4 * FUNDAMENTAL_DECREMENT * K)
  {
    var f := K * e;
    assert K * (e + 80 * p) == f + K * 80 * p;
    assert (f + K * 80 * p) * d == f * d + K * 80 * (p * d);
    Distribute3(f, d, 4 * 80 * K);
    assert f * (4 * 80 * K) == K * 80 * (4 * f);
  }

  lemma MixedProduct(p: int, q: int, d: nat, m: int)
    requires p * p * d <= m && q * q * d <= m
    ensures p * q * d <= m
  {
    SquareIsNat(p - q);
    assert (p - q) * (p - q) == p * p - 2 * (p * q) + q * q;
    ProductLess(2 * (p * q), p * p + q * q, d);
    assert 2 * (p * q) * d == 2 * (p * q * d);
    assert (p * p + q * q) * d == p * p * d + q * q * d;
  }

  /** One sample of the fundamental. */
  lemma MovingStep(c: int, q0: int, q1: int, q2: int, w: int, n: nat)
    requires LAST < c <= FUNDAMENTAL_OFFSET && Moving(c, q1, q2, n) && n <= 1000
    requires K * q0 == c * q1 - K * q2 + w && Abs(w) <= B
    ensures Moving(c - FUNDAMENTAL_DECREMENT, q0, q1, n + 1)
  {
    var d, d0, next := D(c), D(FUNDAMENTAL_OFFSET), D(c - FUNDAMENTAL_DECREMENT);
    DGrows(c);
    DLarge(c);
    hide D;
    EnergyStep(c, q0, q1, q2, w);
    EnergyBounds(c, q1, q2);
    MovingInput(K * Energy(c, q1, q2), w, c * q1 - 2 * K * q2, Root(n), d, d0);
    Fall(c, q0, q1);
    RootNext(n);
    hide Energy, D, Root;
    Combine(K * Energy(c - FUNDAMENTAL_DECREMENT, q0, q1), K * Energy(c, q0, q1), d, 4 * FUNDAMENTAL_DECREMENT * K,
            d0, next, Root(n) + B, Root(n + 1));
  }

  lemma Combine(e': int, e: int, d: int, g: nat, d0: nat, next: int, r: nat, r': nat)
    requires d > 0 && next >= 0 && e' * d <= e * (d + g) && e * d0 <= r * r * d
    requires (d + g) * (1024 * 1024) <= next * (1025 * 1025) && 1025 * r <= 1024 * r'
    ensures e' * d0 <= r' * r' * next
  {
    ProductLess(e' * d, e * (d + g), d0);
    assert e * (d + g) * d0 == e * d0 * (d + g);
    ProductLess(e * d0, r * r * d, d + g);
    assert e' * d0 * d <= r * r * (d + g) * d by {
      assert e' * d * d0 == e' * d0 * d;
      assert r * r * d * (d + g) == r * r * (d + g) * d;
    }
    Cancel(e' * d0, r * r * (d + g), d);
    ProductLess((d + g) * (1024 * 1024), next * (1025 * 1025), r * r);
    SquareLess(1025 * r, 1024 * r');
    assert (1025 * r) * (1025 * r) == r * r * (1025 * 1025);
    assert (1024 * r') * (1024 * r') == r' * r' * (1024 * 1024);
    ProductLess(r * r * (1025 * 1025), r' * r' * (1024 * 1024), next);
    hide Abs;
    Scale(r * r, d + g, next, r' * r');
  }

  lemma Scale(a: int, b: int, next: int, c: int)
    requires b * (1024 * 1024) * a <= next * (1025 * 1025) * a
    requires a * (1025 * 1025) * next <= c * (1024 * 1024) * next
    ensures a * b <= c * next
  {
    assert next * (1025 * 1025) * a == a * (1025 * 1025) * next;
    assert b * (1024 * 1024) * a == (a * b) * (1024 * 1024);
    assert c * (1024 * 1024) * next == (c * next) * (1024 * 1024);
  }

  lemma Cancel(a: int, b: int, d: int)
    requires d > 0 && a * d <= b * d
    ensures a <= b
  {
    if a > b {
      ProductLess(b + 1, a, d);
    }
  }

  /** The accumulators of the fundamental. */
  lemma MovingInRange(c: int, q1: int, q2: int, n: nat)
    requires LAST <= c <= FUNDAMENTAL_OFFSET && Moving(c, q1, q2, n) && n <= 206
    ensures Abs(q1) < 0x4000_0000 && Abs(q2) < 0x4000_0000
  {
    hide Energy, Root, D;
    DLarge(c);
    AccumulatorBounds(c, q1, q2);
    var e, r := K * Energy(c, q1, q2), Root(n);
    RootSmall(n);
    InRange(q1, e, r, D(c), D(FUNDAMENTAL_OFFSET));
    InRange(q2, e, r, D(c), D(FUNDAMENTAL_OFFSET));
  }

  lemma RootSmall(n: nat)
    requires n <= 206
    ensures Root(n) < 5000 * 0x4000_0000
  {
    hide Root;
    RootIs(n);
    ProductsLess(n, 206, n, 206);
  }

  lemma InRange(q: int, e: int, r: nat, d: int, d0: int)
    requires 10000 * 10000 <= d0 <= d && q * q * d <= 4 * e && e * d0 <= r * r * d && r < 5000 * 0x4000_0000
    ensures Abs(q) < 0x4000_0000
  {
    ProductLess(q * q * d, 4 * e, d0);
    assert q * q * d * d0 == q * q * d0 * d;
    assert 4 * e * d0 <= 4 * (r * r) * d;
    Cancel(q * q * d0, 4 * (r * r), d);
    SquareIsNat(q);
    ProductLess(10000 * 10000, d0, q * q);
    assert (10000 * q) * (10000 * q) == 10000 * 10000 * (q * q);
    assert (2 * r) * (2 * r) == 4 * (r * r);
    RootLess(10000 * q, 2 * r);
  }
}
