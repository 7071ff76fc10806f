/** Transmit buffers of a CAPI application (kernel/capifunc.c): two circular doubly linked lists,
    of used and of free buffers, that share one array. */
module CapiBuffers {
  import opened Machine

  datatype Link = Link(prev: nat, next: nat)

  const USED := 0
  const FREE := 1
  const ANCHORS := 2

  /** The k-th stop on the way round a list: its anchor, its elements, the anchor again. */
  function Stop(a: nat, s: seq<nat>, k: nat): nat
    requires k <= |s| + 1
  {
    if 0 < k <= |s| then s[k - 1] else a
  }

  ghost predicate Joined(t: seq<Link>, x: nat, y: nat) {
    x < |t| && y < |t| && t[x].next == y && t[y].prev == x
  }

  /** The list of anchor a has the elements s, forwards and backwards. */
  ghost predicate Ring(t: seq<Link>, a: nat, s: seq<nat>) {
    forall k :: 0 <= k <= |s| ==> Joined(t, Stop(a, s, k), Stop(a, s, k + 1))
  }

  ghost predicate Distinct(s: seq<nat>) {
    forall j, k :: 0 <= j < k < |s| ==> s[j] != s[k]
  }

  // --------------------------------------------------------- taking out, putting in

  function Unlinked(t: seq<Link>, i: nat): (u: seq<Link>)
    requires i < |t| && t[i].prev < |t| && t[i].next < |t|
    ensures |u| == |t|
  {
    var u := t[t[i].prev := t[t[i].prev].(next := t[i].next)];
    u[u[i].next := u[u[i].next].(prev := u[i].prev)]
  }

  function Pushed(t: seq<Link>, a: nat, i: nat): (u: seq<Link>)
    requires i < |t| && a < |t| && i != a && t[a].next < |t|
    ensures |u| == |t|
  {
    var u := t[i := Link(a, t[a].next)];
    var v := u[u[a].next := u[u[a].next].(prev := i)];
    v[a := v[a].(next := i)]
  }

  function Without(s: seq<nat>, i: nat): seq<nat> {
    if s == [] then [] else if s[0] == i then s[1..] else [s[0]] + Without(s[1..], i)
  }

  lemma {:induction false} WithoutIs(s: seq<nat>, i: nat, j: nat)
    requires j < |s| && s[j] == i && Distinct(s)
    ensures Without(s, i) == s[..j] + s[j + 1..]
  {
    if j > 0 {
      assert s[1..][j - 1] == i;
      WithoutIs(s[1..], i, j - 1);
      assert s[..j] == [s[0]] + s[1..][..j - 1] && s[1..][j..] == s[j + 1..];
    }
  }

  lemma {:induction false} WithoutNone(s: seq<nat>, i: nat)
    requires i !in s
    ensures Without(s, i) == s
  {
    if s != [] {
      WithoutNone(s[1..], i);
    }
  }

  /** The neighbours of an element. */
  lemma Neighbours(t: seq<Link>, a: nat, s: seq<nat>, j: nat)
    requires Ring(t, a, s) && j < |s|
    ensures s[j] < |t| && t[s[j]].prev == Stop(a, s, j) < |t| && t[s[j]].next == Stop(a, s, j + 2) < |t|
  {
    assert Joined(t, Stop(a, s, j), Stop(a, s, j + 1)) && Joined(t, Stop(a, s, j + 1), Stop(a, s, j + 2));
  }

  lemma {:induction false} UnlinkRing(t: seq<Link>, a: nat, s: seq<nat>, j: nat)
    requires Ring(t, a, s) && Distinct([a] + s) && j < |s|
    ensures s[j] < |t| && t[s[j]].prev < |t| && t[s[j]].next < |t|
    ensures Ring(Unlinked(t, s[j]), a, s[..j] + s[j + 1..])
  {
    Neighbours(t, a, s, j);
    var u, r := Unlinked(t, s[j]), s[..j] + s[j + 1..];
    forall k | 0 <= k <= |r| ensures Joined(u, Stop(a, r, k), Stop(a, r, k + 1)) {
      var l := if k <= j then k else k + 1;
      assert Joined(t, Stop(a, s, l), Stop(a, s, l + 1));
      assert Stop(a, r, k) == Stop(a, s, l);
      assert Stop(a, r, k + 1) == if k == j then Stop(a, s, j + 2) else Stop(a, s, l + 1);
      DistinctStops(a, s, l, j);
    }
  }

  /** Different stops are different places. */
  lemma DistinctStops(a: nat, s: seq<nat>, l: nat, j: nat)
    requires Distinct([a] + s) && l <= |s| && j < |s|
    ensures l != j ==> Stop(a, s, l) != Stop(a, s, j)
    ensures l != j + 1 ==> Stop(a, s, l) != s[j] && Stop(a, s, l + 1) != Stop(a, s, j + 2)
  {
    StopIs(a, s, l);
    StopIs(a, s, l + 1);
    StopIs(a, s, j);
    StopIs(a, s, j + 1);
    StopIs(a, s, j + 2);
  }

  lemma StopIs(a: nat, s: seq<nat>, k: nat)
    ensures k <= |s| + 1 ==> Stop(a, s, k) == ([a] + s)[if k <= |s| then k else 0]
  {
  }

  lemma UnlinkOther(t: seq<Link>, i: nat, b: nat, r: seq<nat>)
    requires i < |t| && t[i].prev < |t| && t[i].next < |t|
    requires Ring(t, b, r) && t[i].prev !in [b] + r && t[i].next !in [b] + r
    ensures Ring(Unlinked(t, i), b, r)
  {
    var u := Unlinked(t, i);
    forall k | 0 <= k <= |r| ensures Joined(u, Stop(b, r, k), Stop(b, r, k + 1)) {
      assert Joined(t, Stop(b, r, k), Stop(b, r, k + 1));
      StopIn(b, r, k);
      StopIn(b, r, k + 1);
    }
  }

  lemma StopIn(a: nat, s: seq<nat>, k: nat)
    requires k <= |s| + 1
    ensures Stop(a, s, k) in [a] + s
  {
    StopIs(a, s, k);
  }

  lemma PushRing(t: seq<Link>, a: nat, s: seq<nat>, i: nat)
    requires Ring(t, a, s) && i < |t| && i !in [a] + s && Distinct([a] + s)
    ensures a < |t| && t[a].next < |t| && a != i
    ensures Ring(Pushed(t, a, i), a, [i] + s)
  {
    assert Joined(t, Stop(a, s, 0), Stop(a, s, 1));
    assert ([a] + s)[0] == a;
    var u, r := Pushed(t, a, i), [i] + s;
    forall k | 0 <= k <= |r| ensures Joined(u, Stop(a, r, k), Stop(a, r, k + 1)) {
      StopIn(a, s, 1);
      if k > 0 {
        assert Joined(t, Stop(a, s, k - 1), Stop(a, s, k));
        assert k > 1 ==> Stop(a, r, k) == Stop(a, s, k - 1);
        assert Stop(a, r, k + 1) == Stop(a, s, k);
        StopIn(a, s, k - 1);
        StopIn(a, s, k);
        if k > 1 {
          DistinctStops(a, s, k - 1, 0);
          FirstStop(a, s, k);
        }
      }
    }
  }

  lemma FirstStop(a: nat, s: seq<nat>, k: nat)
    requires Distinct([a] + s) && 1 < k <= |s| + 1
    ensures Stop(a, s, k) != Stop(a, s, 1)
  {
    var x := [a] + s;
    assert Stop(a, s, 1) == x[1] && Stop(a, s, k) == if k <= |s| then x[k] else x[0];
  }

  lemma PushOther(t: seq<Link>, a: nat, i: nat, b: nat, r: seq<nat>)
    requires i < |t| && a < |t| && i != a && t[a].next < |t|
    requires Ring(t, b, r) && i !in [b] + r && a !in [b] + r && t[a].next !in [b] + r
    ensures Ring(Pushed(t, a, i), b, r)
  {
    var u := Pushed(t, a, i);
    forall k | 0 <= k <= |r| ensures Joined(u, Stop(b, r, k), Stop(b, r, k + 1)) {
      assert Joined(t, Stop(b, r, k), Stop(b, r, k + 1));
      StopIn(b, r, k);
      StopIn(b, r, k + 1);
    }
  }

  // ------------------------------------------------------------- the lists

  class XBuffers {
    const t: array<Link>
    ghost var used: seq<nat>
    ghost var free: seq<nat>

    /** The two lists are well-formed, and every buffer is in exactly one of them, once. */
    ghost predicate Valid()
      reads this, t
    {
      && ANCHORS <= t.Length
      && Ring(t[..], USED, used) && Ring(t[..], FREE, free)
      && Partition(t.Length, used, free)
    }

    // XBufferInit
    constructor (n: word)
      ensures Valid() && t.Length == n + ANCHORS && used == [] && free == FromTo(ANCHORS, n + ANCHORS)
    {
      FromToHas(ANCHORS, n + ANCHORS);
      t := new Link[n + ANCHORS](_ => Link(0, 0));
      used, free := [], [];
      new;
      t[USED] := Link(USED, USED);
      t[FREE] := Link(FREE, FREE);
      for i := 0 to n
        invariant used == [] && free == FromTo(ANCHORS, ANCHORS + i)
        invariant Ring(t[..], USED, used) && Ring(t[..], FREE, free)
      {
        ghost var k := ANCHORS + i;
        FromToHas(ANCHORS, k);
        AppendKeeps(t[..], free, k);
        Append(ANCHORS + i);
        free := free + [k];
      }
    }

    /** The four assignments of XBufferInit's loop. */
    method Append(k: nat)
      requires ANCHORS <= k < t.Length && t[FREE].prev < t.Length && t[FREE].prev != k
      modifies t
      ensures t[..] == Appended(old(t[..]), FREE, k)
    {
      t[k] := t[k].(prev := t[FREE].prev);
      t[k] := t[k].(next := FREE);
      t[t[FREE].prev] := t[t[FREE].prev].(next := k);
      t[FREE] := t[FREE].(prev := k);
    }

    // XBufferNext
    method Next() returns (e: int)
      requires Valid()
      ensures e == if free == [] then -1 else free[0] - ANCHORS
      ensures e < 0 <==> free == []
    {
      assert Joined(t[..], Stop(FREE, free, 0), Stop(FREE, free, 1));
      assert free != [] ==> free[0] in free;
      e := t[FREE].next - ANCHORS;
    }

    // XBufferAlloc
    method Alloc(e: word)
      requires Valid() && e + ANCHORS < t.Length
      modifies this, t
      ensures Valid()
      ensures used == [e + ANCHORS] + Without(old(used), e + ANCHORS) && free == Without(old(free), e + ANCHORS)
    {
      hide Ring, Partition, Without;
      Move(USED, e + ANCHORS);
      used, free := [e + ANCHORS] + Without(used, e + ANCHORS), Without(free, e + ANCHORS);
    }

    // XBufferFree
    method Free(e: word)
      requires Valid() && e + ANCHORS < t.Length
      modifies this, t
      ensures Valid()
      ensures free == [e + ANCHORS] + Without(old(free), e + ANCHORS) && used == Without(old(used), e + ANCHORS)
    {
      hide Ring, Partition, Without;
      Move(FREE, e + ANCHORS);
      used, free := Without(used, e + ANCHORS), [e + ANCHORS] + Without(free, e + ANCHORS);
    }

    /** The six assignments of either operation. */
    method Move(a: nat, i: nat)
      requires Valid() && a < ANCHORS <= i < t.Length
      modifies t
      ensures var u := if a == USED then [i] + Without(used, i) else Without(used, i);
              var f := if a == FREE then [i] + Without(free, i) else Without(free, i);
              Ring(t[..], USED, u) && Ring(t[..], FREE, f) && Partition(t.Length, u, f)
    {
      hide Ring, Partition, Without;
      MoveKeeps(t[..], a, i, used, free);
      Unlink(i);
      Push(a, i);
    }

    method Unlink(i: nat)
      requires i < t.Length && t[i].prev < t.Length && t[i].next < t.Length
      modifies t
      ensures t[..] == Unlinked(old(t[..]), i)
    {
      t[t[i].prev] := t[t[i].prev].(next := t[i].next);
      t[t[i].next] := t[t[i].next].(prev := t[i].prev);
    }

    method Push(a: nat, i: nat)
      requires i < t.Length && a < t.Length && i != a && t[a].next < t.Length
      modifies t
      ensures t[..] == Pushed(old(t[..]), a, i)
    {
      t[i] := t[i].(next := t[a].next);
      t[i] := t[i].(prev := a);
      t[t[a].next] := t[t[a].next].(prev := i);
      t[a] := t[a].(next := i);
    }
  }

  function FromTo(m: nat, n: nat): (s: seq<nat>)
    requires m <= n
    ensures |s| == n - m
  {
    if m == n then [] else FromTo(m, n - 1) + [n - 1]
  }

  lemma {:induction false} FromToHas(m: nat, n: nat)
    requires m <= n
    ensures Distinct(FromTo(m, n)) && forall i :: i in FromTo(m, n) <==> m <= i < n
  {
    if m < n {
      FromToHas(m, n - 1);
      var s := FromTo(m, n - 1);
      assert forall j :: 0 <= j < |s| ==> s[j] in s;
    }
  }

  /** Every place behind the anchors is in exactly one list. */
  ghost predicate Partition(n: nat, used: seq<nat>, free: seq<nat>) {
    && Distinct(used) && Distinct(free)
    && (forall i :: i in used ==> ANCHORS <= i < n && i !in free)
    && (forall i :: i in free ==> ANCHORS <= i < n && i !in used)
    && (forall i :: ANCHORS <= i < n ==> i in used || i in free)
  }

  /** An element leaves its list and becomes the first of the list of anchor a. */
  lemma MoveKeeps(t: seq<Link>, a: nat, i: nat, used: seq<nat>, free: seq<nat>)
    requires ANCHORS <= |t| && Ring(t, USED, used) && Ring(t, FREE, free) && Partition(|t|, used, free)
    requires a < ANCHORS <= i < |t|
    ensures t[i].prev < |t| && t[i].next < |t| && Unlinked(t, i)[a].next < |t|
    ensures var v := Pushed(Unlinked(t, i), a, i);
            var u := if a == USED then [i] + Without(used, i) else Without(used, i);
            var f := if a == FREE then [i] + Without(free, i) else Without(free, i);
            Ring(v, USED, u) && Ring(v, FREE, f) && Partition(|t|, u, f)
  {
    assert i in used || i in free;
    WithoutHas(used, i);
    WithoutHas(free, i);
    AnchorDistinct(USED, used);
    AnchorDistinct(FREE, free);
    if i in used {
      TakeOut(t, USED, used, FREE, free, i);
      WithoutNone(free, i);
    } else {
      TakeOut(t, FREE, free, USED, used, i);
      WithoutNone(used, i);
    }
    var u, f := Without(used, i), Without(free, i);
    AnchorDistinct(i, u);
    AnchorDistinct(i, f);
    if a == USED {
      PutIn(Unlinked(t, i), USED, u, FREE, f, i);
    } else {
      PutIn(Unlinked(t, i), FREE, f, USED, u, i);
    }
  }

  lemma AnchorDistinct(a: nat, s: seq<nat>)
    requires Distinct(s) && a !in s
    ensures Distinct([a] + s)
  {
  }

  lemma {:induction false} WithoutHas(s: seq<nat>, i: nat)
    requires Distinct(s)
    ensures forall x :: x in Without(s, i) <==> x in s && x != i
    ensures Distinct(Without(s, i)) && |Without(s, i)| <= |s|
  {
    if s != [] {
      assert s == [s[0]] + s[1..] && s[0] !in s[1..];
      WithoutHas(s[1..], i);
      if s[0] != i {
        AnchorDistinct(s[0], Without(s[1..], i));
      }
    }
  }

  /** An element of the list of x is unlinked; the list of y is not touched. */
  lemma TakeOut(t: seq<Link>, x: nat, s: seq<nat>, y: nat, r: seq<nat>, i: nat)
    requires Ring(t, x, s) && Ring(t, y, r) && i in s && Distinct([x] + s) && x < ANCHORS && y < ANCHORS && x != y
    requires (forall k :: k in s ==> k !in r && k >= ANCHORS) && (forall k :: k in r ==> k >= ANCHORS)
    ensures i < |t| && t[i].prev < |t| && t[i].next < |t|
    ensures Ring(Unlinked(t, i), x, Without(s, i)) && Ring(Unlinked(t, i), y, r)
  {
    var j :| 0 <= j < |s| && s[j] == i;
    assert Distinct(s) by {
      assert forall k :: 0 <= k < |s| ==> s[k] == ([x] + s)[k + 1];
    }
    WithoutIs(s, i, j);
    UnlinkRing(t, x, s, j);
    Neighbours(t, x, s, j);
    StopIn(x, s, j);
    StopIn(x, s, j + 2);
    UnlinkOther(t, i, y, r);
  }

  /** An element is put first in the list of a; the list of b is not touched. */
  lemma PutIn(t: seq<Link>, a: nat, s: seq<nat>, b: nat, r: seq<nat>, i: nat)
    requires Ring(t, a, s) && Ring(t, b, r) && Distinct(s) && a < ANCHORS && b < ANCHORS && a != b
    requires ANCHORS <= i < |t| && i !in s && i !in r
    requires (forall k :: k in s ==> k !in r && k >= ANCHORS) && (forall k :: k in r ==> k >= ANCHORS)
    ensures a < |t| && t[a].next < |t| && i != a
    ensures Ring(Pushed(t, a, i), a, [i] + s) && Ring(Pushed(t, a, i), b, r)
  {
    AnchorDistinct(a, s);
    PushRing(t, a, s, i);
    assert Joined(t, Stop(a, s, 0), Stop(a, s, 1));
    StopIn(a, s, 1);
    PushOther(t, a, i, b, r);
  }

  // ---------------------------------------------------------- filling the list

  function Appended(t: seq<Link>, a: nat, k: nat): (u: seq<Link>)
    requires k < |t| && a < |t| && k != a && t[a].prev < |t|
    ensures |u| == |t|
  {
    var u := t[k := Link(t[a].prev, a)];
    var v := u[u[a].prev := u[u[a].prev].(next := k)];
    v[a := v[a].(prev := k)]
  }

  lemma LastIs(t: seq<Link>, a: nat, s: seq<nat>)
    requires Ring(t, a, s)
    ensures a < |t| && t[a].prev == Stop(a, s, |s|) < |t|
  {
    assert Joined(t, Stop(a, s, |s|), Stop(a, s, |s| + 1));
  }

  lemma AppendRing(t: seq<Link>, a: nat, s: seq<nat>, i: nat)
    requires Ring(t, a, s) && i < |t| && i !in [a] + s && Distinct([a] + s)
    ensures a < |t| && t[a].prev < |t| && i != a && Ring(Appended(t, a, i), a, s + [i])
  {
    LastIs(t, a, s);
    assert ([a] + s)[0] == a;
    var u, r := Appended(t, a, i), s + [i];
    StopIn(a, s, |s|);
    forall k | 0 <= k <= |r| ensures Joined(u, Stop(a, r, k), Stop(a, r, k + 1)) {
      if k <= |s| {
        assert Joined(t, Stop(a, s, k), Stop(a, s, k + 1));
        StopIn(a, s, k);
        StopIn(a, s, k + 1);
        StopIs(a, s, k);
        StopIs(a, s, k + 1);
        StopIs(a, s, |s|);
      }
    }
  }

  lemma AppendOther(t: seq<Link>, a: nat, i: nat, b: nat, r: seq<nat>)
    requires i < |t| && a < |t| && i != a && t[a].prev < |t|
    requires Ring(t, b, r) && i !in [b] + r && a !in [b] + r && t[a].prev !in [b] + r
    ensures Ring(Appended(t, a, i), b, r)
  {
    var u := Appended(t, a, i);
    forall k | 0 <= k <= |r| ensures Joined(u, Stop(b, r, k), Stop(b, r, k + 1)) {
      assert Joined(t, Stop(b, r, k), Stop(b, r, k + 1));
      StopIn(b, r, k);
      StopIn(b, r, k + 1);
    }
  }

  /** A free buffer is appended while no buffer is used. */
  lemma AppendKeeps(t: seq<Link>, free: seq<nat>, k: nat)
    requires Ring(t, USED, []) && Ring(t, FREE, free) && ANCHORS <= k < |t|
    requires Distinct(free) && forall i :: i in free ==> ANCHORS <= i < k
    ensures t[FREE].prev < |t| && t[FREE].prev != k
    ensures Ring(Appended(t, FREE, k), USED, []) && Ring(Appended(t, FREE, k), FREE, free + [k])
  {
    AnchorDistinct(FREE, free);
    LastIs(t, FREE, free);
    StopIn(FREE, free, |free|);
    AppendRing(t, FREE, free, k);
    AppendOther(t, FREE, k, USED, []);
  }
}
