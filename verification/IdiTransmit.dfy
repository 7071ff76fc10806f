/** Transmit buffers of an entity (kernel/di.c): the list of X buffers is cut into request
    fragments of at most 270 bytes. */
module IdiTransmit {
  import opened Machine

  const FRAGMENT := 270
  type Buffers = seq<seq<byte>>

  function Flatten(x: Buffers): seq<byte> {
    if x == [] then [] else x[0] + Flatten(x[1..])
  }

  /** Place (i, off) in a buffer list: buffer i from offset off on. */
  predicate Place(x: Buffers, i: nat, off: nat) {
    i <= |x| && (if i == |x| then off == 0 else off <= |x[i]|)
  }

  /** What lies from a place on. */
  function Rest(x: Buffers, i: nat, off: nat): seq<byte>
    requires Place(x, i, off)
  {
    if i == |x| then [] else x[i][off..] + Flatten(x[i + 1..])
  }

  /** A piece of the data, and the place after it. */
  datatype Cut = Cut(data: seq<byte>, i: nat, off: nat)

  /** The piece of at most `room` bytes the copying loop takes; buffers that end with it are
      left behind, but no buffer after it is looked at once the room is used up. */
  function Take(x: Buffers, i: nat, off: nat, room: nat): (c: Cut)
    requires Place(x, i, off)
    ensures Place(x, c.i, c.off) && i <= c.i
    decreases |x| - i
  {
    if i == |x| || room == 0 then Cut([], i, off)
    else
      var n := Min(room, |x[i]| - off);
      if off + n < |x[i]| then Cut(x[i][off..off + n], i, off + n)
      else
        var c := Take(x, i + 1, 0, room - n);
        Cut(x[i][off..off + n] + c.data, c.i, c.off)
  }

  lemma RestFromStart(x: Buffers, i: nat)
    requires i <= |x|
    ensures Place(x, i, 0) && Rest(x, i, 0) == Flatten(x[i..])
  {
    if i < |x| {
      assert x[i..][1..] == x[i + 1..] && x[i][0..] == x[i];
    }
  }

  /** A piece is what comes first; while buffers are left it fills the room. */
  lemma {:induction false} TakeIsFirst(x: Buffers, i: nat, off: nat, room: nat)
    requires Place(x, i, off)
    ensures var c := Take(x, i, off, room);
            && c.data + Rest(x, c.i, c.off) == Rest(x, i, off)
            && |c.data| <= room && (c.i < |x| ==> |c.data| == room)
    decreases |x| - i
  {
    hide Take, Rest, Flatten;
    if i < |x| && room > 0 {
      var n := Min(room, |x[i]| - off);
      TakeStep(x, i, off, room);
      if off + n < |x[i]| {
        Inside(x[i], off, n, Flatten(x[i + 1..]));
      } else {
        TakeIsFirst(x, i + 1, 0, room - n);
        RestFromStart(x, i + 1);
        var c := Take(x, i + 1, 0, room - n);
        Associative(x[i][off..], c.data, Rest(x, c.i, c.off));
      }
    } else {
      TakeNone(x, i, off, room);
      assert [] + Rest(x, i, off) == Rest(x, i, off);
    }
  }

  lemma TakeNone(x: Buffers, i: nat, off: nat, room: nat)
    requires Place(x, i, off) && (i == |x| || room == 0)
    ensures Take(x, i, off, room) == Cut([], i, off)
  {
  }

  /** One step of the copying loop. */
  lemma TakeStep(x: Buffers, i: nat, off: nat, room: nat)
    requires Place(x, i, off) && i < |x| && room > 0
    ensures var n := Min(room, |x[i]| - off);
            && Rest(x, i, off) == x[i][off..] + Flatten(x[i + 1..])
            && (off + n < |x[i]| ==>
                  && Take(x, i, off, room) == Cut(x[i][off..off + n], i, off + n) && n == room
                  && Rest(x, i, off + n) == x[i][off + n..] + Flatten(x[i + 1..]))
            && (off + n == |x[i]| ==>
                  && x[i][off..off + n] == x[i][off..]
                  && var c := Take(x, i + 1, 0, room - n);
                     Take(x, i, off, room) == Cut(x[i][off..] + c.data, c.i, c.off))
  {
    hide Flatten;
    assert x[i][off..|x[i]|] == x[i][off..];
  }

  lemma Inside(s: seq<byte>, off: nat, n: nat, rest: seq<byte>)
    requires off + n <= |s|
    ensures s[off..off + n] + (s[off + n..] + rest) == s[off..] + rest
  {
  }

  lemma Associative(a: seq<byte>, b: seq<byte>, c: seq<byte>)
    ensures a + b + c == a + (b + c)
  {
  }

  /** A piece that ends inside the list ends before nothing but empty buffers exactly when all
      the data is taken; they are there only when the last buffer is empty. */
  lemma {:induction false} TakeStops(x: Buffers, i: nat, off: nat, room: nat)
    requires Place(x, i, off) && room > 0 && (i < |x| ==> off < |x[i]| || off == 0)
    ensures var c := Take(x, i, off, room);
            && (c.i < |x| ==> c.off < |x[c.i]| || c.off == 0)
            && (c.i < |x| && Rest(x, c.i, c.off) == [] ==> |x[|x| - 1]| == 0)
            && (c.i == |x| && |c.data| == room ==> |x| > 0 && |x[|x| - 1]| > 0)
    decreases |x| - i
  {
    if i < |x| {
      var n := Min(room, |x[i]| - off);
      if off + n == |x[i]| {
        if room == n {
          if i + 1 < |x| {
            EmptyTail(x, i + 1);
          }
        } else {
          TakeStops(x, i + 1, 0, room - n);
        }
      }
    }
  }

  lemma {:induction false} EmptyTail(x: Buffers, i: nat)
    requires i < |x|
    ensures Rest(x, i, 0) == [] ==> |x[|x| - 1]| == 0
    decreases |x| - i
  {
    if i + 1 < |x| {
      RestFromStart(x, i + 1);
      EmptyTail(x, i + 1);
    }
  }

  // the copying loop of pr_out
  method Gather(x: Buffers, xCurrent: byte, xOffset: word) returns (data: seq<byte>, i: byte, off: word)
    requires |x| < 0x100 && (forall b :: b in x ==> |b| < 0x1_0000) && Place(x, xCurrent, xOffset)
    ensures Cut(data, i, off) == Take(x, xCurrent, xOffset, FRAGMENT) && |data| <= FRAGMENT
  {
    hide Rest, Flatten, Take;
    data, i, off := [], xCurrent, xOffset;
    ghost var c := Take(x, xCurrent, xOffset, FRAGMENT);
    assert [] + c.data == c.data;
    while i < |x| && |data| < FRAGMENT
      invariant |data| <= FRAGMENT && Place(x, i, off)
      invariant var k := Take(x, i, off, FRAGMENT - |data|);
                c == Cut(data + k.data, k.i, k.off)
      decreases |x| - i, FRAGMENT - |data|
    {
      TakeStep(x, i, off, FRAGMENT - |data|);
      assert x[i] in x;
      var n := Min(FRAGMENT - |data|, |x[i]| - off);
      var d := x[i][off..off + n];
      if off + n == |x[i]| {
        Associative(data, d, Take(x, i + 1, 0, FRAGMENT - |data| - n).data);
      } else {
        TakeNone(x, i, off + n, 0);
        assert data + d + [] == data + d;
      }
      data := data + d;
      off := off + n;
      if off == |x[i]| {
        i, off := i + 1, 0;
      }
    }
    TakeNone(x, i, off, FRAGMENT - |data|);
    assert data + [] == data;
  }

  // -------------------------------------------------------------- whole requests

  /** The fragments of a request that is chained: one after the other while buffers are left. */
  function Fragments(x: Buffers, i: nat, off: nat): (fs: seq<seq<byte>>)
    requires Place(x, i, off)
    ensures fs != []
    decreases |Rest(x, i, off)|
  {
    var c := Take(x, i, off, FRAGMENT);
    if c.i == |x| then [c.data] else
      TakeIsFirst(x, i, off, FRAGMENT);
      [c.data] + Fragments(x, c.i, c.off)
  }

  lemma {:induction false} FragmentsJoin(x: Buffers, i: nat, off: nat)
    requires Place(x, i, off)
    ensures Flatten(Fragments(x, i, off)) == Rest(x, i, off)
    decreases |Rest(x, i, off)|
  {
    var c := Take(x, i, off, FRAGMENT);
    TakeIsFirst(x, i, off, FRAGMENT);
    hide Take;
    if c.i == |x| {
      assert c.data + [] == c.data;
      assert Flatten([c.data]) == c.data + Flatten([c.data][1..]);
    } else {
      hide Rest;
      FragmentsJoin(x, c.i, c.off);
      Prepended(c.data, Fragments(x, c.i, c.off));
    }
  }

  /** The fragments of a chained request are, one after the other, the data; each but the last
      has 270 bytes.  The last is empty only when the data ends with a full fragment and is
      followed by an empty buffer, or when there is no data. */
  lemma {:induction false} FragmentsAreTheData(x: Buffers, i: nat, off: nat)
    requires Place(x, i, off) && (i < |x| ==> off < |x[i]| || off == 0)
    ensures var fs := Fragments(x, i, off); var n := |Rest(x, i, off)|;
            && Flatten(fs) == Rest(x, i, off)
            && (forall k :: 0 <= k < |fs| - 1 ==> |fs[k]| == FRAGMENT) && |fs[|fs| - 1]| <= FRAGMENT
            && (fs[|fs| - 1] == [] <==> n == 0 || (n % FRAGMENT == 0 && |x[|x| - 1]| == 0))
    decreases |Rest(x, i, off)|
  {
    var c := Take(x, i, off, FRAGMENT);
    TakeIsFirst(x, i, off, FRAGMENT);
    TakeStops(x, i, off, FRAGMENT);
    hide Take;
    if c.i == |x| {
      assert Rest(x, c.i, c.off) == [];
      assert c.data + [] == c.data;
      assert Flatten([c.data]) == c.data + Flatten([c.data][1..]);
      OnePiece(|c.data|);
    } else {
      hide Rest;
      FragmentsAreTheData(x, c.i, c.off);
      Prepended(c.data, Fragments(x, c.i, c.off));
      OneMore(|Rest(x, i, off)|, |Rest(x, c.i, c.off)|);
    }
  }

  lemma OnePiece(n: nat)
    requires n <= FRAGMENT
    ensures n % FRAGMENT == 0 <==> n == 0 || n == FRAGMENT
  {
  }

  lemma OneMore(n: nat, m: nat)
    requires n == FRAGMENT + m
    ensures n % FRAGMENT == m % FRAGMENT
  {
  }

  lemma Prepended(f: seq<byte>, fs: seq<seq<byte>>)
    requires fs != []
    ensures var gs := [f] + fs;
            && Flatten(gs) == f + Flatten(fs) && gs[|gs| - 1] == fs[|fs| - 1] && |gs| == |fs| + 1
            && gs[0] == f && forall k :: 0 < k < |gs| ==> gs[k] == fs[k - 1]
  {
    assert ([f] + fs)[1..] == fs;
  }
}
