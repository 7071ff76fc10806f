/** Fragmentation and reassembly of kernel/di.c against each other: a card that hands back every
    request fragment as an indication. */
module IdiEcho {
  import opened Machine
  import opened IdiEntity
  import opened IdiTransmit
  import opened IdiReceive

  /** Space for the data; one byte more when its last fragment may be empty. */
  ghost predicate Enough(x: Buffers, r: seq<RBuffer>) {
    var n := |Flatten(x)|;
    n < Capacity(r, |r|) || (n == Capacity(r, |r|) && x != [] && |x[|x| - 1]| > 0)
  }

  lemma {:induction false} NoDataLeft(x: Buffers, i: nat, off: nat)
    requires i < |x| && Place(x, i, off) && (off < |x[i]| || off == 0) && Rest(x, i, off) == []
    ensures |x[|x| - 1]| == 0
    decreases |x| - i
  {
    if i + 1 < |x| {
      RestFromStart(x, i + 1);
      NoDataLeft(x, i + 1, 0);
    }
  }

  /** The fragment taken next, after t has been delivered, fits. */
  lemma NextFits(x: Buffers, r: seq<RBuffer>, i: nat, off: nat, t: seq<byte>)
    requires Place(x, i, off) && Enough(x, r) && t + Rest(x, i, off) == Flatten(x)
    requires (i < |x| ==> off < |x[i]| || off == 0) && (i == |x| ==> x == [])
    ensures var c := Take(x, i, off, FRAGMENT);
            && Fits(r, t, c.data) && t + c.data + Rest(x, c.i, c.off) == Flatten(x)
            && (c.i < |x| ==> |c.data| == FRAGMENT && (c.off < |x[c.i]| || c.off == 0))
            && (c.i == |x| ==> t + c.data == Flatten(x))
  {
    var c := Take(x, i, off, FRAGMENT);
    TakeIsFirst(x, i, off, FRAGMENT);
    TakeStops(x, i, off, FRAGMENT);
    hide Take, Flatten, Capacity;
    Associative(t, c.data, Rest(x, c.i, c.off));
    if c.data == [] && i < |x| {
      assert c.i == |x| && Rest(x, i, off) == [];
      NoDataLeft(x, i, off);
    }
    if c.i == |x| {
      assert t + c.data + [] == t + c.data;
    }
  }

  /** Every fragment of a request is delivered, chained ones with the chaining indication of the
      entity.  Afterwards the receive buffers are the transmit data, and the entity is idle. */
  method Echo(e: Entity, x: Buffers, last: byte, ch: byte, length: word, answer: Answer)
    requires Idle(e) && e.mInd != last && Proper(answer) && Accepts(answer)
    requires |x| < 0x100 && (forall b :: b in x ==> |b| < 0x1_0000) && Enough(x, answer.buffers)
    requires forall b :: b in answer.buffers ==> b.present
    modifies e
    ensures Idle(e) && e.rNum <= |e.r| && (forall k :: 0 <= k < e.rNum ==> e.r[k].length <= |e.r[k].memory|)
    ensures Contents(e.r, e.rNum) == Flatten(x)
  {
    hide Filled, Capacity, Sound, Delivered, Holds, Take, Flatten, Rest, Fits;
    ghost var t: seq<byte> := [];
    var i: byte, off: word := 0, 0;
    Start(x);
    var more := true;
    while more
      invariant Place(x, i, off) && t + Rest(x, i, off) == Flatten(x)
      invariant more ==> (if i == |x| then x == [] else off < |x[i]| || off == 0)
      invariant Idle(e) && more ==> t == [] && e.mInd == old(e.mInd)
      invariant !Idle(e) ==> more && Receiving(e, t) && Enough(x, e.r) && Presence(e.r) == Presence(answer.buffers)
      invariant !more ==> Idle(e) && Delivered(e.r, e.rNum, t)
      invariant !more ==> t == Flatten(x)
      invariant !more ==> Presence(e.r) == Presence(answer.buffers)
      invariant e.mInd == old(e.mInd)
      decreases |Flatten(x)| - |t|, more
    {
      NextFits(x, if Idle(e) then answer.buffers else e.r, i, off, t);
      var data;
      data, i, off := Gather(x, i, off);
      more := i < |x|;
      var _, _ := Indicate(e, if more then e.mInd else last, ch, data, e.mInd, length, answer, t);
      t := t + data;
    }
    AllDelivered(e.r, e.rNum, t, answer.buffers);
  }

  lemma AllDelivered(r: seq<RBuffer>, num: nat, t: seq<byte>, r0: seq<RBuffer>)
    requires Delivered(r, num, t) && Presence(r) == Presence(r0) && forall b :: b in r0 ==> b.present
    ensures num <= |r| && (forall k :: 0 <= k < num ==> r[k].length <= |r[k].memory|) && Contents(r, num) == t
  {
    forall k | 0 <= k < num ensures r[k].present && Holds(r, k, r[k].length, t) {
      assert Presence(r)[k] == Presence(r0)[k] && r0[k] in r0;
    }
    hide Holds, Capacity;
    DeliveredIsData(r, num, t);
    assert t[..|t|] == t;
  }

  lemma Start(x: Buffers)
    ensures Place(x, 0, 0) && [] + Rest(x, 0, 0) == Flatten(x)
  {
    RestFromStart(x, 0);
    assert x[0..] == x;
  }
}
