/** The indication handler of kernel/di.c: the data of indications is scattered over the
    receive buffers of an entity. */
module IdiReceive {
  import opened Machine
  import opened IdiEntity
  import opened IdiTransmit

  // ------------------------------------------------------- receive buffers

  ghost predicate Sound(r: seq<RBuffer>) {
    forall b :: b in r ==> b.present ==> b.length <= |b.memory|
  }

  /** Bytes the first n buffers hold. */
  function Capacity(r: seq<RBuffer>, n: nat): nat
    requires n <= |r|
  {
    if n == 0 then 0 else Capacity(r, n - 1) + r[n - 1].length
  }

  lemma {:induction false} CapacityGrows(r: seq<RBuffer>, m: nat, n: nat)
    requires m <= n <= |r|
    ensures Capacity(r, m) <= Capacity(r, n)
  {
    if m < n {
      CapacityGrows(r, m, n - 1);
    }
  }

  lemma {:induction false} SameCapacity(r: seq<RBuffer>, s: seq<RBuffer>, n: nat)
    requires n <= |r| && n <= |s| && forall k :: 0 <= k < n ==> r[k].length == s[k].length
    ensures Capacity(r, n) == Capacity(s, n)
  {
    if n > 0 {
      SameCapacity(r, s, n - 1);
    }
  }

  /** The first n bytes of buffer k hold t from the buffer's start on. */
  ghost predicate Holds(r: seq<RBuffer>, k: nat, n: nat, t: seq<byte>)
    requires k < |r|
  {
    r[k].present ==> n <= |r[k].memory| && Capacity(r, k) + n <= |t|
                     && r[k].memory[..n] == t[Capacity(r, k)..Capacity(r, k) + n]
  }

  /** t has been stored: buffers before cur are full, and cur is filled up to off. */
  ghost predicate Filled(r: seq<RBuffer>, cur: nat, off: nat, t: seq<byte>) {
    && Sound(r) && cur < |r| && off <= r[cur].length && |t| == Capacity(r, cur) + off
    && (forall k :: 0 <= k < cur ==> Holds(r, k, r[k].length, t))
    && Holds(r, cur, off, t)
  }

  /** The first num buffers are t, each up to its length. */
  ghost predicate Delivered(r: seq<RBuffer>, num: nat, t: seq<byte>) {
    && num <= |r| && |t| == Capacity(r, num)
    && forall k :: 0 <= k < num ==> Holds(r, k, r[k].length, t)
  }

  function Contents(r: seq<RBuffer>, num: nat): seq<byte>
    requires num <= |r| && forall k :: 0 <= k < num ==> r[k].length <= |r[k].memory|
  {
    if num == 0 then [] else Contents(r, num - 1) + r[num - 1].memory[..r[num - 1].length]
  }

  /** When no buffer is missing, delivered buffers concatenate to the data. */
  lemma {:induction false} DeliveredIsData(r: seq<RBuffer>, num: nat, t: seq<byte>)
    requires num <= |r| && Capacity(r, num) <= |t|
    requires forall k :: 0 <= k < num ==> r[k].present && Holds(r, k, r[k].length, t)
    ensures forall k :: 0 <= k < num ==> r[k].length <= |r[k].memory|
    ensures Contents(r, num) == t[..Capacity(r, num)]
  {
    hide Holds;
    if num > 0 {
      CapacityNext(r, num - 1);
      hide Capacity;
      DeliveredIsData(r, num - 1, t);
      HeldBuffer(r, num - 1, t);
      Joined(t, Capacity(r, num - 1), Capacity(r, num));
    }
  }

  lemma Joined(t: seq<byte>, a: nat, b: nat)
    requires a <= b <= |t|
    ensures t[..b] == t[..a] + t[a..b]
  {
  }

  lemma CapacityNext(r: seq<RBuffer>, k: nat)
    requires k < |r|
    ensures Capacity(r, k + 1) == Capacity(r, k) + r[k].length
  {
  }

  lemma HeldBuffer(r: seq<RBuffer>, k: nat, t: seq<byte>)
    requires k < |r| && r[k].present && Holds(r, k, r[k].length, t)
    ensures r[k].length <= |r[k].memory| && Capacity(r, k) + r[k].length <= |t|
    ensures r[k].memory[..r[k].length] == t[Capacity(r, k)..Capacity(r, k) + r[k].length]
  {
  }

  /** Data fits behind t.  An empty fragment also needs space: where it would go is looked at. */
  ghost predicate Fits(r: seq<RBuffer>, t: seq<byte>, data: seq<byte>) {
    |t| + |data| <= Capacity(r, |r|) && (data == [] ==> |t| < Capacity(r, |r|))
  }

  lemma NextBuffer(r: seq<RBuffer>, cur: nat, t: seq<byte>)
    requires cur < |r| && Filled(r, cur, r[cur].length, t)
    ensures cur + 1 < |r| ==> Filled(r, cur + 1, 0, t)
    ensures cur + 1 == |r| ==> Delivered(r, |r|, t)
  {
    hide Sound;
    CapacityNext(r, cur);
    hide Capacity;
    if cur + 1 < |r| {
      HoldsNone(r, cur + 1, t);
      hide Holds;
    }
  }

  lemma FilledFits(r: seq<RBuffer>, cur: nat, off: nat, t: seq<byte>)
    requires Filled(r, cur, off, t)
    ensures |t| <= Capacity(r, |r|)
  {
    CapacityNext(r, cur);
    CapacityGrows(r, cur + 1, |r|);
    hide Capacity, Holds, Sound;
  }

  lemma HoldsNone(r: seq<RBuffer>, k: nat, t: seq<byte>)
    requires k < |r| && Capacity(r, k) <= |t|
    ensures Holds(r, k, 0, t)
  {
  }

  lemma HoldsMore(r: seq<RBuffer>, s: seq<RBuffer>, k: nat, t: seq<byte>, d: seq<byte>)
    requires k < |r| == |s| && s[k] == r[k] && Capacity(r, k) == Capacity(s, k)
    requires Holds(r, k, r[k].length, t)
    ensures Holds(s, k, s[k].length, t + d)
  {
    hide Capacity;
    if r[k].present {
      var a, b := Capacity(r, k), Capacity(r, k) + r[k].length;
      assert (t + d)[a..b] == t[a..b];
    }
  }

  lemma HoldsStored(r: seq<RBuffer>, s: seq<RBuffer>, k: nat, off: nat, t: seq<byte>, d: seq<byte>)
    requires k < |r| == |s| && Capacity(r, k) == Capacity(s, k)
    requires Holds(r, k, off, t) && Capacity(r, k) + off == |t|
    requires r[k].present ==> off + |d| <= |r[k].memory|
    requires s[k] == Stored(r[k], off, d)
    ensures Holds(s, k, off + |d|, t + d)
  {
    hide Capacity;
    if r[k].present {
      var a := Capacity(r, k);
      assert (t + d)[a..a + off + |d|] == t[a..a + off] + d;
      assert s[k].memory[..off + |d|] == r[k].memory[..off] + d;
    }
  }

  /** Buffer cur after n more bytes of data. */
  function Stored(b: RBuffer, off: nat, d: seq<byte>): RBuffer
    requires b.present ==> off + |d| <= |b.memory|
  {
    if b.present then b.(memory := Overlay(b.memory, off, d)) else b
  }

  lemma StoreFills(r: seq<RBuffer>, cur: nat, off: nat, t: seq<byte>, d: seq<byte>)
    requires Filled(r, cur, off, t) && off + |d| <= r[cur].length
    ensures r[cur].present ==> off + |d| <= |r[cur].memory|
    ensures Filled(r[cur := Stored(r[cur], off, d)], cur, off + |d|, t + d)
    ensures Capacity(r[cur := Stored(r[cur], off, d)], |r|) == Capacity(r, |r|)
  {
    assert r[cur] in r;
    var s := r[cur := Stored(r[cur], off, d)];
    forall k | 0 <= k <= |r| ensures Capacity(s, k) == Capacity(r, k) {
      SameCapacity(r, s, k);
    }
    hide Capacity;
    HoldsStored(r, s, cur, off, t, d);
    forall k | 0 <= k < cur ensures Holds(s, k, s[k].length, t + d) {
      HoldsMore(r, s, k, t, d);
    }
    hide Holds;
    forall b | b in s ensures b.present ==> b.length <= |b.memory| {
      assert b in r || b == s[cur];
    }
  }

  /** The copying loop: data goes on where t ended.  When the buffers cannot hold it, they end up
      full, and the rest is dropped. */
  method Scatter(e: Entity, data: seq<byte>, ghost t: seq<byte>)
    requires Filled(e.r, e.rCurrent, e.rOffset, t) && |e.r| == e.rNum
    modifies e`r, e`rCurrent, e`rOffset
    ensures e.rCurrent <= e.rNum && |e.r| == |old(e.r)| && Capacity(e.r, |e.r|) == Capacity(old(e.r), |old(e.r)|)
    ensures e.rCurrent < e.rNum ==>
              Filled(e.r, e.rCurrent, e.rOffset, t + data) && (data != [] ==> e.rOffset > 0)
    ensures e.rCurrent == e.rNum ==>
              e.rOffset == 0 && Capacity(e.r, |e.r|) <= |t + data|
              && Delivered(e.r, e.rNum, (t + data)[..Capacity(e.r, |e.r|)])
    ensures Fits(old(e.r), t, data) ==> e.rCurrent < e.rNum
    ensures e.rCurrent == e.rNum <==>
              if data != [] then |t| + |data| > Capacity(old(e.r), |old(e.r)|)
              else old(e.rCurrent) + 1 == e.rNum && old(e.rOffset) == old(e.r)[old(e.rCurrent)].length
    ensures Lengths(e.r) == Lengths(old(e.r)) && Presence(e.r) == Presence(old(e.r))
  {
    hide Filled, Capacity, Delivered;
    var offset := 0;
    var more := true;
    ghost var cap := Capacity(e.r, |e.r|);
    FilledIs(e.r, e.rCurrent, e.rOffset, t);
    assert t + data[..0] == t && data[..|data|] == data;
    while more
      invariant offset <= |data| && (more <==> offset < |data| || (offset == 0 && more))
      invariant !more && data != [] ==> e.rOffset > 0
      invariant |e.r| == e.rNum && Capacity(e.r, |e.r|) == cap && e.rCurrent < e.rNum
      invariant Filled(e.r, e.rCurrent, e.rOffset, t + data[..offset])
      invariant Lengths(e.r) == Lengths(old(e.r)) && Presence(e.r) == Presence(old(e.r))
      invariant data == [] && more ==> e.rCurrent == old(e.rCurrent) && e.rOffset == old(e.rOffset) && e.r == old(e.r)
      invariant data == [] && !more ==>
                  !(old(e.rCurrent) + 1 == e.rNum && old(e.rOffset) == old(e.r)[old(e.rCurrent)].length)
      decreases more, |data| - offset, e.rNum - e.rCurrent
    {
      FilledIs(e.r, e.rCurrent, e.rOffset, t + data[..offset]);
      if e.rOffset == e.r[e.rCurrent].length {
        NextBuffer(e.r, e.rCurrent, t + data[..offset]);
        e.rOffset := 0;
        e.rCurrent := e.rCurrent + 1;
      }
      if e.rCurrent >= e.rNum {
        DeliveredIs(e.r, e.rNum, t + data[..offset]);
        assert (t + data)[..cap] == t + data[..offset];
        break;
      }
      var n := Min(|data| - offset, e.r[e.rCurrent].length - e.rOffset);
      var d := data[offset..offset + n];
      assert t + data[..offset] + d == t + data[..offset + n];
      CopyPiece(e, d, t + data[..offset]);
      offset := offset + n;
      more := offset < |data|;
    }
    if e.rCurrent < e.rNum {
      FilledFits(e.r, e.rCurrent, e.rOffset, t + data);
    }
  }

  /** The copy into the current buffer, if it has memory. */
  method CopyPiece(e: Entity, d: seq<byte>, ghost t: seq<byte>)
    requires Filled(e.r, e.rCurrent, e.rOffset, t) && e.rCurrent < |e.r|
    requires e.rOffset + |d| <= e.r[e.rCurrent].length
    modifies e`r, e`rOffset
    ensures Filled(e.r, e.rCurrent, e.rOffset, t + d) && e.rOffset == old(e.rOffset) + |d|
    ensures |e.r| == |old(e.r)| && Capacity(e.r, |e.r|) == Capacity(old(e.r), |old(e.r)|)
    ensures Lengths(e.r) == Lengths(old(e.r)) && Presence(e.r) == Presence(old(e.r))
  {
    hide Filled, Capacity;
    StoreFills(e.r, e.rCurrent, e.rOffset, t, d);
    ghost var r0 := e.r;
    if e.r[e.rCurrent].present {
      e.r := e.r[e.rCurrent := Stored(e.r[e.rCurrent], e.rOffset, d)];
    }
    assert e.r == r0[e.rCurrent := Stored(r0[e.rCurrent], e.rOffset, d)];
    e.rOffset := e.rOffset + |d|;
  }

  lemma DeliveredIs(r: seq<RBuffer>, num: nat, t: seq<byte>)
    requires Delivered(r, num, t)
    ensures num <= |r| && |t| == Capacity(r, num)
  {
  }

  lemma FilledIs(r: seq<RBuffer>, cur: nat, off: nat, t: seq<byte>)
    requires Filled(r, cur, off, t)
    ensures cur < |r| && off <= r[cur].length && |t| == Capacity(r, cur) + off
  {
  }

  function Lengths(r: seq<RBuffer>): seq<word> {
    seq(|r|, k requires 0 <= k < |r| => r[k].length)
  }

  function Presence(r: seq<RBuffer>): seq<bool> {
    seq(|r|, k requires 0 <= k < |r| => r[k].present)
  }

  // --------------------------------------------------- the indication handler

  /** What the application answers to a look-ahead: receive not ready, or its buffers. */
  datatype Answer = Answer(rnr: byte, buffers: seq<RBuffer>)

  const NOT_READY := 1
  const DISCARD := 2

  ghost predicate Proper(a: Answer) {
    a.rnr <= DISCARD && |a.buffers| < IDLE && Sound(a.buffers)
  }

  /** A callback of the application: the look-ahead, or the completion. */
  datatype Call = LookAhead(ind: byte, complete: byte, length: word) | Received(ind: byte, num: byte)

  /** Between two indications: no packet, a packet that is dropped, or one stored so far. */
  ghost predicate Idle(e: Entity)
    reads e
  {
    e.rCurrent == IDLE
  }

  ghost predicate Discarding(e: Entity)
    reads e
  {
    e.rCurrent != IDLE && e.rnr == DISCARD
  }

  ghost predicate Receiving(e: Entity, t: seq<byte>)
    reads e
  {
    e.rCurrent != IDLE && e.rnr == 0 && |e.r| == e.rNum && Filled(e.r, e.rCurrent, e.rOffset, t)
  }

  predicate Accepts(a: Answer) {
    a.rnr == 0 && a.buffers != []
  }

  /** isdn_ind for an entity whose Id is known; `data` is what the indication carries, and the
      identifier e.mInd says that more of the packet follows. */
  method Indicate(e: Entity, ind: byte, ch: byte, data: seq<byte>, mInd: byte, mLength: word, answer: Answer, ghost t: seq<byte>)
    returns (c: byte, calls: seq<Call>)
    requires Idle(e) || Discarding(e) || Receiving(e, t)
    requires Idle(e) ==> Proper(answer) && t == [] && (Accepts(answer) ==> Fits(answer.buffers, [], data))
    requires Receiving(e, t) ==> Fits(e.r, t, data)
    modifies e
    ensures e.mInd == old(e.mInd) && e.indCh == ch && (c != 0 <==> c == 1)
    ensures var more := ind == e.mInd;
            var accepted := old(Receiving(e, t)) || (old(Idle(e)) && Accepts(answer));
            var dropped := old(Discarding(e)) || (old(Idle(e)) && answer.rnr == DISCARD);
            && (c == 1 <==> old(Idle(e)) && answer.rnr == NOT_READY)
            && (accepted && more ==> Receiving(e, t + data))
            && (accepted && !more ==> Idle(e) && e.complete == 2 && e.ind == ind && Delivered(e.r, e.rNum, t + data))
            && (dropped && more ==> Discarding(e))
            && (!accepted && !(dropped && more) ==> Idle(e))
            && calls == (if old(Idle(e)) then [LookAhead(if more then mInd else ind, if more then 0 else 1, mLength)] else [])
                        + (if accepted && !more then [Received(ind, e.rNum)] else [])
    ensures var r := if old(Idle(e)) then answer.buffers else old(e.r);
            old(Idle(e)) || old(Receiving(e, t)) ==>
              && |e.r| == |r| && Presence(e.r) == Presence(r)
              && (ind == e.mInd ==> Lengths(e.r) == Lengths(r) && Capacity(e.r, |e.r|) == Capacity(r, |r|))
  {
    hide Filled, Capacity, Sound, Delivered, Holds;
    calls := [];
    e.indCh := ch;
    if e.rCurrent == IDLE {
      e.complete, e.ind := if ind == e.mInd then 0 else 1, if ind == e.mInd then mInd else ind;
      e.rLength := mLength;
      calls := [LookAhead(e.ind, e.complete, e.rLength)];
      // the callback
      e.rnr, e.r, e.rNum := answer.rnr, answer.buffers, |answer.buffers|;
      if e.rnr == NOT_READY {
        e.rnr := 0;
        return 1, calls;
      }
      if e.rnr == 0 && e.rNum == 0 {
        return 0, calls;
      }
      e.rCurrent, e.rOffset := 0, 0;
      if e.rnr == 0 {
        NothingFilled(e.r);
      }
    }
    c := 0;
    if e.rnr == DISCARD {
      if ind != e.mInd {
        e.rCurrent, e.rnr := IDLE, 0;
      }
      return;
    }
    Scatter(e, data, t);
    FilledIs(e.r, e.rCurrent, e.rOffset, t + data);
    if ind != e.mInd {
      FinishDelivers(e.r, e.rCurrent, e.rOffset, t + data);
      e.r := e.r[e.rCurrent := e.r[e.rCurrent].(length := e.rOffset)];
      if e.rOffset != 0 {
        e.rCurrent := e.rCurrent + 1;
      }
      e.rNum := e.rCurrent;
      e.rCurrent, e.ind, e.complete := IDLE, ind, 2;
      calls := calls + [Received(ind, e.rNum)];
    }
  }

  lemma NothingFilled(r: seq<RBuffer>)
    requires Sound(r) && r != []
    ensures Filled(r, 0, 0, [])
  {
  }

  lemma FinishDelivers(r: seq<RBuffer>, cur: nat, off: nat, t: seq<byte>)
    requires Filled(r, cur, off, t)
    ensures var s := r[cur := r[cur].(length := off)]; var num := if off != 0 then cur + 1 else cur;
            Delivered(s, num, t)
  {
    var s := r[cur := r[cur].(length := off)];
    forall k | 0 <= k <= cur ensures Capacity(s, k) == Capacity(r, k) {
      SameCapacity(r, s, k);
    }
    CapacityNext(s, cur);
    hide Capacity, Sound;
    forall k | 0 <= k < cur ensures Holds(s, k, s[k].length, t) {
      HoldsMore(r, s, k, t, []);
      assert t + [] == t;
    }
  }
}
