/** What a pass of pr_out (kernel/di.c) makes of one entity whose request it takes from the queue:
    the requests it hands to the card, and the tables and flags behind it. */
module IdiRequests {
  import opened Machine
  import opened IdiTransmit
  import opened IdiCompletion
  import opened IdiTables
  import opened IdiPass

  /** The requests made for an entity. */
  function RequestsFor(turns: seq<Served>, no: byte): seq<Request> {
    if turns == [] then []
    else (if turns[0].no == no && turns[0].request.Some? then [turns[0].request.value] else [])
         + RequestsFor(turns[1..], no)
  }

  lemma {:induction false} DataOfRequests(turns: seq<Served>, no: byte)
    ensures var rs, ds := RequestsFor(turns, no), DataFor(turns, no);
            |rs| == |ds| && forall k :: 0 <= k < |rs| ==> rs[k].data == ds[k]
  {
    if turns != [] {
      DataOfRequests(turns[1..], no);
    }
  }

  /** The entity is in the queue once, and the pass empties the queue. */
  ghost predicate Serves(en: Engine, refs: seq<word>, ready: nat, no: byte) {
    && Fit(en) && ready <= |refs| && en.outs[no].Some? && Once(en.queue, no)
    && Pass(en, refs, ready).queue == []
  }

  lemma FirstTurn(en: Engine, refs: seq<word>, ready: nat, no: byte)
    requires Serves(en, refs, ready, no)
    ensures en.queue != [] && ready > 0 && Fit(Turn(en, refs[0])) && ready - 1 <= |Behind(en, refs)|
    ensures var next, rest, o := Turn(en, refs[0]), Behind(en, refs), en.outs[no].value;
            var first := if en.queue[0] == no then [RequestOf(o)] else [];
            && Pass(en, refs, ready) == Pass(next, rest, ready - 1)
            && RequestsFor(Turns(en, refs, ready), no) == first + RequestsFor(Turns(next, rest, ready - 1), no)
            && (en.queue[0] != no ==> Serves(next, rest, ready - 1, no) && next.outs[no] == en.outs[no])
            && (en.queue[0] == no ==>
                  && next.outs[no] == Some(Advanced(o))
                  && (IsChained(o) ==> Serves(next, rest, ready - 1, no))
                  && (!IsChained(o) ==> multiset(next.queue)[no] == 0))
  {
    hide Turn, IsChained, RequestOf, Advanced, Fit;
    OnceInQueue(en.queue, no);
    StillQueued(en, refs, ready);
    TurnsFirst(en, refs, ready);
    QueueAfter(en, refs[0], no);
    TurnKeeps(en, refs[0]);
    var turns := Turns(Turn(en, refs[0]), Behind(en, refs), ready - 1);
    assert ([ServedBy(en)] + turns)[1..] == turns;
  }

  lemma {:induction false} NoRequests(en: Engine, refs: seq<word>, ready: nat, no: byte)
    requires Fit(en) && ready <= |refs| && multiset(en.queue)[no] == 0
    ensures RequestsFor(Turns(en, refs, ready), no) == []
  {
    NotServed(en, refs, ready, no);
    DataOfRequests(Turns(en, refs, ready), no);
  }

  /** Every request of the entity carries its Id and its channel.  The last one carries its request
      code, and every one before it the chaining code. */
  lemma {:induction false} RequestCodes(en: Engine, refs: seq<word>, ready: nat, no: byte)
    requires Serves(en, refs, ready, no)
    ensures var o, rs := en.outs[no].value, RequestsFor(Turns(en, refs, ready), no);
            && rs != []
            && forall k :: 0 <= k < |rs| ==>
                 rs[k].id == o.id && rs[k].ch == o.ch && rs[k].req == if k == |rs| - 1 then o.req else o.mInd
    decreases ready
  {
    hide Turn, Turns, Pass, Once, Behind, IsChained;
    FirstTurn(en, refs, ready, no);
    var next, rest, o := Turn(en, refs[0]), Behind(en, refs), en.outs[no].value;
    if en.queue[0] != no {
      RequestCodes(next, rest, ready - 1, no);
    } else if IsChained(o) {
      ChainedCode(o);
      RequestCodes(next, rest, ready - 1, no);
    } else {
      NoRequests(next, rest, ready - 1, no);
    }
  }

  /** So the requests of an entity are its fragments in order: all of them when it chains, the
      first one alone when it does not. */
  lemma RequestsAre(en: Engine, refs: seq<word>, ready: nat, no: byte)
    requires Serves(en, refs, ready, no)
    ensures var o, rs := en.outs[no].value, RequestsFor(Turns(en, refs, ready), no);
            var fs := Fragments(o.x, o.i, o.off); var n := if Chains(o) then |fs| else 1;
            && 1 <= |rs| == n <= |fs|
            && forall k :: 0 <= k < n ==> rs[k] == Request(fs[k], o.id, o.ch, if k == n - 1 then o.req else o.mInd)
  {
    hide Turn, Turns, Pass, Once, Fragments;
    var o := en.outs[no].value;
    RequestCodes(en, refs, ready, no);
    RequestsAreFragments(en, refs, ready, no);
    DataOfRequests(Turns(en, refs, ready), no);
    FirstFragment(o);
  }

  // ------------------------------------------------------------ behind it

  /** What the adapter keeps about one entity. */
  datatype Note = Note(kind: byte, waiting: bool, ref: Option<word>, removing: bool)

  ghost function NoteOf(en: Engine, no: byte): Note
    requires Fit(en)
  {
    Note(en.types[no], no in en.tables.waiting, if no in en.refs then Some(en.refs[no]) else None, en.pending[no])
  }

  lemma NoteKept(en: Engine, ref: word, no: byte)
    requires Fit(en) && en.queue != [] && (en.queue[0] != no || en.outs[no].None?)
    ensures NoteOf(Turn(en, ref), no) == NoteOf(en, no)
  {
    hide Advanced, IsChained;
  }

  /** The entity's own turn: an ASSIGN is noted with its kind and its reference, and the last
      fragment of a REMOVE with the flag. */
  lemma NoteMade(en: Engine, ref: word, no: byte)
    requires Fit(en) && en.queue != [] && en.queue[0] == no && en.outs[no].Some?
    ensures var o, n := en.outs[no].value, NoteOf(en, no);
            NoteOf(Turn(en, ref), no)
            == if o.id % 0x20 == 0 then Note(o.id, true, Some(ref), n.removing)
               else n.(removing := n.removing || (!IsChained(o) && o.req == 0xff))
  {
    hide Advanced, IsChained;
  }

  lemma {:induction false} NoteStays(en: Engine, refs: seq<word>, ready: nat, no: byte)
    requires Fit(en) && ready <= |refs| && multiset(en.queue)[no] == 0
    ensures NoteOf(Pass(en, refs, ready), no) == NoteOf(en, no)
    ensures Pass(en, refs, ready).outs[no] == en.outs[no]
    decreases ready
  {
    hide Turn, NoteOf;
    NotServed(en, refs, ready, no);
    if en.queue != [] && ready > 0 {
      assert en.queue[0] in multiset(en.queue);
      NoteKept(en, refs[0], no);
      QueueAfter(en, refs[0], no);
      NoteStays(Turn(en, refs[0]), Behind(en, refs), ready - 1, no);
    }
  }

  /** The chaining code that an entity has once its ASSIGN is sent: 9 for a data link, 1 for a
      network connection, a task and the management, and none for other kinds. */
  function CodeAfter(o: Out): byte {
    if o.id % 0x20 != 0 then o.mInd else if o.id == 0x60 then 9 else if o.id in {0x20, 0x80, 0xe0} then 1 else 0
  }

  /** The final part is sent and none is queued; no return code is awaited for an ASSIGN. */
  predicate AssignSent(before: byte, more: byte) {
    Fields(more, before % 0x10, false, true, Has(before, XBUSY))
  }

  /** An entity with an Id keeps its chaining code, and a REMOVE is pending once its last fragment
      is sent; an entity that asks for an Id waits for the answer, with its kind and a reference of
      one of the slots noted. */
  predicate Noted(o: Out, n: Note, p: Option<Out>, m: Note, refs: seq<word>) {
    && p.Some? && SameRequest(o, p.value) && p.value.mInd == CodeAfter(o)
    && if o.id % 0x20 == 0 then AssignSent(o.more, p.value.more) && m.ref.Some? && m.ref.value in refs && m == Note(o.id, true, m.ref, n.removing)
       else m == n.(removing := n.removing || o.req == 0xff)
  }

  /** After a pass that took the request of an entity. */
  lemma {:induction false} EntityAfter(en: Engine, refs: seq<word>, ready: nat, no: byte)
    requires Serves(en, refs, ready, no)
    ensures var r := Pass(en, refs, ready); Noted(en.outs[no].value, NoteOf(en, no), r.outs[no], NoteOf(r, no), refs)
    decreases ready
  {
    hide Turn, Turns, Pass, Behind, Once, IsChained, NoteOf, CodeAfter, Noted, Advanced, RequestOf, RequestsFor;
    FirstTurn(en, refs, ready, no);
    var next, rest, o := Turn(en, refs[0]), Behind(en, refs), en.outs[no].value;
    var r := Pass(en, refs, ready);
    if en.queue[0] != no {
      NoteKept(en, refs[0], no);
      EntityAfter(next, rest, ready - 1, no);
      NotedSooner(o, NoteOf(en, no), r.outs[no], NoteOf(r, no), en, refs);
    } else if IsChained(o) {
      EntityAfter(next, rest, ready - 1, no);
      NotedSooner(Advanced(o), NoteOf(next, no), r.outs[no], NoteOf(r, no), en, refs);
      NotedChained(en, refs, r.outs[no], NoteOf(r, no));
    } else {
      NoteStays(next, rest, ready - 1, no);
      NotedAtOnce(en, refs, no);
    }
  }

  lemma NotedSooner(o: Out, n: Note, p: Option<Out>, m: Note, en: Engine, refs: seq<word>)
    requires Fit(en) && en.queue != [] && refs != [] && Noted(o, n, p, m, Behind(en, refs))
    ensures Noted(o, n, p, m, refs)
  {
    hide CodeAfter, SameRequest, AssignSent;
  }

  lemma NotedChained(en: Engine, refs: seq<word>, p: Option<Out>, m: Note)
    requires Fit(en) && en.queue != [] && refs != [] && en.outs[en.queue[0]].Some?
    requires var o := en.outs[en.queue[0]].value;
             IsChained(o) && Noted(Advanced(o), NoteOf(Turn(en, refs[0]), en.queue[0]), p, m, refs)
    ensures Noted(en.outs[en.queue[0]].value, NoteOf(en, en.queue[0]), p, m, refs)
  {
    hide NoteOf, Turn, AssignSent, Advanced;
    NoteMade(en, refs[0], en.queue[0]);
    AdvancedCode(en.outs[en.queue[0]].value);
  }

  lemma NotedAtOnce(en: Engine, refs: seq<word>, no: byte)
    requires Fit(en) && en.queue != [] && refs != [] && en.queue[0] == no && en.outs[no].Some? && !IsChained(en.outs[no].value)
    ensures Noted(en.outs[no].value, NoteOf(en, no), Some(Advanced(en.outs[no].value)), NoteOf(Turn(en, refs[0]), no), refs)
  {
    hide NoteOf, Turn, AssignSent, Advanced;
    NoteMade(en, refs[0], no);
    AdvancedCode(en.outs[no].value);
  }

  lemma AdvancedCode(o: Out)
    requires Place(o.x, o.i, o.off)
    ensures var p := Advanced(o); SameRequest(o, p) && p.mInd == CodeAfter(o) && (IsChained(o) ==> o.id % 0x20 != 0 && CodeAfter(p) == CodeAfter(o))
    ensures o.id % 0x20 == 0 ==> AssignSent(o.more, Advanced(o).more)
  {
    var (p, f, b) := (Has(o.more, XMOREP), Has(o.more, XMOREF), Has(o.more, XBUSY));
    SetFields(o.more, Count(o.more), p, f, b);
    ClearFields(Set(o.more, XMOREF), Count(o.more), p, true, b);
    hide Has, Set, Clear;
  }

  // ------------------------------------------------- the return codes awaited

  /** n fragments are sent, the last one as the final part. */
  function Sending(n: nat): (es: seq<Event>)
    ensures |es| == n
  {
    seq(n, i requires 0 <= i < n => Send(i == n - 1))
  }

  lemma SendingFirst(n: nat)
    requires n > 0
    ensures Sending(n) == [Send(n == 1)] + Sending(n - 1)
  {
  }

  lemma {:induction false} MoreAppend(more: byte, a: seq<Event>, b: seq<Event>)
    ensures More(more, a + b) == More(More(more, a), b)
  {
    if b == [] {
      assert a + b == a;
    } else {
      MoreAppend(more, a, b[..|b| - 1]);
      assert (a + b)[..|a + b| - 1] == a + b[..|b| - 1];
    }
  }

  lemma OneSend(more: byte, last: bool)
    ensures More(more, [Send(last)]) == Sent(more, last)
  {
    assert [Send(last)][..0] == [];
    assert More(more, []) == more;
  }

  /** For the entity's More byte a pass is the sending of as many fragments as it made requests. */
  lemma {:induction false} PassIsSending(en: Engine, refs: seq<word>, ready: nat, no: byte)
    requires Serves(en, refs, ready, no) && en.outs[no].value.id % 0x20 != 0
    ensures var r := Pass(en, refs, ready).outs[no];
            r.Some? && r.value.more == More(en.outs[no].value.more, Sending(|RequestsFor(Turns(en, refs, ready), no)|))
    decreases ready
  {
    hide Turn, Turns, Pass, Behind, Once, IsChained, RequestOf, More, Sent;
    FirstTurn(en, refs, ready, no);
    var next, rest, o := Turn(en, refs[0]), Behind(en, refs), en.outs[no].value;
    var n := |RequestsFor(Turns(next, rest, ready - 1), no)|;
    if en.queue[0] != no {
      PassIsSending(next, rest, ready - 1, no);
    } else {
      OneSend(o.more, !IsChained(o));
      MoreAppend(o.more, [Send(!IsChained(o))], Sending(n));
      SendingFirst(n + 1);
      if IsChained(o) {
        PassIsSending(next, rest, ready - 1, no);
        RequestCodes(next, rest, ready - 1, no);
      } else {
        NoteStays(next, rest, ready - 1, no);
        NoRequests(next, rest, ready - 1, no);
        assert [Send(true)] + Sending(0) == [Send(true)];
      }
    }
  }

  lemma {:induction false} SendingIsOrderly(n: nat, m: nat)
    requires n <= m <= 15
    ensures var es := Sending(m)[..n]; Orderly(es, m) && Few(es) && Sends(es) == n && Returns(es) == 0
  {
    if n > 0 {
      SendingIsOrderly(n - 1, m);
      assert Sending(m)[..n][..n - 1] == Sending(m)[..n - 1];
    }
  }

  /** A pass that sends a request in up to 15 fragments leaves that many return codes awaited, the
      final part sent and none queued: the state from which OneCompletion follows the return codes. */
  lemma PassAwaits(en: Engine, refs: seq<word>, ready: nat, no: byte)
    requires Serves(en, refs, ready, no)
    requires var o := en.outs[no].value;
             o.id % 0x20 != 0 && Count(o.more) == 0 && !Has(o.more, XMOREF) && Has(o.more, XBUSY)
    requires |RequestsFor(Turns(en, refs, ready), no)| <= 15
    ensures var r, n := Pass(en, refs, ready).outs[no], |RequestsFor(Turns(en, refs, ready), no)|;
            r.Some? && Fields(r.value.more, n, false, true, true)
  {
    hide Turns, Pass, Once, More, Has, Count;
    var n := |RequestsFor(Turns(en, refs, ready), no)|;
    PassIsSending(en, refs, ready, no);
    RequestCodes(en, refs, ready, no);
    SendingIsOrderly(n, n);
    assert Sending(n)[..n] == Sending(n);
    OneCompletion(en.outs[no].value.more, Sending(n), n);
  }

  // ------------------------------------------------------------ flow control

  /** The entity has an Id, and its channel is under flow control for it. */
  ghost predicate Stopped(en: Engine, no: byte, ch: byte)
    requires Fit(en)
  {
    && en.outs[no].Some?
    && var o := en.outs[no].value; o.id % 0x20 != 0 && o.ch == ch && en.tables.flow[ch] == o.id
  }

  lemma TurnSkips(en: Engine, ref: word, ch: byte)
    requires Fit(en) && en.queue != []
    ensures var no := en.queue[0];
            Turn(en, ref).skip[ch] <==> en.skip[ch] || (Stopped(en, no, ch) && !IsChained(en.outs[no].value))
    ensures forall no: byte :: Stopped(Turn(en, ref), no, ch) <==> Stopped(en, no, ch)
  {
    hide Advanced, IsChained;
    TurnKeeps(en, ref);
  }

  /** A channel comes to be skipped in a pass only for an entity that was queued and stopped. */
  lemma {:induction false} SkippedOnlyForStopped(en: Engine, refs: seq<word>, ready: nat, ch: byte)
    requires Fit(en) && ready <= |refs|
    ensures en.skip[ch] ==> Pass(en, refs, ready).skip[ch]
    ensures Pass(en, refs, ready).skip[ch] && !en.skip[ch] ==> exists no: byte :: no in en.queue && Stopped(en, no, ch)
    decreases ready
  {
    hide Turn, Stopped;
    if en.queue != [] && ready > 0 {
      TurnSkips(en, refs[0], ch);
      TurnQueue(en, refs[0]);
      SkippedOnlyForStopped(Turn(en, refs[0]), Behind(en, refs), ready - 1, ch);
    }
  }

  lemma TurnQueue(en: Engine, ref: word)
    requires Fit(en) && en.queue != []
    ensures forall no: byte :: no in Turn(en, ref).queue ==> no in en.queue
  {
    hide Advanced, IsChained;
  }

  /** The pass that sends the last fragment of a stopped entity marks its channel. */
  lemma {:induction false} StoppedIsSkipped(en: Engine, refs: seq<word>, ready: nat, no: byte, ch: byte)
    requires Serves(en, refs, ready, no) && Stopped(en, no, ch)
    ensures Pass(en, refs, ready).skip[ch]
    decreases ready
  {
    hide Turn, Turns, Pass, Behind, Once, IsChained, Advanced, RequestOf, RequestsFor, Stopped;
    FirstTurn(en, refs, ready, no);
    var next, rest := Turn(en, refs[0]), Behind(en, refs);
    TurnSkips(en, refs[0], ch);
    SkippedOnlyForStopped(next, rest, ready - 1, ch);
    if en.queue[0] != no || IsChained(en.outs[no].value) {
      StoppedIsSkipped(next, rest, ready - 1, no, ch);
    }
  }
}
