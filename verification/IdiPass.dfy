/** A pass of pr_out (kernel/di.c) on values: what the request loop makes of queue, entities and
    tables, and which requests it hands to the card. */
module IdiPass {
  import opened Machine
  import opened IdiTransmit
  import opened IdiCompletion
  import opened IdiTables

  // kernel/pc.h
  const NL_ID: byte := 0x20
  const BLLC_ID: byte := 0x60
  const TASK_ID: byte := 0x80
  const MAN_ID: byte := 0xe0
  const UREMOVE: byte := 0xfe
  const REMOVE: byte := 0xff
  const LL_MDATA: byte := 9
  const N_MDATA: byte := 1

  /** A request as the card gets it. */
  datatype Request = Request(data: seq<byte>, id: byte, ch: byte, req: byte)

  /** The request code of a chained fragment for the kind of entity an ASSIGN asks for. */
  function ChainCode(id: byte): byte {
    if id == BLLC_ID then LL_MDATA else if id == NL_ID || id == TASK_ID || id == MAN_ID then N_MDATA else 0
  }

  // ------------------------------------------------------------ one entity

  /** The transmit side of an entity. */
  datatype Out = Out(x: Buffers, i: nat, off: nat, id: byte, ch: byte, req: byte, mInd: byte, more: byte)

  function Piece(o: Out): Cut
    requires Place(o.x, o.i, o.off)
  {
    Take(o.x, o.i, o.off, FRAGMENT)
  }

  /** Whether more of the request follows in a further fragment. */
  predicate IsChained(o: Out)
    requires Place(o.x, o.i, o.off)
  {
    !Global(o.id) && Piece(o).i < |o.x| && o.mInd != 0
  }

  function RequestOf(o: Out): Request
    requires Place(o.x, o.i, o.off)
  {
    Request(Piece(o).data, o.id, o.ch, if IsChained(o) then o.mInd else o.req)
  }

  function Advanced(o: Out): (p: Out)
    requires Place(o.x, o.i, o.off)
    ensures Place(p.x, p.i, p.off) && p.x == o.x && p.id == o.id && p.ch == o.ch && p.req == o.req
  {
    o.(i := Piece(o).i, off := Piece(o).off,
       mInd := if Global(o.id) then ChainCode(o.id) else o.mInd,
       more := if Global(o.id) then Clear(Set(o.more, XMOREF), XMOREP) else Sent(o.more, !IsChained(o)))
  }

  /** What is still to be sent. */
  function Left(o: Out): seq<byte>
    requires Place(o.x, o.i, o.off)
  {
    Rest(o.x, o.i, o.off)
  }

  // ------------------------------------------------------------- the engine

  /** queue: entities with a request.  outs: the entities, by number.  types, skip and pending:
      IdTypeTable, FlowControlSkipTable and the remove-pending flags.  refs: the assign queue. */
  datatype Engine = Engine(queue: seq<byte>, outs: seq<Option<Out>>, tables: Tables, types: seq<byte>,
                           skip: seq<bool>, pending: seq<bool>, refs: map<byte, word>)

  ghost predicate Fit(en: Engine) {
    && |en.outs| == |en.types| == |en.skip| == |en.pending| == TABLE && Sized(en.tables)
    && forall no: byte :: en.outs[no].Some? ==> Place(en.outs[no].value.x, en.outs[no].value.i, en.outs[no].value.off)
  }

  /** One turn of the loop serves the entity at the head of the queue, if it is still there. */
  datatype Served = Served(no: byte, request: Option<Request>)

  ghost function ServedBy(en: Engine): Served
    requires Fit(en) && en.queue != []
  {
    var no := en.queue[0];
    Served(no, if en.outs[no].None? then None else Some(RequestOf(en.outs[no].value)))
  }

  ghost function Turn(en: Engine, ref: word): (r: Engine)
    requires Fit(en) && en.queue != []
    ensures Fit(r)
  {
    var no, rest := en.queue[0], en.queue[1..];
    if en.outs[no].None? then en.(queue := rest)
    else
      var o := en.outs[no].value;
      var sent := en.(queue := rest + (if IsChained(o) then [no] else []), outs := en.outs[no := Some(Advanced(o))]);
      if Global(o.id) then Assigning(sent, no, o.id, ref) else if IsChained(o) then sent else Completed(sent, no, o)
  }

  /** An ASSIGN has been sent. */
  ghost function Assigning(en: Engine, no: byte, id: byte, ref: word): (r: Engine)
    requires Fit(en)
    ensures Fit(r)
  {
    en.(types := en.types[no := id], refs := en.refs[no := ref], tables := Asked(en.tables, no))
  }

  /** The last fragment of another request has been sent. */
  ghost function Completed(en: Engine, no: byte, o: Out): (r: Engine)
    requires Fit(en)
    ensures Fit(r)
  {
    en.(skip := if en.tables.flow[o.ch] == o.id then en.skip[o.ch := true] else en.skip,
        pending := if o.req == REMOVE then en.pending[no := true] else en.pending)
  }

  /** The slot references behind a turn: one is used, unless the entity is gone. */
  ghost function Behind(en: Engine, refs: seq<word>): seq<word>
    requires Fit(en) && en.queue != [] && refs != []
  {
    if en.outs[en.queue[0]].None? then refs else refs[1..]
  }

  /** The loop: while there are entities in the queue and ready is not counted down.  refs are the
      references of the request slots, of which a turn for an entity that is gone takes none. */
  ghost function Pass(en: Engine, refs: seq<word>, ready: nat): (r: Engine)
    requires Fit(en) && ready <= |refs|
    ensures Fit(r)
    decreases ready
  {
    if en.queue == [] || ready == 0 then en else Pass(Turn(en, refs[0]), Behind(en, refs), ready - 1)
  }

  ghost function Turns(en: Engine, refs: seq<word>, ready: nat): seq<Served>
    requires Fit(en) && ready <= |refs|
    decreases ready
  {
    if en.queue == [] || ready == 0 then [] else [ServedBy(en)] + Turns(Turn(en, refs[0]), Behind(en, refs), ready - 1)
  }

  /** The requests of turns that made one. */
  function Requests(turns: seq<Served>): seq<Request> {
    if turns == [] then []
    else (if turns[0].request.Some? then [turns[0].request.value] else []) + Requests(turns[1..])
  }

  /** The data requested for an entity. */
  function SentFor(turns: seq<Served>, no: byte): seq<byte> {
    if turns == [] then []
    else (if turns[0].no == no && turns[0].request.Some? then turns[0].request.value.data else [])
         + SentFor(turns[1..], no)
  }

  lemma OneMoreTurn(en: Engine, refs: seq<word>, ready: nat, turns: seq<Served>)
    requires Fit(en) && en.queue != [] && 0 < ready <= |refs|
    ensures Pass(Turn(en, refs[0]), Behind(en, refs), ready - 1) == Pass(en, refs, ready)
    ensures turns + [ServedBy(en)] + Turns(Turn(en, refs[0]), Behind(en, refs), ready - 1) == turns + Turns(en, refs, ready)
    ensures ServedBy(en).no == en.queue[0]
    ensures var r := ServedBy(en).request;
            && Requests(turns + [ServedBy(en)]) == Requests(turns) + (if r.Some? then [r.value] else [])
            && Behind(en, refs) == if r.Some? then refs[1..] else refs
  {
    TurnsFirst(en, refs, ready);
    RequestsMore(turns, ServedBy(en));
    hide Turn, Turns, Pass, Fit, Requests;
    AssociateTurns(turns, [ServedBy(en)], Turns(Turn(en, refs[0]), Behind(en, refs), ready - 1));
  }

  lemma TurnsFirst(en: Engine, refs: seq<word>, ready: nat)
    requires Fit(en) && en.queue != [] && 0 < ready <= |refs|
    ensures Turns(en, refs, ready) == [ServedBy(en)] + Turns(Turn(en, refs[0]), Behind(en, refs), ready - 1)
    ensures Pass(en, refs, ready) == Pass(Turn(en, refs[0]), Behind(en, refs), ready - 1)
  {
    hide Turn, ServedBy, Fit;
  }

  lemma AssociateTurns(a: seq<Served>, b: seq<Served>, c: seq<Served>)
    ensures a + b + c == a + (b + c)
  {
  }

  lemma {:induction false} RequestsMore(turns: seq<Served>, s: Served)
    ensures Requests(turns + [s]) == Requests(turns) + if s.request.Some? then [s.request.value] else []
  {
    if turns == [] {
      assert [] + [s] == [s] && [s][1..] == [];
    } else {
      assert (turns + [s])[1..] == turns[1..] + [s];
      RequestsMore(turns[1..], s);
    }
  }

  lemma EndOfTurns(en: Engine, refs: seq<word>, ready: nat)
    requires Fit(en) && ready <= |refs| && (en.queue == [] || ready == 0)
    ensures Pass(en, refs, ready) == en && Turns(en, refs, ready) == []
  {
  }

  /** A chained fragment goes out under the chaining code, which it does not change. */
  lemma ChainedCode(o: Out)
    requires Place(o.x, o.i, o.off) && IsChained(o)
    ensures Advanced(o).mInd == o.mInd && RequestOf(o).req == o.mInd && !Global(o.id)
  {
  }

  /** A pass ends when the queue is empty or every slot is used. */
  lemma {:induction false} PassEnds(en: Engine, refs: seq<word>, ready: nat)
    requires Fit(en) && ready <= |refs|
    ensures |Turns(en, refs, ready)| <= ready && (Pass(en, refs, ready).queue == [] || |Turns(en, refs, ready)| == ready)
    decreases ready
  {
    hide Turn, ServedBy;
    if en.queue != [] && ready > 0 {
      PassEnds(Turn(en, refs[0]), Behind(en, refs), ready - 1);
    }
  }

  /** Every turn of an entity that is there makes a request, with the Id and the channel of that
      entity, under its request code or under its chaining code. */
  lemma {:induction false} LiveAreRequested(en: Engine, refs: seq<word>, ready: nat, k: nat)
    requires Fit(en) && ready <= |refs| && k < |Turns(en, refs, ready)|
    ensures var s := Turns(en, refs, ready)[k];
            && (s.request.Some? <==> en.outs[s.no].Some?)
            && (s.request.Some? ==>
                  var o, r := en.outs[s.no].value, s.request.value;
                  r.id == o.id && r.ch == o.ch && (r.req == o.req || (!Global(o.id) && r.req == o.mInd)) && |r.data| <= FRAGMENT)
    decreases ready
  {
    var no := en.queue[0];
    if k == 0 {
      if en.outs[no].Some? {
        var o := en.outs[no].value;
        TakeIsFirst(o.x, o.i, o.off, FRAGMENT);
      }
    } else {
      var next := Turn(en, refs[0]);
      TurnKeeps(en, refs[0]);
      LiveAreRequested(next, Behind(en, refs), ready - 1, k - 1);
    }
  }

  /** The entity asks for the same, on the same channel. */
  predicate SameRequest(o: Out, p: Out) {
    p.id == o.id && p.ch == o.ch && p.req == o.req && (Global(o.id) || p.mInd == o.mInd)
  }

  /** What a turn leaves alone. */
  lemma TurnKeeps(en: Engine, ref: word)
    requires Fit(en) && en.queue != []
    ensures var r := Turn(en, ref);
            && r.tables.ids == en.tables.ids && r.tables.flow == en.tables.flow && r.tables.held == en.tables.held
            && (forall no: byte :: r.outs[no].Some? <==> en.outs[no].Some?)
            && (forall no: byte :: r.outs[no].Some? ==> SameRequest(en.outs[no].value, r.outs[no].value))
            && (forall no: byte :: no != en.queue[0] ==> r.outs[no] == en.outs[no])
  {
  }

  /** Nothing is sent twice, skipped or reordered: what a pass requests for an entity, followed by
      what the entity then stands before, is what it stood before at first. */
  lemma {:induction false} PassKeepsData(en: Engine, refs: seq<word>, ready: nat, no: byte)
    requires Fit(en) && ready <= |refs| && en.outs[no].Some?
    ensures Pass(en, refs, ready).outs[no].Some?
    ensures SentFor(Turns(en, refs, ready), no) + Left(Pass(en, refs, ready).outs[no].value) == Left(en.outs[no].value)
    decreases ready
  {
    hide Turn, ServedBy, Left;
    if en.queue == [] || ready == 0 {
      assert [] + Left(en.outs[no].value) == Left(en.outs[no].value);
    } else {
      var next, rest := Turn(en, refs[0]), Behind(en, refs);
      TurnKeeps(en, refs[0]);
      PassKeepsData(next, rest, ready - 1, no);
      TurnKeepsData(en, refs[0], no);
      var turns := Turns(next, rest, ready - 1);
      var s := ServedBy(en);
      assert ([s] + turns)[1..] == turns;
      var d := if s.no == no && s.request.Some? then s.request.value.data else [];
      Associative(d, SentFor(turns, no), Left(Pass(next, rest, ready - 1).outs[no].value));
    }
  }

  lemma TurnKeepsData(en: Engine, ref: word, no: byte)
    requires Fit(en) && en.queue != [] && en.outs[no].Some? && Turn(en, ref).outs[no].Some?
    ensures var s := ServedBy(en); var d := if s.no == no && s.request.Some? then s.request.value.data else [];
            d + Left(Turn(en, ref).outs[no].value) == Left(en.outs[no].value)
  {
    var o := en.outs[no].value;
    if en.queue[0] == no {
      TakeIsFirst(o.x, o.i, o.off, FRAGMENT);
    } else {
      TurnKeeps(en, ref);
      assert [] + Left(o) == Left(o);
    }
  }

  /** A pass by itself removes no Id. */
  lemma {:induction false} PassKeepsIds(en: Engine, refs: seq<word>, ready: nat)
    requires Fit(en) && ready <= |refs|
    ensures Pass(en, refs, ready).tables.ids == en.tables.ids && Pass(en, refs, ready).tables.flow == en.tables.flow
    decreases ready
  {
    hide Turn;
    if en.queue != [] && ready > 0 {
      TurnKeeps(en, refs[0]);
      PassKeepsIds(Turn(en, refs[0]), Behind(en, refs), ready - 1);
    }
  }

  // ------------------------------------------- whole requests in a pass

  /** The entity is in the queue once. */
  predicate Once(q: seq<byte>, no: byte) {
    multiset(q)[no] == 1
  }

  /** The data of its requests, one after the other. */
  function DataFor(turns: seq<Served>, no: byte): seq<seq<byte>> {
    if turns == [] then []
    else (if turns[0].no == no && turns[0].request.Some? then [turns[0].request.value.data] else [])
         + DataFor(turns[1..], no)
  }

  /** Whether more of the entity's request goes on in fragments. */
  predicate Chains(o: Out) {
    !Global(o.id) && o.mInd != 0
  }

  lemma QueueAfter(en: Engine, ref: word, no: byte)
    requires Fit(en) && en.queue != []
    ensures var r := Turn(en, ref); var first := en.queue[0];
            && (no != first ==> multiset(r.queue)[no] == multiset(en.queue)[no])
            && (no == first ==> multiset(r.queue)[no] == multiset(en.queue)[no] - 1
                                + if en.outs[no].Some? && IsChained(en.outs[no].value) then 1 else 0)
            && (no == first && en.outs[no].Some? ==> r.outs[no] == Some(Advanced(en.outs[no].value)))
  {
    assert en.queue == [en.queue[0]] + en.queue[1..];
    hide Advanced, IsChained;
  }

  /** An entity that is not in the queue is not served. */
  lemma {:induction false} NotServed(en: Engine, refs: seq<word>, ready: nat, no: byte)
    requires Fit(en) && ready <= |refs| && multiset(en.queue)[no] == 0
    ensures Pass(en, refs, ready).outs[no] == en.outs[no] && DataFor(Turns(en, refs, ready), no) == []
    decreases ready
  {
    hide Turn;
    if en.queue != [] && ready > 0 {
      assert en.queue[0] in multiset(en.queue);
      TurnKeeps(en, refs[0]);
      QueueAfter(en, refs[0], no);
      NotServed(Turn(en, refs[0]), Behind(en, refs), ready - 1, no);
      TurnsOf(en, refs, ready, no);
    }
  }

  lemma TurnsOf(en: Engine, refs: seq<word>, ready: nat, no: byte)
    requires Fit(en) && en.queue != [] && 0 < ready <= |refs|
    ensures DataFor(Turns(en, refs, ready), no)
            == (if en.queue[0] == no && en.outs[no].Some? then [Piece(en.outs[no].value).data] else [])
               + DataFor(Turns(Turn(en, refs[0]), Behind(en, refs), ready - 1), no)
  {
    hide Turn, Piece, IsChained;
    var turns := Turns(Turn(en, refs[0]), Behind(en, refs), ready - 1);
    assert ([ServedBy(en)] + turns)[1..] == turns;
  }

  /** In a pass that empties the queue, the requests of an entity are the fragments of its request:
      all of them when it chains, the first one alone when it does not. */
  lemma {:induction false} RequestsAreFragments(en: Engine, refs: seq<word>, ready: nat, no: byte)
    requires Fit(en) && ready <= |refs| && en.outs[no].Some? && Once(en.queue, no)
    requires Pass(en, refs, ready).queue == []
    ensures var o := en.outs[no].value; var fs := Fragments(o.x, o.i, o.off);
            DataFor(Turns(en, refs, ready), no) == if Chains(o) then fs else fs[..1]
    decreases ready
  {
    hide Turn, Pass, Turns, Fragments, Advanced, IsChained;
    var o := en.outs[no].value;
    OnceInQueue(en.queue, no);
    StillQueued(en, refs, ready);
    var next, rest := Turn(en, refs[0]), Behind(en, refs);
    TurnsFirst(en, refs, ready);
    QueueAfter(en, refs[0], no);
    TurnKeeps(en, refs[0]);
    TurnsOf(en, refs, ready, no);
    if en.queue[0] != no {
      RequestsAreFragments(next, rest, ready - 1, no);
    } else {
      FragmentsFirst(o);
      if IsChained(o) {
        RequestsAreFragments(next, rest, ready - 1, no);
      } else {
        NotServed(next, rest, ready - 1, no);
      }
    }
  }

  lemma OnceInQueue(q: seq<byte>, no: byte)
    requires Once(q, no)
    ensures no in q && q != []
  {
    assert no in multiset(q);
  }

  lemma StillQueued(en: Engine, refs: seq<word>, ready: nat)
    requires Fit(en) && ready <= |refs| && en.queue != [] && Pass(en, refs, ready).queue == []
    ensures ready > 0
  {
  }

  lemma FragmentsFirst(o: Out)
    requires Place(o.x, o.i, o.off)
    ensures var fs, p := Fragments(o.x, o.i, o.off), Advanced(o);
            && Chains(p) == (if Global(o.id) then false else Chains(o))
            && (IsChained(o) ==> Chains(o) && fs == [Piece(o).data] + Fragments(p.x, p.i, p.off))
            && (!IsChained(o) && Chains(o) ==> fs == [Piece(o).data])
            && fs[..1] == [Piece(o).data]
  {
    TakeIsFirst(o.x, o.i, o.off, FRAGMENT);
  }

  /** What a request that does not chain leaves is never sent: a pass that empties the queue has sent
      all of it exactly when it fits one fragment.  A request that chains is sent whole. */
  lemma SentWholeIff(en: Engine, refs: seq<word>, ready: nat, no: byte)
    requires Fit(en) && ready <= |refs| && en.outs[no].Some? && Once(en.queue, no)
    requires Pass(en, refs, ready).queue == []
    ensures Pass(en, refs, ready).outs[no].Some?
    ensures var o := en.outs[no].value;
            Left(Pass(en, refs, ready).outs[no].value) == [] <==> Chains(o) || |Left(o)| <= FRAGMENT
  {
    hide Turn, Pass, Turns, Fragments, Advanced, IsChained, Left;
    var o, turns := en.outs[no].value, Turns(en, refs, ready);
    PassKeepsData(en, refs, ready, no);
    RequestsAreFragments(en, refs, ready, no);
    SentIsData(turns, no);
    FragmentsJoin(o.x, o.i, o.off);
    FirstFragment(o);
  }

  lemma FirstFragment(o: Out)
    requires Place(o.x, o.i, o.off)
    ensures var fs := Fragments(o.x, o.i, o.off);
            Flatten(fs[..1]) == fs[0] && |fs[0]| == Min(FRAGMENT, |Left(o)|) && Left(o) == Rest(o.x, o.i, o.off)
  {
    TakeIsFirst(o.x, o.i, o.off, FRAGMENT);
    var fs := Fragments(o.x, o.i, o.off);
    var one := fs[..1];
    assert one[0] == fs[0] && |one[1..]| == 0;
    assert fs[0] + [] == fs[0];
  }

  lemma {:induction false} SentIsData(turns: seq<Served>, no: byte)
    ensures SentFor(turns, no) == Flatten(DataFor(turns, no))
  {
    if turns != [] {
      SentIsData(turns[1..], no);
      var rest := DataFor(turns[1..], no);
      if turns[0].no == no && turns[0].request.Some? {
        assert ([turns[0].request.value.data] + rest)[1..] == rest;
      } else {
        assert [] + rest == rest && [] + SentFor(turns[1..], no) == SentFor(turns[1..], no);
      }
    }
  }

  // -------------------------------------------------------- after the loop

  /** The entity of the last turn, if it is there and its request is an UREMOVE with an Id. */
  ghost predicate Drops(en: Engine, turns: seq<Served>)
    requires Fit(en)
  {
    turns != [] &&
    var last := en.outs[turns[|turns| - 1].no];
    last.Some? && last.value.req == UREMOVE && last.value.id != 0
  }

  /** An UREMOVE has no return code, so the Id goes at once. */
  ghost function Ended(en: Engine, turns: seq<Served>): Engine
    requires Fit(en)
  {
    if !Drops(en, turns) then en else Dropped(en, turns[|turns| - 1].no)
  }

  ghost function Dropped(en: Engine, no: byte): Engine
    requires Fit(en) && en.outs[no].Some?
  {
    var o := en.outs[no].value;
    if Global(o.id) then en.(outs := en.outs[no := Some(o.(id := 0))], tables := Entered(en.tables, no, 0))
    else en.(outs := en.outs[no := None], tables := Removed(en.tables, o.id))
  }

  /** An Id leaves the table in a pass only when the last entity served had an UREMOVE, and then
      only its own. */
  lemma IdsGoByUremove(en: Engine, refs: seq<word>, ready: nat)
    requires Fit(en) && ready <= |refs|
    ensures var turns, after := Turns(en, refs, ready), Pass(en, refs, ready);
            var ids := Ended(after, turns).tables.ids;
            ids == if Drops(after, turns) && !Global(after.outs[turns[|turns| - 1].no].value.id)
                   then en.tables.ids[after.outs[turns[|turns| - 1].no].value.id := 0] else en.tables.ids
  {
    PassKeepsIds(en, refs, ready);
  }
}
