/** What a return code means for an entity with an Id (isdn_rc, kernel/di.c): when the application
    is called back, what is still awaited, and what is left in the tables. */
module IdiReturn {
  import opened Machine
  import opened IdiTables
  import opened IdiCompletion
  import opened IdiPass
  import opened IdiAdapter

  /** A REMOVE is acknowledged. */
  predicate Removal(rc: byte, no: byte, pending: seq<bool>)
    requires no < |pending|
  {
    pending[no] && rc == 0xff
  }

  /** How many return codes are awaited once a removal has been looked for: one at most behind it. */
  function Awaited(more: byte, removal: bool): nat {
    if removal then Min(more % 0x10, 1) else more % 0x10
  }

  /** The bits for a queued part, a sent final part and a busy entity. */
  predicate Bits(more: byte, part: bool, final: bool, busy: bool) {
    Has(more, 0x10) == part && Has(more, 0x20) == final && Has(more, 0x40) == busy
  }

  /** The first of two acknowledgements of a REMOVE does nothing. */
  lemma PrematureDoesNothing(more: byte, rc: byte, info: dword, here: bool, no: byte, pending: seq<bool>, keep: seq<bool>,
                             flowing: bool, skip: bool)
    requires no < |pending| && no < |keep|
    ensures OutcomeOf(more, rc, info, here, no, pending, keep, flowing, skip, true) == Outcome(more, false)
  {
  }

  lemma SettledFields(more: byte)
    ensures Fields(Settled(more), Awaited(more, true), Has(more, 0x10), Has(more, 0x20), Has(more, 0x40))
  {
    var (p, f, b) := (Has(more, 0x10), Has(more, 0x20), Has(more, 0x40));
    ClearFields(more, Count(more), p, f, b);
    hide Has, ClearCount;
    if Count(more) > 1 {
      assert ClearCount(more) % 0x10 == 0;
      CountFields(ClearCount(more), 0, p, f, b);
      assert Next(ClearCount(more)) == ClearCount(more) + 1;
    }
  }

  /** A return code that starts flow control always calls back: nothing is awaited, the entity is free. */
  lemma FlowStarts(more: byte, info: dword, here: bool, no: byte, pending: seq<bool>, keep: seq<bool>, flowing: bool, skip: bool)
    requires no < |pending| && no < |keep|
    ensures var out := OutcomeOf(more, 0xfc, info, here, no, pending, keep, flowing, skip, false);
            out.called && out.more % 0x10 == 0 && Bits(out.more, Has(more, 0x10), Has(more, 0x20), false)
  {
    var (p, f, b) := (Has(more, 0x10), Has(more, 0x20), Has(more, 0x40));
    ClearFields(more, Count(more), p, f, b);
    ClearFields(ClearCount(more), 0, p, f, b);
    hide Has, Clear, ClearCount;
  }

  /** A kept return code always calls back, and nothing is counted: only a removal that it
      acknowledges as well changes what is awaited. */
  lemma KeptCallsBack(more: byte, rc: byte, here: bool, no: byte, pending: seq<bool>, keep: seq<bool>, flowing: bool, skip: bool)
    requires no < |pending| && no < |keep| && rc != 0xfc
    ensures var out, removal := OutcomeOf(more, rc, 0xb, here, no, pending, keep, flowing, skip, false), Removal(rc, no, pending);
            && out.called && (!removal ==> out.more == more)
            && out.more % 0x10 == Awaited(more, removal)
            && Bits(out.more, Has(more, 0x10), Has(more, 0x20), Has(more, 0x40))
  {
    hide Has, Settled;
    SettledFields(more);
  }

  /** A return code behind flow control on its channel ends it.  The application is called back
      unless the code is the OK to be skipped, and on the channel of its request the entity is free
      then; otherwise More stays. */
  lemma FlowEnds(more: byte, rc: byte, info: dword, here: bool, no: byte, pending: seq<bool>, keep: seq<bool>, skip: bool)
    requires no < |pending| && no < |keep| && rc != 0xfc && info != 0xb && !keep[no] && !Removal(rc, no, pending)
    ensures var out := OutcomeOf(more, rc, info, here, no, pending, keep, true, skip, false);
            && (out.called <==> !(rc == 0xff && skip))
            && (out.called && here ==> out.more % 0x10 == 0 && Bits(out.more, Has(more, 0x10), Has(more, 0x20), false))
            && (!(out.called && here) ==> out.more == more)
  {
    var (p, f, b) := (Has(more, 0x10), Has(more, 0x20), Has(more, 0x40));
    ClearFields(more, Count(more), p, f, b);
    ClearFields(ClearCount(more), 0, p, f, b);
    hide Has, Clear, ClearCount;
  }

  /** Any other return code is counted, and a removal leaves one to count at most.  The application
      is called back, and the entity is free, exactly when nothing is awaited any more, no part is
      queued and, unless return codes are kept for the entity, the final part has been sent. */
  lemma CountedOutcome(more: byte, rc: byte, info: dword, here: bool, no: byte, pending: seq<bool>, keep: seq<bool>,
                       flowing: bool, skip: bool)
    requires no < |pending| && no < |keep| && rc != 0xfc && info != 0xb
    requires Removal(rc, no, pending) || keep[no] || !flowing
    ensures var out, removal := OutcomeOf(more, rc, info, here, no, pending, keep, flowing, skip, false), Removal(rc, no, pending);
            && out.more % 0x10 == Max(Awaited(more, removal) - 1, 0)
            && (out.called <==> out.more % 0x10 == 0 && !Has(more, 0x10) && (Has(more, 0x20) || (keep[no] && !removal)))
            && Bits(out.more, Has(more, 0x10), Has(more, 0x20), Has(more, 0x40) && !out.called)
  {
    hide Has, Clear, Settled, Counting;
    var removal := Removal(rc, no, pending);
    SettledFields(more);
    CountingFields(if removal then Settled(more) else more, Awaited(more, removal), Has(more, 0x10), Has(more, 0x20),
                   Has(more, 0x40), removal || !keep[no]);
  }

  lemma CountingFields(k: byte, c: nat, p: bool, f: bool, b: bool, cancel: bool)
    requires Fields(k, c, p, f, b)
    ensures var out, left := Counting(k, cancel), if c > 0 then c - 1 else 0;
            (out.called <==> left == 0 && !p && (f || !cancel)) && Fields(out.more, left, p, f, b && !out.called)
  {
    CountFields(k, c, p, f, b);
    ClearFields(Counted(k), if c > 0 then c - 1 else 0, p, f, b);
    hide Has, Clear;
  }

  /** The OK for a REMOVE whose last fragment is sent completes it, however many return codes were
      awaited: the application is called back, nothing is awaited and the entity is free. */
  lemma RemovalCompletes(more: byte, info: dword, here: bool, no: byte, pending: seq<bool>, keep: seq<bool>, flowing: bool, skip: bool)
    requires no < |pending| && no < |keep| && pending[no] && info != 0xb && Has(more, 0x20) && !Has(more, 0x10)
    ensures var out := OutcomeOf(more, 0xff, info, here, no, pending, keep, flowing, skip, false);
            out.called && out.more % 0x10 == 0 && !Has(out.more, 0x40)
  {
    CountedOutcome(more, 0xff, info, here, no, pending, keep, flowing, skip);
  }

  // ---------------------------------------------------------------- the tables

  /** Behind an acknowledged REMOVE nothing names the Id: no entity holds it, no channel is under
      flow control for it.  Every other Id, entity and channel keeps what it had. */
  lemma RemovalClears(t: Tables, id: byte, ch: byte, rc: byte, info: dword, keep: bool)
    requires Coherent(t) && t.ids[id] != 0
    ensures var u := After(t, id, ch, true, rc, info, keep);
            && u.waiting == t.waiting
            && (forall i: byte :: u.ids[i] == if i == id then 0 else t.ids[i])
            && (forall e: byte :: u.held[e] == if t.held[e] == Some(id) then None else t.held[e])
            && (forall c: byte :: u.flow[c] == if t.flow[c] == id then 0 else t.flow[c])
  {
    LiveEntity(t, id);
  }

  /** Without a removal only the channel of the return code changes: it comes under flow control for
      the Id with OK_FC, and flow control for the Id ends with any other code that is not kept. */
  lemma FlowAfter(t: Tables, id: byte, ch: byte, rc: byte, info: dword, keep: bool)
    requires Sized(t)
    ensures var u := After(t, id, ch, false, rc, info, keep);
            && u.ids == t.ids && u.held == t.held && u.waiting == t.waiting
            && (forall c: byte :: c != ch ==> u.flow[c] == t.flow[c])
            && (u.flow[ch] == id <==> rc == 0xfc || (t.flow[ch] == id && (info == 0xb || keep || id == 0)))
            && (u.flow[ch] != id ==> u.flow[ch] == if t.flow[ch] == id then 0 else t.flow[ch])
  {
  }

  /** An ASSIGN that is granted gives the Id to its entity, which waits no longer; nothing else
      changes. */
  lemma GrantedAssign(t: Tables, e: byte, id: byte)
    requires Coherent(t) && e in t.waiting && t.ids[id] == 0 && !Global(id)
    ensures var u := Assigned(t, e, id);
            && u.flow == t.flow && (forall x: byte :: x in u.waiting <==> x in t.waiting && x != e)
            && (forall i: byte :: u.ids[i] == if i == id then e else t.ids[i])
            && (forall x: byte :: u.held[x] == if x == e then Some(id) else t.held[x])
  {
  }

  /** One that is refused takes the entity away; no Id and no channel changes. */
  lemma RefusedAssign(t: Tables, e: byte, id: byte)
    requires Coherent(t) && e in t.waiting && t.ids[id] == 0
    ensures var u := Refused(t, e, id);
            && u.ids == t.ids && (forall x: byte :: x in u.waiting <==> x in t.waiting && x != e)
            && (forall c: byte :: u.flow[c] == if t.flow[c] == id then 0 else t.flow[c])
            && (forall x: byte :: u.held[x] == if x == e then None else t.held[x])
  {
  }

  /** An UREMOVE has no return code: once it is sent, an entity with an Id is gone from all tables
      at once, and one without has no kind any more. */
  lemma UremoveClears(en: Engine, no: byte)
    requires Fit(en) && Coherent(en.tables) && en.outs[no].Some? && en.tables.held[no] == Some(en.outs[no].value.id)
    ensures var o, r, t := en.outs[no].value, Dropped(en, no), en.tables;
            && r.queue == en.queue && r.types == en.types && r.skip == en.skip && r.pending == en.pending && r.refs == en.refs
            && (forall x: byte :: x != no ==> r.outs[x] == en.outs[x])
            && r.tables.waiting == t.waiting
            && (o.id % 0x20 == 0 ==>
                  r.outs[no] == Some(o.(id := 0)) && r.tables.ids == t.ids && r.tables.flow == t.flow
                  && forall x: byte :: r.tables.held[x] == if x == no then Some(0) else t.held[x])
            && (o.id % 0x20 != 0 ==>
                  && r.outs[no] == None
                  && (forall i: byte :: r.tables.ids[i] == if i == o.id then 0 else t.ids[i])
                  && (forall x: byte :: r.tables.held[x] == if x == no then None else t.held[x])
                  && (forall c: byte :: r.tables.flow[c] == if t.flow[c] == o.id then 0 else t.flow[c]))
  {
    assert !Global(en.outs[no].value.id) ==> en.tables.ids[en.outs[no].value.id] == no;
  }
}
