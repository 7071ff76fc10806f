/** The request and return code engine of kernel/di.c: the tables of an adapter, its queues, and
    the entities that use it. */
module IdiAdapter {
  import opened Machine
  import opened IdiEntity
  import opened IdiTransmit
  import opened IdiCompletion
  import opened IdiTables
  import opened IdiPass

  // kernel/pc.h
  const ASSIGN_RC: byte := 0xe0
  const ASSIGN_OK: byte := 0xef
  const OK_FC: byte := 0xfc
  const READY_INT: byte := 0xfd
  const RC_OK: byte := 0xff
  const TYPE_REMOVE_COMPLETE: dword := 8
  const TYPE_OK_FC: dword := 0xb

  class Adapter {
    const idTable: array<byte>
    const idTypeTable: array<byte>
    const flowIdTable: array<byte>
    const flowSkipTable: array<bool>
    const removePending: array<bool>
    const noCanceling: array<bool>
    const entities: array<Entity?>
    var queue: seq<byte>
    var assigns: map<byte, word>
    var readyInt: byte
    var rcExtension: bool
    ghost var tables: Tables

    ghost predicate Shape() {
      && idTable.Length == idTypeTable.Length == flowIdTable.Length == flowSkipTable.Length == TABLE
      && removePending.Length == noCanceling.Length == entities.Length == TABLE
      && idTable != idTypeTable && idTable != flowIdTable && idTypeTable != flowIdTable
      && flowSkipTable != removePending && flowSkipTable != noCanceling && removePending != noCanceling
    }

    /** Entity i of the table: none, or one that knows its number and holds the Id. */
    ghost predicate Slot(i: nat, held: Option<byte>)
      requires i < entities.Length
      reads entities, entities[i]
    {
      var e := entities[i];
      if e == null then held == None
      else e.no == i && held == Some(e.id) && |e.x| < 0x100 && (forall b :: b in e.x ==> |b| < 0x1_0000)
           && Place(e.x, e.xCurrent, e.xOffset)
    }

    ghost predicate Represents(t: Tables)
      reads this, idTable, flowIdTable, entities, set i | 0 <= i < entities.Length :: entities[i]
    {
      && Shape() && Sized(t) && t.ids == idTable[..] && t.flow == flowIdTable[..] && t.waiting == assigns.Keys
      && forall i :: 0 <= i < TABLE ==> Slot(i, t.held[i])
    }

    ghost predicate Valid()
      reads this, idTable, flowIdTable, entities, set i | 0 <= i < entities.Length :: entities[i]
    {
      Represents(tables) && Coherent(tables)
    }

    ghost predicate OutSlot(i: nat, o: Option<Out>)
      requires i < entities.Length
      reads entities, entities[i]
    {
      var e := entities[i];
      if e == null then o == None
      else o == Some(Out(e.x, e.xCurrent, e.xOffset, e.id, e.reqCh, e.req, e.mInd, e.more))
    }

    /** The adapter as the request loop sees it. */
    ghost predicate Is(en: Engine)
      reads this, idTable, idTypeTable, flowIdTable, flowSkipTable, removePending, entities
      reads set i | 0 <= i < entities.Length :: entities[i]
    {
      && Valid() && Fit(en) && en.queue == queue && en.tables == tables && en.refs == assigns
      && en.types == idTypeTable[..] && en.skip == flowSkipTable[..] && en.pending == removePending[..]
      && forall i :: 0 <= i < TABLE ==> OutSlot(i, en.outs[i])
    }

    constructor ()
      ensures Valid() && queue == [] && tables.waiting == {}
      ensures forall i :: 0 <= i < TABLE ==> entities[i] == null
    {
      idTable := new byte[TABLE](_ => 0);
      idTypeTable := new byte[TABLE](_ => 0);
      flowIdTable := new byte[TABLE](_ => 0);
      flowSkipTable := new bool[TABLE](_ => false);
      removePending := new bool[TABLE](_ => false);
      noCanceling := new bool[TABLE](_ => false);
      entities := new Entity?[TABLE](_ => null);
      queue, assigns, readyInt, rcExtension := [], map[], 0, false;
      new;
      tables := Tables(idTable[..], flowIdTable[..], seq(TABLE, _ => None), {});
    }

    /** The loop that clears an Id from the flow-control table. */
    method ClearFlow(id: byte)
      requires flowIdTable.Length == TABLE
      modifies flowIdTable
      ensures flowIdTable[..] == Unflow(old(flowIdTable[..]), id)
    {
      for i := 0 to TABLE
        invariant forall k :: 0 <= k < i ==> flowIdTable[k] == Unflow(old(flowIdTable[..]), id)[k]
        invariant forall k :: i <= k < TABLE ==> flowIdTable[k] == old(flowIdTable[k])
      {
        if flowIdTable[i] == id {
          flowIdTable[i] := 0;
        }
      }
    }

    /** free_entity and what follows it when an Id goes. */
    method Free(no: byte, id: byte)
      requires Shape() && Sized(tables)
      modifies entities, flowIdTable, idTable
      ensures entities[..] == old(entities[..])[no := null]
      ensures flowIdTable[..] == Unflow(old(flowIdTable[..]), id)
      ensures idTable[..] == old(idTable[..])[id := 0]
    {
      entities[no] := null;
      ClearFlow(id);
      idTable[id] := 0;
    }

    /** The entity of a live Id is removed. */
    method RemoveEntity(e: Entity, id: byte)
      requires Valid() && idTable[id] != 0 && e == entities[idTable[id]]
      modifies this`tables, entities, flowIdTable, idTable, e`id
      ensures Valid() && tables == Removed(old(tables), id) && e.id == 0
      ensures entities[..] == old(entities[..])[old(idTable[id]) := null]
    {
      RemovedCoherent(tables, id);
      hide Coherent;
      ghost var no := idTable[id];
      Free(idTable[id], id);
      e.id := 0;
      tables := Removed(tables, id);
      assert forall i :: 0 <= i < TABLE && i != no ==> entities[i] == old(entities[i]);
    }

    // ------------------------------------------------------------- requests

    /** The part of a new request (kernel/io.c) that enters the entity in the tables and queues
        it; a busy entity is ignored, and so is one that finds no free number. */
    method Enter(e: Entity) returns (queued: bool)
      requires Valid() && |e.x| < 0x100 && (forall b :: b in e.x ==> |b| < 0x1_0000)
      requires if Global(e.id) then forall i :: 0 <= i < TABLE ==> entities[i] != e
               else entities[e.no] == e
      modifies this`tables, this`queue, entities, e`no, e`more, e`rCurrent, e`xCurrent, e`xOffset
      ensures Valid() && (queued ==> entities[e.no] == e)
      ensures Global(e.id) ==>
                tables == if queued then Entered(old(tables), e.no, e.id) else old(tables)
      ensures Global(e.id) ==> (queued <==> exists i :: 1 <= i < TABLE && old(entities[i]) == null)
      ensures Global(e.id) && queued ==>
                && e.no > 0 && old(entities[..])[e.no] == null && forall i :: 1 <= i < e.no ==> old(entities[i]) != null
      ensures Global(e.id) && queued ==> old(tables).held[e.no] == None && e.more == Begun(0) && e.rCurrent == IDLE
      ensures !Global(e.id) ==> tables == old(tables)
      ensures !Global(e.id) ==> (queued <==> !old(Has(e.more, XBUSY))) && (queued ==> e.more == Begun(old(e.more)))
      ensures queued ==> queue == old(queue) + [e.no] && e.xCurrent == 0 && e.xOffset == 0
      ensures !queued ==> queue == old(queue) && e.more == old(e.more)
    {
      hide Coherent, Set, Clear;
      if Global(e.id) {
        var i := 1;
        while i < TABLE && entities[i] != null
          invariant 1 <= i <= TABLE && forall k :: 1 <= k < i ==> entities[k] != null
        {
          i := i + 1;
        }
        if i == TABLE {
          return false;
        }
        NewEntity(e, i);
      } else if Has(e.more, XBUSY) {
        return false;
      }
      e.more := Clear(Set(e.more, XBUSY), XMOREF);
      e.xCurrent, e.xOffset := 0, 0;
      queue := queue + [e.no];
      queued := true;
    }

    method NewEntity(e: Entity, i: byte)
      requires Valid() && |e.x| < 0x100 && (forall b :: b in e.x ==> |b| < 0x1_0000)
      requires Global(e.id) && forall i :: 0 <= i < TABLE ==> entities[i] != e
      requires i != 0 && entities[i] == null
      modifies this`tables, entities, e`no, e`more, e`rCurrent, e`xCurrent, e`xOffset
      ensures Valid() && entities[i] == e && e.no == i && e.more == 0 && e.rCurrent == IDLE
      ensures tables == Entered(old(tables), i, e.id) && old(tables).held[i] == None
    {
      assert Slot(i, tables.held[i]);
      EnteredCoherent(tables, i, e.id);
      hide Coherent;
      entities[i] := e;
      e.no, e.more, e.rCurrent, e.xCurrent, e.xOffset := i, 0, IDLE, 0, 0;
      tables := Entered(tables, i, e.id);
    }

    /** The part of pr_out's loop that changes the entity: its next fragment, and its flags. */
    static method Fragment(e: Entity) returns (data: seq<byte>, chained: bool)
      requires |e.x| < 0x100 && (forall b :: b in e.x ==> |b| < 0x1_0000) && Place(e.x, e.xCurrent, e.xOffset)
      modifies e`xCurrent, e`xOffset, e`more, e`mInd
      ensures Place(e.x, e.xCurrent, e.xOffset)
      ensures var o := old(Out(e.x, e.xCurrent, e.xOffset, e.id, e.reqCh, e.req, e.mInd, e.more));
              && data == Piece(o).data && chained == IsChained(o)
              && Advanced(o) == Out(e.x, e.xCurrent, e.xOffset, e.id, e.reqCh, e.req, e.mInd, e.more)
    {
      hide Take, Set, Clear, Next;
      var i, off;
      data, i, off := Gather(e.x, e.xCurrent, e.xOffset);
      e.xCurrent, e.xOffset := i, off;
      chained := false;
      if !Global(e.id) {
        e.more := Next(e.more);
        if i < |e.x| && e.mInd != 0 {
          e.more := Set(e.more, XMOREP);
          chained := true;
        } else {
          e.more := Clear(Set(e.more, XMOREF), XMOREP);
        }
      } else {
        e.mInd := ChainCode(e.id);
        e.more := Clear(Set(e.more, XMOREF), XMOREP);
      }
    }

    /** The body of pr_out's loop; ref is the reference of the request slot.  An entity that is gone
        is skipped. */
    method Send(ref: word, ghost en: Engine) returns (r: Option<Request>)
      requires Is(en) && queue != []
      modifies this`tables, this`queue, this`assigns, idTypeTable, flowSkipTable, removePending, entities[queue[0]]
      ensures Is(Turn(en, ref)) && r == ServedBy(en).request
    {
      hide Coherent, Advanced, IsChained, Piece, Asked;
      var no := queue[0];
      var e := entities[no];
      assert Slot(no, tables.held[no]) && OutSlot(no, en.outs[no]);
      if e == null {
        queue := queue[1..];
        return None;
      }
      ghost var o := en.outs[no].value;
      var data, chained := NextFragment(e, no, en);
      ghost var sent := en.(outs := en.outs[no := Some(Advanced(o))], queue := en.queue[1..] + if chained then [no] else []);
      queue := queue[1..];
      if chained {
        ChainedCode(o);
        queue := queue + [no];
        return Some(Request(data, e.id, e.reqCh, e.mInd));
      }
      assert queue + [] == queue;
      if !Global(e.id) {
        NoteSent(e, sent, o);
      } else {
        NoteAssign(e, ref, sent);
      }
      return Some(Request(data, e.id, e.reqCh, e.req));
    }

    /** An entity stands at one place of the table only. */
    lemma Apart(e: Entity, no: byte)
      requires Valid() && entities[no] == e
      ensures e.no == no && forall i :: 0 <= i < TABLE && i != no ==> entities[i] != e
    {
      hide Coherent;
      assert Slot(no, tables.held[no]);
      forall i | 0 <= i < TABLE && i != no ensures entities[i] != e {
        assert Slot(i, tables.held[i]);
      }
    }

    /** The fragment, of an entity that is in the table. */
    method NextFragment(e: Entity, no: byte, ghost en: Engine) returns (data: seq<byte>, chained: bool)
      requires Is(en) && entities[no] == e
      modifies e`xCurrent, e`xOffset, e`more, e`mInd
      ensures en.outs[no].Some?
      ensures var o := en.outs[no].value;
              && Is(en.(outs := en.outs[no := Some(Advanced(o))]))
              && data == Piece(o).data && chained == IsChained(o) && (chained ==> e.mInd == o.mInd)
    {
      hide Coherent, Advanced, IsChained, Piece;
      assert Slot(no, tables.held[no]) && OutSlot(no, en.outs[no]);
      if IsChained(en.outs[no].value) {
        ChainedCode(en.outs[no].value);
      }
      Apart(e, no);
      data, chained := Fragment(e);
    }

    /** The flags of the adapter, when the last fragment of a request is sent. */
    method NoteSent(e: Entity, ghost en: Engine, ghost o: Out)
      requires Is(en) && entities[e.no] == e && e.reqCh == o.ch && e.id == o.id && e.req == o.req
      modifies flowSkipTable, removePending
      ensures Is(Completed(en, e.no, o))
    {
      hide Coherent;
      if flowIdTable[e.reqCh] == e.id {
        flowSkipTable[e.reqCh] := true;
      }
      if e.req == REMOVE {
        removePending[e.no] := true;
      }
    }

    /** An ASSIGN is sent: its reference is kept. */
    method NoteAssign(e: Entity, ref: word, ghost en: Engine)
      requires Is(en) && entities[e.no] == e && Global(e.id)
      modifies this`tables, this`assigns, idTypeTable
      ensures Is(Assigning(en, e.no, e.id, ref))
    {
      assert Slot(e.no, tables.held[e.no]);
      AskedCoherent(tables, e.no);
      hide Coherent;
      idTypeTable[e.no] := e.id;
      assigns := assigns[e.no := ref];
      tables := Asked(tables, e.no);
    }

    /** The end of pr_out: an UREMOVE has no return code, so the Id goes at once.  Only the last
        entity of the pass is looked at. */
    method Unreturned(e: Entity, ghost en: Engine)
      requires Is(en) && entities[e.no] == e && e.id != 0
      modifies this`tables, entities, flowIdTable, idTable, e`id
      ensures en.outs[e.no].Some? && Is(Dropped(en, e.no))
    {
      assert Slot(e.no, tables.held[e.no]) && OutSlot(e.no, en.outs[e.no]);
      LiveOrGlobal(tables, e.no, e.id);
      Apart(e, e.no);
      hide Coherent;
      if idTable[e.id] != 0 {
        RemoveLast(e, en);
      } else {
        ForgetKind(e, en);
      }
    }

    method RemoveLast(e: Entity, ghost en: Engine)
      requires Is(en) && entities[e.no] == e && e.id != 0 && idTable[e.id] == e.no && e.no != 0
      requires !Global(e.id) && forall i :: 0 <= i < TABLE && i != e.no ==> entities[i] != e
      requires en.outs[e.no].Some? && en.outs[e.no].value.id == e.id
      modifies this`tables, entities, flowIdTable, idTable, e`id
      ensures Is(Dropped(en, e.no))
    {
      hide Coherent;
      ghost var no := e.no;
      RemoveEntity(e, e.id);
      assert forall i :: 0 <= i < TABLE && i != no ==> entities[i] == old(entities[..])[i];
      assert entities[no] == null;
    }

    method ForgetKind(e: Entity, ghost en: Engine)
      requires Is(en) && entities[e.no] == e && idTable[e.id] == 0 && Global(e.id)
      requires flowIdTable[..] == Unflow(flowIdTable[..], e.id)
      requires forall i :: 0 <= i < TABLE && i != e.no ==> entities[i] != e
      requires en.outs[e.no].Some? && en.outs[e.no].value.id == e.id
      modifies this`tables, entities, flowIdTable, idTable, e`id
      ensures Is(Dropped(en, e.no))
    {
      assert Slot(e.no, tables.held[e.no]) && OutSlot(e.no, en.outs[e.no]);
      RetypeCoherent(tables, e.no);
      assert Slot(0, tables.held[0]);
      hide Coherent;
      ghost var no := e.no;
      Free(0, e.id);
      e.id := 0;
      tables := Entered(tables, no, 0);
      assert entities[..] == old(entities[..]);
      assert idTable[..] == old(idTable[..]);
      assert forall i :: 0 <= i < TABLE && i != no ==> entities[i] == old(entities[..])[i];
    }

    // pr_out; ready is ReadyCount, the number of free request slots, and refs are their references
    method PrOut(ready: nat, refs: seq<word>, ghost en: Engine) returns (requests: seq<Request>, left: nat)
      requires Is(en) && ready <= |refs|
      modifies this`tables, this`queue, this`assigns, entities, flowIdTable, idTable, idTypeTable, flowSkipTable, removePending
      modifies set i | 0 <= i < entities.Length :: entities[i]
      ensures var turns := Turns(en, refs, ready);
              && Is(Ended(Pass(en, refs, ready), turns))
              && requests == Requests(turns) && left == ready - |turns|
    {
      hide Coherent, Turn, ServedBy, Fit, Drops, Ended, Slot, OutSlot, Behind;
      requests, left := [], ready;
      var last: Entity? := null;
      ghost var now, all := en, set i | 0 <= i < entities.Length :: entities[i];
      ghost var turns: seq<Served> := [];
      while queue != [] && left > 0
        invariant left <= ready && |requests| + left <= ready && Is(now) && entities[..] == old(entities[..])
        invariant Pass(now, refs[|requests|..], left) == Pass(en, refs, ready)
        invariant turns + Turns(now, refs[|requests|..], left) == Turns(en, refs, ready)
        invariant requests == Requests(turns) && |turns| == ready - left
        invariant turns == [] ==> last == null
        invariant last == null || last in all
        invariant turns != [] ==> last == entities[turns[|turns| - 1].no]
        decreases left
      {
        var no := queue[0];
        last := entities[no];
        ghost var s, rest := ServedBy(now), refs[|requests|..];
        var r := Send(refs[|requests|], now);
        OneMoreTurn(now, rest, left, turns);
        turns, now := turns + [s], Turn(now, rest[0]);
        if r.Some? {
          requests := requests + [r.value];
        }
        left := left - 1;
      }
      EndOfTurns(now, refs[|requests|..], left);
      assert turns + [] == turns;
      EndPass(last, now, turns);
    }

    /** What follows the loop. */
    method EndPass(last: Entity?, ghost en: Engine, ghost turns: seq<Served>)
      requires Is(en) && (turns == [] ==> last == null)
      requires turns != [] ==> last == entities[turns[|turns| - 1].no]
      modifies this`tables, entities, flowIdTable, idTable, last
      ensures Is(Ended(en, turns))
    {
      hide Coherent, Dropped;
      if last != null {
        assert OutSlot(turns[|turns| - 1].no, en.outs[turns[|turns| - 1].no]);
        Apart(last, turns[|turns| - 1].no);
        if last.req == UREMOVE && last.id != 0 {
          Unreturned(last, en);
        }
      } else if turns != [] {
        assert OutSlot(turns[|turns| - 1].no, en.outs[turns[|turns| - 1].no]);
      }
    }

    // --------------------------------------------------------- return codes

    /** Whether an OK acknowledges a REMOVE, and whether it is only the first of two that do. */
    ghost predicate Acknowledges(no: byte, rc: byte)
      requires Shape()
      reads removePending
    {
      removePending[no] && rc == RC_OK
    }

    ghost predicate Premature(no: byte, rc: byte, info: dword)
      requires Shape()
      reads this, removePending, idTypeTable
    {
      Acknowledges(no, rc) && idTypeTable[no] == NL_ID && rcExtension && info != TYPE_REMOVE_COMPLETE
    }

    /** isdn_rc: 2 for a return code nobody waits for; called is the entity called back.  Card
        and application keep their rules: an assigned Id is no global one. */
    method ReturnCode(rc: byte, id: byte, ch: byte, ref: word, info: dword) returns (r: byte, called: Option<byte>)
      requires Valid() && (rc == ASSIGN_OK ==> !Global(id))
      modifies this`tables, this`assigns, this`readyInt, this`rcExtension
      modifies entities, flowIdTable, idTable, flowSkipTable, removePending, noCanceling
      modifies set i | 0 <= i < entities.Length :: entities[i]
      ensures Valid()
      ensures rc == READY_INT || r == 2 ==> tables == old(tables) && called == None && entities[..] == old(entities[..])
      ensures rc == READY_INT ==>
                r == (if old(readyInt) > 0 then 0 else 2) && readyInt == Max(old(readyInt) - 1, 0) && assigns == old(assigns)
      ensures rc != READY_INT ==> readyInt == old(readyInt)
      ensures rc != READY_INT && old(idTable[id]) != 0 ==>
                && r == 0 && (called == None || called == Some(old(idTable[id])))
                && tables == (if old(Premature(idTable[id], rc, info)) then old(tables)
                              else After(old(tables), id, ch, old(Acknowledges(idTable[id], rc)), rc, info, old(noCanceling[idTable[id]])))
                && var e := old(entities[idTable[id]]);
                   e != null && e.rcCh == ch && var out := OutcomeOf(
                     old(e.more), rc, info, ch == e.reqCh, old(idTable[id]), old(removePending[..]), old(noCanceling[..]),
                     old(flowIdTable[ch]) == id, old(flowSkipTable[ch]), old(Premature(idTable[id], rc, info)));
                   e.more == out.more && (called.Some? <==> out.called) && (out.called ==> e.rc == rc)
      ensures rc != READY_INT && old(idTable[id]) == 0 && r == 1 ==>
                && called.Some? && called.value in old(assigns) && old(assigns)[called.value] == ref && rc / 0x10 == 0xe
                && tables == (if rc == ASSIGN_OK then Assigned(old(tables), called.value, id) else Refused(old(tables), called.value, id))
                && assigns == old(assigns) - {called.value}
                && var e := old(entities[called.value]);
                   e != null && e.rc == rc && e.complete == 0xff && e.more == Clear(old(e.more), XBUSY)
      ensures rc != READY_INT && old(idTable[id]) == 0 ==>
                (r == 1 <==> rc / 0x10 == 0xe && exists no :: no in old(assigns) && old(assigns)[no] == ref)
    {
      hide Coherent;
      called := None;
      if rc == READY_INT {
        if readyInt > 0 {
          readyInt := readyInt - 1;
          return 0, None;
        }
        return 2, None;
      }
      var no := idTable[id];
      if no != 0 {
        assert Slot(no, tables.held[no]);
        LiveEntity(tables, id);
        hide After;
        var back := Known(entities[no], rc, id, ch, info);
        return 0, if back then Some(no) else None;
      }
      if rc / 0x10 * 0x10 == ASSIGN_RC {
        var waiting := GetAssign(ref);
        if waiting.Some? {
          assert Slot(waiting.value, tables.held[waiting.value]);
          WaitingEntity(tables, waiting.value);
          Answer(entities[waiting.value], waiting.value, rc, id);
          return 1, waiting;
        }
      }
      return 2, None;
    }

    // get_assign: the entity that waits for the reference
    method GetAssign(ref: word) returns (no: Option<byte>)
      ensures no.Some? ==> no.value in assigns && assigns[no.value] == ref
      ensures no.None? ==> forall n :: n in assigns ==> assigns[n] != ref
    {
      if n :| n in assigns && assigns[n] == ref {
        no := Some(n);
      } else {
        no := None;
      }
    }

    /** The answer to an ASSIGN. */
    method Answer(e: Entity, no: byte, rc: byte, id: byte)
      requires Valid() && no in assigns && entities[no] == e && idTable[id] == 0 && (rc == ASSIGN_OK ==> !Global(id))
      modifies this`tables, this`assigns, entities, flowIdTable, idTable, e`id, e`rc, e`more, e`complete
      ensures Valid() && e.rc == rc && e.complete == 0xff && e.more == Clear(old(e.more), XBUSY)
      ensures assigns == old(assigns) - {no}
      ensures tables == if rc == ASSIGN_OK then Assigned(old(tables), no, id) else Refused(old(tables), no, id)
    {
      hide Coherent, Clear;
      e.rc, e.more, e.complete := rc, Clear(e.more, XBUSY), 0xff;
      // the callback
      if rc == ASSIGN_OK {
        Accept(e, no, id);
      } else {
        Refuse(e, no, id);
      }
    }

    method Accept(e: Entity, no: byte, id: byte)
      requires Valid() && no in assigns && entities[no] == e && idTable[id] == 0 && !Global(id)
      modifies this`tables, this`assigns, idTable, e`id
      ensures Valid() && tables == Assigned(old(tables), no, id) && assigns == old(assigns) - {no}
    {
      assert Slot(no, tables.held[no]);
      AssignedCoherent(tables, no, id);
      hide Coherent;
      assigns := assigns - {no};
      e.id := id;
      idTable[id] := no;
      tables := Assigned(tables, no, id);
    }

    method Refuse(e: Entity, no: byte, id: byte)
      requires Valid() && no in assigns && entities[no] == e && idTable[id] == 0
      modifies this`tables, this`assigns, entities, flowIdTable, idTable, e`id
      ensures Valid() && tables == Refused(old(tables), no, id) && assigns == old(assigns) - {no}
    {
      assert Slot(no, tables.held[no]);
      RefusedCoherent(tables, no, id);
      hide Coherent;
      assigns := assigns - {no};
      e.id := id;
      Free(no, id);
      tables := Refused(tables, no, id);
      assert forall i :: 0 <= i < TABLE && i != no ==> entities[i] == old(entities[i]);
    }

    /** A return code for an entity with the Id. */
    method Known(e: Entity, rc: byte, id: byte, ch: byte, info: dword) returns (called: bool)
      requires Valid() && idTable[id] != 0 && entities[idTable[id]] == e && e.no == idTable[id]
      modifies this`tables, this`rcExtension, entities, flowIdTable, idTable, flowSkipTable, removePending, noCanceling
      modifies e`id, e`rc, e`rcCh, e`rnr, e`more, e`complete
      ensures Valid() && e.rcCh == ch
      ensures old(Premature(e.no, rc, info)) ==>
                && tables == old(tables) && removePending[..] == old(removePending[..]) && e.rnr == old(e.rnr)
                && noCanceling[..] == old(noCanceling[..]) && flowSkipTable[..] == old(flowSkipTable[..])
      ensures !old(Premature(e.no, rc, info)) ==>
                var ack := old(Acknowledges(e.no, rc)); var kept := rc != OK_FC && info == TYPE_OK_FC;
                && tables == After(old(tables), id, ch, ack, rc, info, old(noCanceling[e.no]))
                && removePending[..] == Put(old(removePending[..]), e.no, ack, false)
                && noCanceling[..] == Put(Put(old(noCanceling[..]), e.no, ack, false), e.no, kept, true)
                && flowSkipTable[..] == Put(old(flowSkipTable[..]), ch, rc == OK_FC, false)
                && e.rnr == if !ack then old(e.rnr) else if kept then OK_FC_INFO else 0
      ensures var out := OutcomeOf(old(e.more), rc, info, ch == e.reqCh, e.no, old(removePending[..]), old(noCanceling[..]),
                                   old(flowIdTable[ch]) == id, old(flowSkipTable[ch]), old(Premature(e.no, rc, info)));
              e.more == out.more && called == out.called && (called ==> e.rc == rc)
      ensures rcExtension == (old(rcExtension)
                              || (old(Acknowledges(e.no, rc)) && idTypeTable[e.no] == NL_ID && info == TYPE_REMOVE_COMPLETE))
    {
      hide Coherent, After, Settled, Answered;
      AfterIs(tables, id, ch, rc, info, noCanceling[e.no]);
      LiveEntity(tables, id);
      var rnr := e.rnr;
      SetReturn(e, 0, ch);
      var removal := Acknowledge(e, rc, id, info);
      if removal == Waits {
        SetReturn(e, rnr, ch);
        return false;
      }
      called := Deliver(e, rc, id, ch, info, removal == Done);
      if removal == No {
        SetReturn(e, rnr, ch);
      }
    }

    /** RNR and channel of the return code, which no table depends on. */
    method SetReturn(e: Entity, rnr: byte, ch: byte)
      requires Valid()
      modifies e`rnr, e`rcCh
      ensures Valid() && e.rnr == rnr && e.rcCh == ch
    {
      hide Coherent;
      e.rnr, e.rcCh := rnr, ch;
    }

    /** The removal, when an OK acknowledges a REMOVE. */
    method Acknowledge(e: Entity, rc: byte, id: byte, info: dword) returns (removal: Removal)
      requires Valid() && idTable[id] != 0 && entities[idTable[id]] == e && e.no == idTable[id]
      modifies this`tables, this`rcExtension, entities, flowIdTable, idTable, removePending, noCanceling, e`id, e`more
      ensures Valid() && e.no == old(e.no)
      ensures removal == if !old(Acknowledges(e.no, rc)) then No else if old(Premature(e.no, rc, info)) then Waits else Done
      ensures e.more == (if removal == Done then Settled(old(e.more)) else old(e.more))
      ensures tables == (if removal == Done then Removed(old(tables), id) else old(tables))
      ensures removePending[..] == Put(old(removePending[..]), e.no, removal == Done, false)
      ensures noCanceling[..] == Put(old(noCanceling[..]), e.no, removal == Done, false)
      ensures rcExtension == (old(rcExtension)
                              || (old(Acknowledges(e.no, rc)) && idTypeTable[e.no] == NL_ID && info == TYPE_REMOVE_COMPLETE))
    {
      hide Coherent, Settled;
      if !removePending[e.no] || rc != RC_OK {
        return No;
      }
      if idTypeTable[e.no] == NL_ID {
        if rcExtension && info != TYPE_REMOVE_COMPLETE {
          return Waits;
        }
        if info == TYPE_REMOVE_COMPLETE {
          rcExtension := true;
        }
      }
      removePending[e.no], noCanceling[e.no] := false, false;
      RemoveEntity(e, id);
      e.more := Settled(e.more);
      return Done;
    }

    /** What follows once a REMOVE has been looked for. */
    method Deliver(e: Entity, rc: byte, id: byte, ch: byte, info: dword, ghost removed: bool) returns (called: bool)
      requires Valid() && id != 0
      requires if removed then rc == RC_OK && flowIdTable[ch] != id && !noCanceling[e.no] else idTable[id] != 0
      modifies this`tables, flowIdTable, flowSkipTable, noCanceling, e`rc, e`rnr, e`more, e`complete
      ensures Valid()
      ensures tables == if removed then old(tables) else After(old(tables), id, ch, false, rc, info, old(noCanceling[e.no]))
      ensures Outcome(e.more, called) == Answered(old(e.more), rc, info, ch == e.reqCh, !old(noCanceling[e.no]),
                                                  old(flowIdTable[ch]) == id, old(flowSkipTable[ch]))
      ensures called ==> e.rc == rc
      ensures noCanceling[..] == Put(old(noCanceling[..]), e.no, rc != OK_FC && info == TYPE_OK_FC, true)
      ensures flowSkipTable[..] == Put(old(flowSkipTable[..]), ch, rc == OK_FC, false)
      ensures e.rnr == if rc != OK_FC && info == TYPE_OK_FC then OK_FC_INFO else old(e.rnr)
    {
      AfterIs(tables, id, ch, rc, info, noCanceling[e.no]);
      hide Coherent, Clear, ClearCount, After, Counting;
      if rc == OK_FC {
        FlowStops(e, id, ch);
        return true;
      }
      if info == TYPE_OK_FC {
        noCanceling[e.no] := true;
        e.rnr, e.rc, e.complete := OK_FC_INFO, rc, 0xff;
        // the callback
        return true;
      }
      if !noCanceling[e.no] && flowIdTable[ch] == id {
        called := FlowGoesOn(e, rc, id, ch);
      } else {
        called := Plain(e, rc, !noCanceling[e.no]);
      }
    }

    method SetFlow(ch: byte, id: byte)
      requires Valid() && (id == 0 || idTable[id] != 0)
      modifies this`tables, flowIdTable
      ensures Valid() && tables == FlowSet(old(tables), ch, id)
    {
      FlowSetCoherent(tables, ch, id);
      hide Coherent;
      flowIdTable[ch] := id;
      tables := FlowSet(tables, ch, id);
    }

    /** OK_FC: the card cannot take more for the channel. */
    method FlowStops(e: Entity, id: byte, ch: byte)
      requires Valid() && idTable[id] != 0
      modifies this`tables, flowIdTable, flowSkipTable, e`rc, e`more, e`complete
      ensures Valid() && tables == FlowSet(old(tables), ch, id)
      ensures flowSkipTable[..] == old(flowSkipTable[..])[ch := false]
      ensures e.rc == OK_FC && e.more == Clear(ClearCount(old(e.more)), XBUSY)
    {
      hide Coherent, Clear, ClearCount;
      SetFlow(ch, id);
      flowSkipTable[ch] := false;
      e.rc, e.more, e.complete := OK_FC, Clear(ClearCount(e.more), XBUSY), 0xff;
      // the callback
    }

    /** A return code that ends flow control on the channel. */
    method FlowGoesOn(e: Entity, rc: byte, id: byte, ch: byte) returns (called: bool)
      requires Valid() && flowIdTable[ch] == id
      modifies this`tables, flowIdTable, e`rc, e`more, e`complete
      ensures Valid() && tables == FlowSet(old(tables), ch, 0)
      ensures called <==> rc != RC_OK || !flowSkipTable[ch]
      ensures called ==> e.rc == rc
      ensures e.more == if called && ch == e.reqCh then Clear(ClearCount(old(e.more)), XBUSY) else old(e.more)
    {
      hide Coherent, Clear, ClearCount;
      SetFlow(ch, 0);
      called := rc != RC_OK || !flowSkipTable[ch];
      if called {
        e.rc := rc;
        if ch == e.reqCh {
          e.more, e.complete := Clear(ClearCount(e.more), XBUSY), 0xff;
        }
        // the callback
      }
    }

    /** A return code is counted. */
    static method Plain(e: Entity, rc: byte, cancel: bool) returns (called: bool)
      modifies e`rc, e`more, e`complete
      ensures Outcome(e.more, called) == Counting(old(e.more), cancel) && (called ==> e.rc == rc)
    {
      hide Clear, Has, Count, Counted;
      e.more := Counted(e.more);
      called := (!cancel || Has(e.more, XMOREF)) && Count(e.more) == 0 && !Has(e.more, XMOREP);
      if called {
        e.rc, e.more, e.complete := rc, Clear(e.more, XBUSY), 0xff;
        // the callback
      }
    }
  }

  const OK_FC_INFO: byte := 0xb

  /** No acknowledgement of a REMOVE; the first of two; the removal. */
  datatype Removal = No | Waits | Done

  /** What a removed entity still waits for: one return code at most. */
  function Settled(more: byte): byte {
    if Count(more) > 1 then ClearCount(more) + 1 else more
  }

  function Put(s: seq<bool>, k: byte, due: bool, b: bool): seq<bool>
    requires k < |s|
  {
    if due then s[k := b] else s
  }

  /** What a return code does to More, and whether the application is called back. */
  datatype Outcome = Outcome(more: byte, called: bool)

  /** A return code is counted; canceling ones call back only behind the final fragment. */
  function Counting(more: byte, cancel: bool): Outcome {
    var k := Counted(more);
    var called := (!cancel || Has(k, XMOREF)) && Count(k) == 0 && !Has(k, XMOREP);
    Outcome(if called then Clear(k, XBUSY) else k, called)
  }

  /** flowing: the channel is under flow control for this Id; here: it is the channel of the
      entity's request. */
  function Answered(more: byte, rc: byte, info: dword, here: bool, cancel: bool, flowing: bool, skip: bool): Outcome {
    if rc == OK_FC then Outcome(Clear(ClearCount(more), XBUSY), true)
    else if info == TYPE_OK_FC then Outcome(more, true)
    else if cancel && flowing then
      var called := rc != RC_OK || !skip;
      Outcome(if called && here then Clear(ClearCount(more), XBUSY) else more, called)
    else Counting(more, cancel)
  }

  /** The whole handler for a live Id: a REMOVE that is acknowledged ends flow control and leaves at
      most one return code to wait for; the first of two acknowledgements does nothing. */
  function OutcomeOf(more: byte, rc: byte, info: dword, here: bool, no: byte, pending: seq<bool>, keep: seq<bool>,
                     flowing: bool, skip: bool, premature: bool): Outcome
    requires no < |pending| && no < |keep|
  {
    if premature then Outcome(more, false)
    else if pending[no] && rc == RC_OK then Answered(Settled(more), rc, info, here, true, false, skip)
    else Answered(more, rc, info, here, !keep[no], flowing, skip)
  }

  /** Without flow control, removal and kept return codes the handler does what the completion rule
      says: OneCompletionIffShort is about these very steps. */
  lemma PlainIsCompletion(more: byte, rc: byte, info: dword, here: bool, no: byte, pending: seq<bool>, keep: seq<bool>, skip: bool)
    requires no < |pending| && no < |keep| && !pending[no] && !keep[no] && rc != OK_FC && info != TYPE_OK_FC
    ensures OutcomeOf(more, rc, info, here, no, pending, keep, false, skip, false)
            == Outcome(Returned(more), Completes(Counted(more)))
  {
  }

  /** When flow control begins nothing is awaited any more and the entity is free; when it ends on
      the channel of its request, likewise, unless the return code is the one that is skipped. */
  lemma FlowFrees(more: byte, rc: byte, info: dword, cancel: bool, flowing: bool, skip: bool)
    requires rc == OK_FC || (info != TYPE_OK_FC && cancel && flowing && (rc != RC_OK || !skip))
    ensures var out := Answered(more, rc, info, true, cancel, flowing, skip);
            out.called && Count(out.more) == 0 && !Has(out.more, XBUSY)
  {
    var (p, f, b) := (Has(more, XMOREP), Has(more, XMOREF), Has(more, XBUSY));
    ClearFields(more, Count(more), p, f, b);
    ClearFields(ClearCount(more), 0, p, f, b);
  }

  /** The tables after a return code for a live Id. */
  ghost function After(t: Tables, id: byte, ch: byte, ack: bool, rc: byte, info: dword, noCancel: bool): Tables
    requires |t.ids| == |t.flow| == |t.held| == TABLE
  {
    if ack then Removed(t, id)
    else if rc == OK_FC then FlowSet(t, ch, id)
    else if info != TYPE_OK_FC && !noCancel && t.flow[ch] == id then FlowSet(t, ch, 0)
    else t
  }

  lemma AfterIs(t: Tables, id: byte, ch: byte, rc: byte, info: dword, noCancel: bool)
    requires |t.ids| == |t.flow| == |t.held| == TABLE
    ensures After(t, id, ch, true, rc, info, noCancel) == Removed(t, id)
    ensures id != 0 ==> Removed(t, id).flow[ch] != id
    ensures After(t, id, ch, false, rc, info, noCancel)
            == if rc == OK_FC then FlowSet(t, ch, id)
               else if info != TYPE_OK_FC && !noCancel && t.flow[ch] == id then FlowSet(t, ch, 0)
               else t
  {
  }

  lemma LiveEntity(t: Tables, id: byte)
    requires Coherent(t) && t.ids[id] != 0
    ensures t.held[t.ids[id]] == Some(id) && id != 0
  {
  }

  lemma WaitingEntity(t: Tables, no: byte)
    requires Coherent(t) && no in t.waiting
    ensures t.held[no].Some?
  {
  }

  lemma LiveOrGlobal(t: Tables, e: byte, id: byte)
    requires Coherent(t) && t.held[e] == Some(id) && id != 0
    ensures e != 0 && (if Global(id) then t.ids[id] == 0 && t.flow == Unflow(t.flow, id) else t.ids[id] == e)
  {
  }
}
