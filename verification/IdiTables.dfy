/** The Id and flow-control tables of an adapter (kernel/di.c) as values, and what every step
    makes of them. */
module IdiTables {
  import opened Machine

  const TABLE := 256

  /** ids: IdTable.  flow: FlowControlIdTable.  held: the Id each entity holds, by entity number.
      waiting: the entities whose ASSIGN has been sent and not answered. */
  datatype Tables = Tables(ids: seq<byte>, flow: seq<byte>, held: seq<Option<byte>>, waiting: set<byte>)

  /** Low five bits zero: no Id of a card, but the kind of entity an ASSIGN asks for. */
  predicate Global(id: byte) {
    id % 0x20 == 0
  }

  ghost predicate Sized(t: Tables) {
    |t.ids| == |t.flow| == |t.held| == TABLE
  }

  /** An Id in the table belongs to the entity it names, and an entity with an Id of the card is
      in the table; entities that wait for their Id have none; flow control is kept for live
      Ids only. */
  ghost predicate Coherent(t: Tables) {
    && Sized(t) && t.held[0] == None
    && (forall id: byte :: t.ids[id] != 0 ==> t.held[t.ids[id]] == Some(id) && !Global(id))
    && (forall e: byte :: t.held[e].Some? && !Global(t.held[e].value) ==> t.ids[t.held[e].value] == e)
    && (forall e: byte :: e in t.waiting ==> t.held[e].Some? && Global(t.held[e].value))
    && (forall ch: byte :: t.flow[ch] != 0 ==> t.ids[t.flow[ch]] != 0)
  }

  /** No two Ids name one entity, and an entity that waits is not in the table. */
  lemma IdsAreInjective(t: Tables, i: byte, j: byte)
    requires Coherent(t) && t.ids[i] != 0
    ensures t.ids[i] == t.ids[j] ==> i == j
    ensures t.ids[i] !in t.waiting
  {
  }

  /** Every entry of the flow table that names the Id is cleared. */
  function Unflow(flow: seq<byte>, id: byte): (f: seq<byte>)
    ensures |f| == |flow| && forall c :: 0 <= c < |f| ==> f[c] == if flow[c] == id then 0 else flow[c]
  {
    seq(|flow|, c requires 0 <= c < |flow| => if flow[c] == id then 0 else flow[c])
  }

  // a new entity asks to be assigned
  function Entered(t: Tables, e: byte, id: byte): Tables
    requires e < |t.held|
  {
    t.(held := t.held[e := Some(id)])
  }

  // its ASSIGN has been sent
  function Asked(t: Tables, e: byte): Tables {
    t.(waiting := t.waiting + {e})
  }

  // the answer to its ASSIGN
  function Assigned(t: Tables, e: byte, id: byte): Tables
    requires e < |t.held| && id < |t.ids|
  {
    t.(ids := t.ids[id := e], held := t.held[e := Some(id)], waiting := t.waiting - {e})
  }

  function Refused(t: Tables, e: byte, id: byte): Tables
    requires e < |t.held| && id < |t.ids|
  {
    t.(ids := t.ids[id := 0], flow := Unflow(t.flow, id), held := t.held[e := None], waiting := t.waiting - {e})
  }

  // the entity of an Id is removed
  function Removed(t: Tables, id: byte): Tables
    requires id < |t.ids| && t.ids[id] < |t.held|
  {
    t.(ids := t.ids[id := 0], flow := Unflow(t.flow, id), held := t.held[t.ids[id] := None])
  }

  function FlowSet(t: Tables, ch: byte, id: byte): Tables
    requires ch < |t.flow|
  {
    t.(flow := t.flow[ch := id])
  }

  lemma EnteredCoherent(t: Tables, e: byte, id: byte)
    requires Coherent(t) && e != 0 && t.held[e] == None && Global(id)
    ensures Coherent(Entered(t, e, id))
  {
  }

  lemma AskedCoherent(t: Tables, e: byte)
    requires Coherent(t) && t.held[e].Some? && Global(t.held[e].value)
    ensures Coherent(Asked(t, e))
  {
  }

  lemma AssignedCoherent(t: Tables, e: byte, id: byte)
    requires Coherent(t) && e in t.waiting && t.ids[id] == 0 && !Global(id)
    ensures Coherent(Assigned(t, e, id))
  {
    assert t.held[e].Some? && Global(t.held[e].value);
  }

  lemma RefusedCoherent(t: Tables, e: byte, id: byte)
    requires Coherent(t) && e in t.waiting && t.ids[id] == 0
    ensures Coherent(Refused(t, e, id))
  {
    assert t.held[e].Some? && Global(t.held[e].value);
  }

  lemma RemovedCoherent(t: Tables, id: byte)
    requires Coherent(t) && t.ids[id] != 0
    ensures Coherent(Removed(t, id))
  {
  }

  lemma FlowSetCoherent(t: Tables, ch: byte, id: byte)
    requires Coherent(t) && (id == 0 || t.ids[id] != 0)
    ensures Coherent(FlowSet(t, ch, id))
  {
  }

  /** UREMOVE of an entity that has no Id only resets the kind it asks for. */
  lemma RetypeCoherent(t: Tables, e: byte)
    requires Coherent(t) && t.held[e].Some? && Global(t.held[e].value)
    ensures Coherent(Entered(t, e, 0))
  {
  }

  // ----------------------------------------------------------------- all runs

  datatype Step =
    | Enter(e: byte, id: byte)
    | Ask(e: byte)
    | Assign(e: byte, id: byte)
    | Refuse(e: byte, id: byte)
    | Remove(id: byte)
    | Flow(ch: byte, id: byte)
    | Retype(e: byte)

  /** When a step can happen: a new entity takes a free number and a global Id, only an entity
      without an Id is asked for, an answer goes to one that waits and brings an Id that is not
      taken, Ids that are removed or put under flow control are live, and only an entity without an
      Id changes its kind. */
  predicate Allowed(t: Tables, s: Step)
    requires |t.ids| == |t.flow| == |t.held| == TABLE
  {
    match s
    case Enter(e, id) => e != 0 && t.held[e] == None && Global(id)
    case Ask(e) => t.held[e].Some? && Global(t.held[e].value)
    case Assign(e, id) => e in t.waiting && t.ids[id] == 0 && !Global(id)
    case Refuse(e, id) => e in t.waiting && t.ids[id] == 0
    case Remove(id) => t.ids[id] != 0
    case Flow(ch, id) => id == 0 || t.ids[id] != 0
    case Retype(e) => t.held[e].Some? && Global(t.held[e].value)
  }

  function Apply(t: Tables, s: Step): (u: Tables)
    requires |t.ids| == |t.flow| == |t.held| == TABLE
    ensures |u.ids| == |u.flow| == |u.held| == TABLE
  {
    match s
    case Enter(e, id) => Entered(t, e, id)
    case Ask(e) => Asked(t, e)
    case Assign(e, id) => Assigned(t, e, id)
    case Refuse(e, id) => Refused(t, e, id)
    case Remove(id) => Removed(t, id)
    case Flow(ch, id) => FlowSet(t, ch, id)
    case Retype(e) => Entered(t, e, 0)
  }

  function Empty(): Tables {
    Tables(seq(TABLE, _ => 0), seq(TABLE, _ => 0), seq(TABLE, _ => None), {})
  }

  function Run(steps: seq<Step>): (t: Tables)
    ensures |t.ids| == |t.flow| == |t.held| == TABLE
  {
    if steps == [] then Empty() else Apply(Run(steps[..|steps| - 1]), steps[|steps| - 1])
  }

  predicate Legal(steps: seq<Step>) {
    steps == [] || (Legal(steps[..|steps| - 1]) && Allowed(Run(steps[..|steps| - 1]), steps[|steps| - 1]))
  }

  /** The tables are coherent after every run. */
  lemma {:induction false} RunsAreCoherent(steps: seq<Step>)
    requires Legal(steps)
    ensures Coherent(Run(steps))
  {
    if steps != [] {
      var t := Run(steps[..|steps| - 1]);
      RunsAreCoherent(steps[..|steps| - 1]);
      StepIsCoherent(t, steps[|steps| - 1]);
    }
  }

  lemma StepIsCoherent(t: Tables, s: Step)
    requires Coherent(t) && Allowed(t, s)
    ensures Coherent(Apply(t, s))
  {
    match s
    case Enter(e, id) => EnteredCoherent(t, e, id);
    case Ask(e) => AskedCoherent(t, e);
    case Assign(e, id) => AssignedCoherent(t, e, id);
    case Refuse(e, id) => RefusedCoherent(t, e, id);
    case Remove(id) => RemovedCoherent(t, id);
    case Flow(ch, id) => FlowSetCoherent(t, ch, id);
    case Retype(e) => RetypeCoherent(t, e);
  }
}
