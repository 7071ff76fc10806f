/** Reading back the PCINIT list that diva_cfg_write_pcinit (kernel/diva_cfg_lib.c) writes. */
module CfgPcInit {
  import opened Machine
  import opened CfgTree
  import opened CfgWalk
  import opened CfgSection

  /** A parameter and the line it is for. */
  datatype Param = Param(line: byte, kind: byte, data: seq<byte>)

  /** The parameters of an instance, in order. */
  function Params(items: seq<Element>): seq<Param> {
    if items == [] then []
    else
      var e, ps := items[|items| - 1], Params(items[..|items| - 1]);
      if IsPcInit(e) then ps + [ParamOf(e.children)] else ps
  }

  function ParamOf(cs: seq<Element>): Param {
    Param(LineOf(cs), PcType(cs), if PcType(cs) < 0x80 then PcData(cs) else [])
  }

  /** A list entry is a type and, for types below 0x80, a length and data; type 0 ends the list,
      and a line number stands for the parameters behind it. */
  function ReadList(b: seq<byte>, line: byte): Option<seq<Param>>
    decreases |b|
  {
    if b == [] then None
    else if b[0] == 0 then Some([])
    else if b[0] >= 0x80 then Before(Param(line, b[0], []), ReadList(b[1..], line))
    else if |b| < 2 || |b| - 2 < b[1] then None
    else if b[0] == PCINIT_CFG_LINE_NUMBER && b[1] == 1 then ReadList(b[3..], b[2])
    else
      var n: nat := b[1];
      Before(Param(line, b[0], b[2..2 + n]), ReadList(b[2 + n..], line))
  }

  function Before(p: Param, ps: Option<seq<Param>>): Option<seq<Param>> {
    if ps.None? then None else Some([p] + ps.value)
  }

  function After(ps: seq<Param>, qs: Option<seq<Param>>): Option<seq<Param>> {
    if qs.None? then None else Some(ps + qs.value)
  }

  /** Types that mean something to the reader of the list itself. */
  predicate Reserved(p: Param) {
    p.kind == 0 || (p.kind == PCINIT_CFG_LINE_NUMBER && |p.data| == 1)
  }

  /** Reading the list of an instance gives its parameters, each under its own line, exactly when
      none of them takes the place of an end or of a line number. */
  lemma ListIsParametersIff(items: seq<Element>)
    ensures ReadList(PcBytes(items), 0) == Some(Params(items)) <==> forall p :: p in Params(items) ==> !Reserved(p)
  {
    hide ListSize, ReadList, Params, Missed, Reserved, Ended, PcRun;
    SizeOfList(PcBytes(items), 0);
    RunSize(items, [0]);
    EndSize();
    ReservedAreMissed(items);
    if forall p :: p in Params(items) ==> !Reserved(p) {
      ListIsParameters(items);
    }
  }

  lemma EndSize()
    ensures ListSize([0]) == Some(0)
  {
  }

  lemma ListIsParameters(items: seq<Element>)
    requires forall p :: p in Params(items) ==> !Reserved(p)
    ensures ReadList(PcBytes(items), 0) == Some(Params(items))
  {
    RunIsRead(items, [0]);
    assert ReadList([0], PcRun(items).line) == Some([]);
    assert Params(items) + [] == Params(items);
  }

  lemma {:induction false} RunIsRead(items: seq<Element>, rest: seq<byte>)
    requires forall p :: p in Params(items) ==> !Reserved(p)
    ensures ReadList(PcRun(items).bytes + rest, 0) == After(Params(items), ReadList(rest, PcRun(items).line))
    ensures !PcRun(items).announce ==> PcRun(items).line == 0
  {
    hide ReadList, ParamOf, PcParameter, LineOf;
    if items == [] {
      assert [] + rest == rest;
      NothingBefore(ReadList(rest, 0));
    } else {
      var e, its := items[|items| - 1], items[..|items| - 1];
      var s := PcRun(its);
      assert forall p :: p in Params(its) ==> p in Params(items);
      if IsPcInit(e) {
        var cs := e.children;
        assert ParamOf(cs) in Params(items);
        RunIsRead(its, Announcement(s, cs) + PcParameter(cs) + rest);
        Grouped(s.bytes, Announcement(s, cs), PcParameter(cs), rest);
        PieceIsRead(s, cs, rest);
        TwoParts(Params(its), ParamOf(cs), ReadList(rest, LineOf(cs)));
      } else {
        RunIsRead(its, rest);
      }
    }
  }

  lemma Grouped(a: seq<byte>, b: seq<byte>, c: seq<byte>, d: seq<byte>)
    ensures a + b + c + d == a + (b + c + d)
  {
  }

  lemma NothingBefore(qs: Option<seq<Param>>)
    ensures After([], qs) == qs
  {
    assert qs.Some? ==> [] + qs.value == qs.value;
  }

  lemma TwoParts(ps: seq<Param>, p: Param, qs: Option<seq<Param>>)
    ensures After(ps, Before(p, qs)) == After(ps + [p], qs)
  {
    assert qs.Some? ==> ps + ([p] + qs.value) == ps + [p] + qs.value;
  }

  /** One parameter, behind its line number if there is one. */
  lemma PieceIsRead(s: PcState, cs: seq<Element>, rest: seq<byte>)
    requires !Reserved(ParamOf(cs))
    ensures ReadList(Announcement(s, cs) + PcParameter(cs) + rest, s.line) == Before(ParamOf(cs), ReadList(rest, LineOf(cs)))
  {
    hide LineOf, PcType, PcData;
    ParameterIsRead(cs, LineOf(cs), rest);
    var b := PcParameter(cs) + rest;
    var l := [PCINIT_CFG_LINE_NUMBER, 1, LineOf(cs)];
    if s.announce || LineOf(cs) != s.line {
      assert l + PcParameter(cs) + rest == l + b && (l + b)[3..] == b;
      assert ReadList(l + b, s.line) == ReadList(b, LineOf(cs));
    } else {
      assert [] + PcParameter(cs) + rest == b;
    }
  }

  lemma ParameterIsRead(cs: seq<Element>, line: byte, rest: seq<byte>)
    requires !Reserved(ParamOf(cs)) && line == LineOf(cs)
    ensures ReadList(PcParameter(cs) + rest, line) == Before(ParamOf(cs), ReadList(rest, line))
  {
    hide LineOf, PcType, PcData;
    var b, d := PcParameter(cs) + rest, PcData(cs);
    if PcType(cs) < 0x80 {
      assert b[0] == PcType(cs) && b[1] == |d| && b[2..2 + |d|] == d && b[2 + |d|..] == rest;
    } else {
      assert b[1..] == rest;
    }
  }

  /** A parameter of type 0 ends the list: what comes behind it is lost. */
  lemma ZeroTypeEndsTheList(items: seq<Element>, cs: seq<Element>, rest: seq<byte>)
    requires (forall p :: p in Params(items) ==> !Reserved(p)) && PcType(cs) == 0
    ensures ReadList(PcStep(PcRun(items), cs).bytes + rest, 0) == Some(Params(items))
  {
    hide ReadList, LineOf, PcParameter;
    var s := PcRun(items);
    var l := Announcement(s, cs);
    RunIsRead(items, l + PcParameter(cs) + rest);
    Grouped(s.bytes, l, PcParameter(cs), rest);
    EndIsRead(l, LineOf(cs), PcParameter(cs), rest, s.line);
    ZeroParameter(cs);
    assert Params(items) + [] == Params(items);
  }

  lemma ZeroParameter(cs: seq<Element>)
    requires PcType(cs) == 0
    ensures PcParameter(cs) != [] && PcParameter(cs)[0] == 0
  {
  }

  lemma EndIsRead(l: seq<byte>, line: byte, p: seq<byte>, rest: seq<byte>, line0: byte)
    requires l == [] || l == [PCINIT_CFG_LINE_NUMBER, 1, line]
    ensures p != [] && p[0] == 0 ==> ReadList(l + p + rest, line0) == Some([])
  {
    if p != [] && p[0] == 0 && l != [] {
      assert (l + p + rest)[3..] == p + rest;
    }
  }

  /** A parameter that looks like a line number is taken for one: it is lost, and what comes behind
      it is read under a wrong line. */
  lemma LineTypeIsSwallowed(items: seq<Element>, cs: seq<Element>, rest: seq<byte>)
    requires forall p :: p in Params(items) ==> !Reserved(p)
    requires PcType(cs) == PCINIT_CFG_LINE_NUMBER && |PcData(cs)| == 1
    ensures ReadList(PcStep(PcRun(items), cs).bytes + rest, 0) == After(Params(items), ReadList(rest, PcData(cs)[0]))
  {
    var s := PcRun(items);
    var l := Announcement(s, cs);
    assert PcParameter(cs) == [PCINIT_CFG_LINE_NUMBER, 1, PcData(cs)[0]];
    hide ReadList, LineOf, PcParameter;
    RunIsRead(items, l + PcParameter(cs) + rest);
    Grouped(s.bytes, l, PcParameter(cs), rest);
    if l != [] {
      LineIsRead(LineOf(cs), PcParameter(cs) + rest, s.line);
      assert l + PcParameter(cs) + rest == l + (PcParameter(cs) + rest);
      LineIsRead(PcData(cs)[0], rest, LineOf(cs));
    } else {
      assert l + PcParameter(cs) + rest == PcParameter(cs) + rest;
      LineIsRead(PcData(cs)[0], rest, s.line);
    }
  }

  function Announcement(s: PcState, cs: seq<Element>): seq<byte> {
    if s.announce || LineOf(cs) != s.line then [PCINIT_CFG_LINE_NUMBER, 1, LineOf(cs)] else []
  }

  lemma LineIsRead(line: byte, rest: seq<byte>, line0: byte)
    ensures ReadList([PCINIT_CFG_LINE_NUMBER, 1, line] + rest, line0) == ReadList(rest, line)
    ensures ListSize([PCINIT_CFG_LINE_NUMBER, 1, line] + rest) == ListSize(rest)
  {
    assert ([PCINIT_CFG_LINE_NUMBER, 1, line] + rest)[3..] == rest;
  }

  // ------------------------------------------- how many parameters are read

  function Plus(n: nat, m: Option<nat>): Option<nat> {
    if m.None? then None else Some(n + m.value)
  }

  /** The number of entries read. */
  function ListSize(b: seq<byte>): Option<nat>
    decreases |b|
  {
    if b == [] then None
    else if b[0] == 0 then Some(0)
    else if b[0] >= 0x80 then Plus(1, ListSize(b[1..]))
    else if |b| < 2 || |b| - 2 < b[1] then None
    else if b[0] == PCINIT_CFG_LINE_NUMBER && b[1] == 1 then ListSize(b[3..])
    else
      var n: nat := b[1];
      Plus(1, ListSize(b[2 + n..]))
  }

  lemma {:induction false} SizeOfList(b: seq<byte>, line: byte)
    ensures ListSize(b) == if ReadList(b, line).Some? then Some(|ReadList(b, line).value|) else None
    decreases |b|
  {
    if b != [] && b[0] != 0 {
      if b[0] >= 0x80 {
        SizeOfList(b[1..], line);
      } else if |b| >= 2 && |b| - 2 >= b[1] {
        if b[0] == PCINIT_CFG_LINE_NUMBER && b[1] == 1 {
          SizeOfList(b[3..], b[2]);
        } else {
          var n: nat := b[1];
          SizeOfList(b[2 + n..], line);
        }
      }
    }
  }

  /** Parameters that do not appear in the list read: none, unless one is reserved. */
  function Missed(ps: seq<Param>): (n: nat)
    ensures n <= |ps|
  {
    if ps == [] then 0 else Missed(ps[..|ps| - 1]) + if Reserved(ps[|ps| - 1]) then 1 else 0
  }

  predicate Ended(ps: seq<Param>) {
    exists p :: p in ps && p.kind == 0
  }

  lemma {:induction false} MissedIsReserved(ps: seq<Param>)
    ensures Missed(ps) == 0 <==> forall p :: p in ps ==> !Reserved(p)
  {
    if ps != [] {
      MissedIsReserved(ps[..|ps| - 1]);
      assert ps == ps[..|ps| - 1] + [ps[|ps| - 1]];
    }
  }

  lemma ReservedAreMissed(items: seq<Element>)
    ensures Missed(Params(items)) == 0 <==> forall p :: p in Params(items) ==> !Reserved(p)
    ensures Ended(Params(items)) ==> exists p :: p in Params(items) && Reserved(p)
  {
    MissedIsReserved(Params(items));
  }

  /** A parameter of type 0 cuts the list; without one, exactly the missed parameters lack. */
  lemma {:induction false} RunSize(items: seq<Element>, rest: seq<byte>)
    ensures var ps := Params(items); var n := ListSize(PcRun(items).bytes + rest);
            if Ended(ps) then n.Some? && n.value < |ps| else n == Plus(|ps| - Missed(ps), ListSize(rest))
  {
    hide ListSize, ParamOf, PcParameter, LineOf, Missed, Reserved;
    if items == [] {
      assert [] + rest == rest;
      NoneMissed();
    } else {
      var e, its := items[|items| - 1], items[..|items| - 1];
      if IsPcInit(e) {
        var cs, s := e.children, PcRun(its);
        var piece := Announcement(s, cs) + PcParameter(cs);
        RunSize(its, piece + rest);
        Grouped(s.bytes, Announcement(s, cs), PcParameter(cs), rest);
        PieceSize(s, cs, rest);
        MissedMore(Params(its), ParamOf(cs));
      } else {
        RunSize(its, rest);
      }
    }
  }

  lemma NoneMissed()
    ensures Missed([]) == 0
  {
  }

  lemma MissedMore(ps: seq<Param>, p: Param)
    ensures Missed(ps + [p]) == Missed(ps) + if Reserved(p) then 1 else 0
    ensures Ended(ps + [p]) <==> Ended(ps) || p.kind == 0
  {
    assert (ps + [p])[..|ps|] == ps;
    assert p in ps + [p] && forall q :: q in ps + [p] <==> q in ps || q == p;
  }

  lemma PieceSize(s: PcState, cs: seq<Element>, rest: seq<byte>)
    ensures ListSize(Announcement(s, cs) + PcParameter(cs) + rest)
            == if PcType(cs) == 0 then Some(0) else Plus(if Reserved(ParamOf(cs)) then 0 else 1, ListSize(rest))
    ensures ParamOf(cs).kind == PcType(cs)
  {
    hide LineOf, PcType, PcData;
    ParameterSize(cs, rest);
    hide ListSize, PcParameter;
    var l := Announcement(s, cs);
    if l != [] {
      assert l + PcParameter(cs) + rest == l + (PcParameter(cs) + rest);
      LineIsRead(LineOf(cs), PcParameter(cs) + rest, 0);
    } else {
      assert l + PcParameter(cs) + rest == PcParameter(cs) + rest;
    }
  }

  lemma ParameterSize(cs: seq<Element>, rest: seq<byte>)
    ensures ListSize(PcParameter(cs) + rest)
            == if PcType(cs) == 0 then Some(0) else Plus(if Reserved(ParamOf(cs)) then 0 else 1, ListSize(rest))
  {
    hide LineOf, PcType, PcData;
    var b, d := PcParameter(cs) + rest, PcData(cs);
    if PcType(cs) < 0x80 {
      assert b[0] == PcType(cs) && b[1] == |d| && b[2 + |d|..] == rest;
    } else {
      assert b[1..] == rest;
    }
  }
}
