/** Reading the sections of an instance (kernel/diva_cfg_lib.c), and what the RAM and
    PCINIT sections of an instance mean for the adapter's memory. */
module CfgSection {
  import opened Machine
  import opened CfgVle
  import opened CfgTree
  import opened CfgWalk

  // ------------------------------------------------------ values of a section

  /** The value of the first child with a number identifier. */
  function NumberOf(cs: seq<Element>, id: byte): Option<dword> {
    var i := FirstWithId(cs, 0, id);
    if i.Some? && cs[i.value].Number? then Some(cs[i.value].value) else None
  }

  /** The data of the first child with a byte string identifier. */
  function DataOf(cs: seq<Element>, id: byte): Option<seq<byte>> {
    var i := FirstWithId(cs, 0, id);
    if i.Some? && cs[i.value].Data? then Some(cs[i.value].data) else None
  }

  lemma KindOf(cs: seq<Element>, id: byte)
    requires Storable(Section(cs)) && Has(cs, id)
    ensures var e := cs[FirstWithId(cs, 0, id).value];
            && Storable(e)
            && (IsNumberId(id) ==> e.Number?) && (IsDataId(id) ==> e.Data?)
  {
    ChildStorable(cs, FirstWithId(cs, 0, id).value);
  }

  /** How the first child with the identifier lies, and what reading it gives. */
  lemma ValueLies(src: seq<byte>, p: nat, id: byte, cs: seq<Element>)
    requires At(src, p, Encode(Section(cs))) && Storable(Section(cs)) && Has(cs, id) && id != TLIE
    requires IsNumberId(id) || IsDataId(id)
    ensures var i := FirstWithId(cs, 0, id).value; var q, u := ChildPos(p, cs, i), |Vle(id)|;
            && Ends(src, q, MAX_USED) && Used(src, q, MAX_USED) == u && Ends(src, q + u, MAX_USED)
            && var v := ValueAt(src, q + u, MAX_USED) % 0x1_0000_0000;
               && (IsNumberId(id) ==> NumberOf(cs, id) == Some(v))
               && (IsDataId(id) ==>
                     && DataOf(cs, id).Some? && v == |DataOf(cs, id).value|
                     && At(src, q + u + Used(src, q + u, MAX_USED), DataOf(cs, id).value))
  {
    hide Encode, EncodeAll, Ends, Used, ValueAt, Vle, Storable;
    var i := FirstWithId(cs, 0, id).value;
    KindOf(cs, id);
    ChildAt(src, p, cs, i);
    var e, q := cs[i], ChildPos(p, cs, i);
    ElementAt(src, q, e);
    NumberAt(src, q, id);
    if e.Data? {
      DataFits(e);
      NumberAt(src, q + |Vle(id)|, |e.data|);
    } else {
      NumberAt(src, q + |Vle(id)|, e.value);
    }
  }

  // diva_cfg_get_section_element followed by reading the number it points to
  method ReadNumber(src: seq<byte>, p: nat, id: byte, ghost cs: seq<Element>) returns (r: Option<dword>)
    requires At(src, p, Encode(Section(cs))) && Storable(Section(cs)) && IsNumberId(id)
    ensures r == NumberOf(cs, id) && (r.Some? <==> Has(cs, id))
  {
    var q := GetSectionElement(src, p, id, cs);
    if q.None? {
      return None;
    }
    ValueLies(src, p, id, cs);
    hide Encode, EncodeAll, Ends, Used, ValueAt, Vle, Storable, NumberOf, DataOf, ChildPos, At;
    var _, used := VleToDword(src, q.value);
    var v, _ := VleToDword(src, q.value + used);
    return Some(v);
  }

  // diva_cfg_get_section_element followed by diva_get_bs: where the data starts and its length
  method ReadData(src: seq<byte>, p: nat, id: byte, ghost cs: seq<Element>) returns (r: Option<nat>, n: dword)
    requires At(src, p, Encode(Section(cs))) && Storable(Section(cs)) && IsDataId(id)
    ensures r.Some? <==> Has(cs, id)
    ensures r.Some? ==> DataOf(cs, id).Some? && n == |DataOf(cs, id).value| && At(src, r.value, DataOf(cs, id).value)
    ensures r.None? ==> DataOf(cs, id).None? && n == 0
  {
    var q := GetSectionElement(src, p, id, cs);
    if q.None? {
      return None, 0;
    }
    ValueLies(src, p, id, cs);
    hide Encode, EncodeAll, Ends, Used, ValueAt, Vle, Storable, NumberOf, DataOf, ChildPos, At;
    var _, used := VleToDword(src, q.value);
    var length, offset := VleToDword(src, q.value + used);
    return Some(q.value + used + offset), length;
  }

  lemma DataFits(e: Element)
    requires Storable(e) && e.Data?
    ensures |e.data| < DWORDS
  {
  }

  // --------------------------------------------------------- RAM sections

  const OP_WRITE := 1
  const OP_SET_BITS := 2
  const OP_CLEAR_BITS := 3

  /** A section of RAM type carries an operation and a value beside its offset. */
  predicate Complete(e: Element) {
    e.Section? && (TypeOf(e.children) == RAM_OFFSET ==> Has(e.children, RAM_OPERATION) && Has(e.children, RAM_VALUE))
  }

  function RamOffset(cs: seq<Element>): dword {
    if NumberOf(cs, RAM_OFFSET).Some? then NumberOf(cs, RAM_OFFSET).value else 0
  }

  function RamData(cs: seq<Element>): seq<byte> {
    if DataOf(cs, RAM_VALUE).Some? then DataOf(cs, RAM_VALUE).value else []
  }

  /** The operation; 0 when it is none of the three known ones. */
  function RamOperation(cs: seq<Element>): (op: nat)
    ensures op <= OP_CLEAR_BITS
  {
    var v := NumberOf(cs, RAM_OPERATION);
    if v.Some? && OP_WRITE <= v.value <= OP_CLEAR_BITS then v.value else 0
  }

  function RamEnd(cs: seq<Element>): nat {
    RamOffset(cs) + |RamData(cs)|
  }

  /** The value of bit k. */
  function Weight(k: nat): (w: nat)
    ensures w > 0
  {
    if k == 0 then 1 else 2 * Weight(k - 1)
  }

  /** x | y on the lowest n bits. */
  function Or(x: nat, y: nat, n: nat): (r: nat)
    ensures r < Weight(n)
  {
    if n == 0 then 0 else (if x % 2 == 1 || y % 2 == 1 then 1 else 0) + 2 * Or(x / 2, y / 2, n - 1)
  }

  /** x & ~y on the lowest n bits. */
  function AndNot(x: nat, y: nat, n: nat): (r: nat)
    ensures r < Weight(n)
  {
    if n == 0 then 0 else (if x % 2 == 1 && y % 2 == 0 then 1 else 0) + 2 * AndNot(x / 2, y / 2, n - 1)
  }

  lemma ByteWeight()
    ensures Weight(8) == 0x100
  {
    assert Weight(4) == 0x10;
  }

  function SetBits(x: byte, y: byte): byte {
    ByteWeight();
    Or(x, y, 8)
  }

  function ClearBits(x: byte, y: byte): byte {
    ByteWeight();
    AndNot(x, y, 8)
  }

  /** What an operation with the data makes of the bytes there. */
  function Blend(op: nat, b: seq<byte>, data: seq<byte>): (r: seq<byte>)
    requires |b| == |data|
    ensures |r| == |b|
  {
    if op == OP_WRITE then data
    else if op == OP_SET_BITS then seq(|b|, i requires 0 <= i < |b| => SetBits(b[i], data[i]))
    else if op == OP_CLEAR_BITS then seq(|b|, i requires 0 <= i < |b| => ClearBits(b[i], data[i]))
    else b
  }

  /** Memory whose adapter part starts at `at`, after the operation of a RAM section. */
  function ApplyRam(mem: seq<byte>, at: nat, cs: seq<Element>): (r: seq<byte>)
    requires at + RamEnd(cs) <= |mem|
    ensures |r| == |mem|
  {
    Patch(mem, at + RamOffset(cs), RamOperation(cs), RamData(cs))
  }

  function Patch(mem: seq<byte>, a: nat, op: nat, data: seq<byte>): (r: seq<byte>)
    requires a + |data| <= |mem|
    ensures |r| == |mem|
  {
    mem[..a] + Blend(op, mem[a..a + |data|], data) + mem[a + |data|..]
  }

  predicate IsRam(e: Element) {
    e.Section? && TypeOf(e.children) == RAM_OFFSET
  }

  /** Length of the memory the RAM sections reach. */
  function RamLength(items: seq<Element>): nat {
    if items == [] then 0
    else
      var e := items[|items| - 1];
      if IsRam(e) then Max(RamLength(items[..|items| - 1]), RamEnd(e.children)) else RamLength(items[..|items| - 1])
  }

  /** The memory after all RAM sections, in order. */
  function RamImage(mem: seq<byte>, at: nat, items: seq<Element>): (r: seq<byte>)
    requires at + RamLength(items) <= |mem|
    ensures |r| == |mem|
  {
    if items == [] then mem
    else
      var e, r := items[|items| - 1], RamImage(mem, at, items[..|items| - 1]);
      if IsRam(e) then ApplyRam(r, at, e.children) else r
  }

  predicate RamKnown(items: seq<Element>) {
    forall e :: e in items && IsRam(e) ==> RamOperation(e.children) != 0
  }

  // ------------------------------------------------------- PCINIT sections

  const PCINIT_OFFSET := 224
  const PCINIT_CFG_LINE_NUMBER: byte := 0x3c

  /** State of the PCINIT writer: the line last announced, whether lines are announced at all,
      and the bytes so far. */
  datatype PcState = PcState(line: byte, announce: bool, bytes: seq<byte>)

  function LineOf(cs: seq<Element>): byte {
    if NumberOf(cs, PARAMETER_LINE).Some? then NumberOf(cs, PARAMETER_LINE).value % 0x100 else 0
  }

  function PcType(cs: seq<Element>): byte {
    if NumberOf(cs, PCINIT_NAME).Some? then NumberOf(cs, PCINIT_NAME).value % 0x100 else 0
  }

  /** The data of a PCINIT section, its length cut to a byte. */
  function PcData(cs: seq<Element>): (d: seq<byte>)
    ensures |d| < 0x100
  {
    if DataOf(cs, PCINIT_VALUE).None? then [] else DataOf(cs, PCINIT_VALUE).value[..|DataOf(cs, PCINIT_VALUE).value| % 0x100]
  }

  /** One parameter: its type, and its length and data unless the type says it has none. */
  function PcParameter(cs: seq<Element>): seq<byte> {
    [PcType(cs)] + if PcType(cs) < 0x80 then [|PcData(cs)| as byte] + PcData(cs) else []
  }

  function PcStep(s: PcState, cs: seq<Element>): PcState {
    var line := LineOf(cs);
    var announce := s.announce || line != s.line;
    PcState(line, announce,
            s.bytes + (if announce then [PCINIT_CFG_LINE_NUMBER, 1, line] else []) + PcParameter(cs))
  }

  predicate IsPcInit(e: Element) {
    e.Section? && TypeOf(e.children) == PCINIT_NAME
  }

  function PcRun(items: seq<Element>): PcState {
    if items == [] then PcState(0, false, [])
    else
      var e, s := items[|items| - 1], PcRun(items[..|items| - 1]);
      if IsPcInit(e) then PcStep(s, e.children) else s
  }

  /** The PCINIT list of an instance, with its terminator. */
  function PcBytes(items: seq<Element>): (b: seq<byte>)
    ensures |b| > 0
  {
    PcRun(items).bytes + [0]
  }
}
