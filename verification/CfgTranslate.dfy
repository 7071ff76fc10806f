/** diva_cfg_translate_xdi_data (kernel/diva_cfg_lib.c): an instance is rewritten so that its
    RAM and PCINIT sections become one memory image. */
module CfgTranslate {
  import opened Machine
  import opened CfgVle
  import opened CfgTree
  import opened CfgWalk
  import opened CfgSection

  // ---------------------------------------------------- the meaning, on trees

  /** Sections that cannot be written to adapter memory and are copied. */
  function Kept(items: seq<Element>): seq<Element> {
    if items == [] then []
    else
      var e := items[|items| - 1];
      Kept(items[..|items| - 1]) + if IsRam(e) || IsPcInit(e) then [] else [e]
  }

  function Zeros(n: nat): (z: seq<byte>)
    ensures |z| == n
  {
    seq(n, _ => 0)
  }

  function SharedLength(items: seq<Element>): nat {
    Max(RamLength(items), PCINIT_OFFSET + |PcBytes(items)|)
  }

  /** The memory image of an instance: zeros, all RAM sections in order, then the PCINIT list
      from byte 224 on. */
  function MemoryImage(items: seq<Element>): (r: seq<byte>)
    ensures |r| == SharedLength(items)
  {
    Overlay(RamImage(Zeros(SharedLength(items)), 0, items), PCINIT_OFFSET, PcBytes(items))
  }

  function MemorySection(items: seq<Element>): Element {
    Section([Number(RAM_OFFSET, 0), Number(RAM_OPERATION, OP_WRITE), Data(RAM_VALUE, MemoryImage(items))])
  }

  /** The rewritten instance: the same identity, the kept sections, the memory section. */
  function Translated(cs: seq<Element>): Element
    requires cs != []
  {
    Section([cs[0]] + Kept(Items(cs)) + [MemorySection(Items(cs))])
  }

  // -------------------------------------------------- diva_cfg_write_ram_init

  /** The three cases of the operation switch. */
  method ApplyOperation(dst: array<byte>, at: nat, op: nat, data: seq<byte>)
    requires OP_WRITE <= op <= OP_CLEAR_BITS && at + |data| <= dst.Length
    modifies dst
    ensures dst[..] == Patch(old(dst[..]), at, op, data)
  {
    hide SetBits, ClearBits, Blend;
    ghost var b := dst[..];
    ghost var r := Patch(b, at, op, data);
    assert |Blend(op, b[at..at + |data|], data)| == |data|;
    for i := 0 to |data|
      invariant forall k :: 0 <= k < at + i || at + |data| <= k < dst.Length ==> dst[k] == r[k]
      invariant forall k :: at + i <= k < at + |data| ==> dst[k] == b[k]
    {
      BlendAt(b, at, op, data, i);
      if op == OP_WRITE {
        dst[at + i] := data[i];
      } else if op == OP_SET_BITS {
        dst[at + i] := SetBits(dst[at + i], data[i]);
      } else {
        dst[at + i] := ClearBits(dst[at + i], data[i]);
      }
    }
  }

  lemma BlendAt(b: seq<byte>, at: nat, op: nat, data: seq<byte>, i: nat)
    requires OP_WRITE <= op <= OP_CLEAR_BITS && at + |data| <= |b| && i < |data|
    ensures Patch(b, at, op, data)[at + i] ==
            if op == OP_WRITE then data[i]
            else if op == OP_SET_BITS then SetBits(b[at + i], data[i]) else ClearBits(b[at + i], data[i])
  {
  }

  lemma RamMore(es: seq<Element>, e: Element, mem: seq<byte>, at: nat)
    ensures RamLength(es + [e]) == if IsRam(e) then Max(RamLength(es), RamEnd(e.children)) else RamLength(es)
    ensures at + RamLength(es + [e]) <= |mem| ==>
              RamImage(mem, at, es + [e])
              == if IsRam(e) then ApplyRam(RamImage(mem, at, es), at, e.children) else RamImage(mem, at, es)
    ensures RamKnown(es + [e]) <==> RamKnown(es) && (IsRam(e) ==> RamOperation(e.children) != 0)
  {
    assert (es + [e])[..|es|] == es;
    assert forall x :: x in es + [e] <==> x in es || x == e;
  }

  lemma {:induction false} RamLengthGrows(items: seq<Element>, i: nat)
    requires i <= |items|
    ensures RamLength(items[..i]) <= RamLength(items)
    ensures RamKnown(items) ==> RamKnown(items[..i])
    decreases |items| - i
  {
    if i < |items| {
      RamLengthGrows(items, i + 1);
      RamMore(items[..i], items[i], [], 0);
      assert items[..i + 1] == items[..i] + [items[i]];
    } else {
      assert items[..i] == items;
    }
  }

  lemma {:induction false} ItemsPrefix(cs: seq<Element>, i: nat)
    requires i <= |cs|
    ensures |Items(cs[..i])| <= |Items(cs)| && Items(cs[..i]) == Items(cs)[..|Items(cs[..i])|]
    decreases |cs| - i
  {
    if i == |cs| {
      assert cs[..i] == cs;
    } else {
      ItemsPrefix(cs, i + 1);
      assert cs[..i + 1][..i] == cs[..i];
    }
  }

  /** What the writers ask of an instance: complete RAM sections whose reach has 32 bits. */
  ghost predicate Usable(items: seq<Element>) {
    forall e :: e in items ==> Complete(e) && (IsRam(e) ==> RamEnd(e.children) < DWORDS - 1)
  }

  lemma {:induction false} RamLengthFits(items: seq<Element>)
    requires Usable(items)
    ensures RamLength(items) < DWORDS - 1
  {
    if items != [] {
      assert items[|items| - 1] in items;
      RamLengthFits(items[..|items| - 1]);
    }
  }

  lemma ItemAt(cs: seq<Element>, i: nat)
    requires i <= |cs| && NextItem(cs, i).Some?
    ensures var j := NextItem(cs, i).value; var n := |Items(cs[..i])|;
            && n < |Items(cs)| && Items(cs)[n] == cs[j] && Items(cs[..j + 1]) == Items(cs)[..n + 1]
  {
    hide IsItem, Items;
    WalkVisitsItems(cs, i);
    ItemsPrefix(cs, NextItem(cs, i).value + 1);
  }

  /** Walking on to the next item of an instance. */
  lemma RamItemStep(cs: seq<Element>, i: nat)
    requires i <= |cs| && Usable(Items(cs)) && NextItem(cs, i).Some?
    ensures var e, its := cs[NextItem(cs, i).value], Items(cs[..NextItem(cs, i).value + 1]);
            && Complete(e) && (IsRam(e) ==> RamEnd(e.children) < DWORDS - 1)
            && RamLength(its) <= RamLength(Items(cs))
            && (RamKnown(Items(cs)) ==> RamKnown(its))
  {
    hide IsItem, Items, Complete, IsRam, RamEnd, RamLength, RamKnown;
    ItemAt(cs, i);
    var n := |Items(cs[..i])|;
    RamLengthGrows(Items(cs), n + 1);
    assert Items(cs)[n] in Items(cs);
  }

  // One RAM section; dst is null while measuring.  None is the error return.
  method WriteRamSection(dst: array?<byte>, at: nat, maxLength: dword, src: seq<byte>, q: nat, ghost e: Element)
    returns (r: Option<nat>)
    requires At(src, q, Encode(e)) && Storable(e) && Complete(e) && IsRam(e) && RamEnd(e.children) < DWORDS - 1
    requires dst != null ==> at + maxLength <= dst.Length && RamEnd(e.children) <= maxLength
    modifies dst
    ensures r.Some? <==> dst == null || RamOperation(e.children) != 0
    ensures r.Some? ==> r.value == RamEnd(e.children)
    ensures r.None? ==> dst != null && dst[..] == old(dst[..])
    ensures dst != null && r.Some? ==> dst[..] == ApplyRam(old(dst[..]), at, e.children)
  {
    ghost var cs := e.children;
    var start, n := ReadData(src, q, RAM_VALUE, cs);
    var offset := ReadNumber(src, q, RAM_OFFSET, cs);
    var operation := ReadNumber(src, q, RAM_OPERATION, cs);
    RamMarked(cs);
    if dst != null {
      if ToDword(offset.value + n) > maxLength {
        return None;
      }
      if !(OP_WRITE <= operation.value <= OP_CLEAR_BITS) {
        return None;
      }
      assert src[start.value..start.value + n] == RamData(cs);
      ApplyOperation(dst, at + offset.value, operation.value, src[start.value..start.value + n]);
    }
    return Some(ToDword(offset.value + n));
  }

  lemma RamMarked(cs: seq<Element>)
    requires TypeOf(cs) == RAM_OFFSET
    ensures Has(cs, RAM_OFFSET)
  {
    assert TypeFrom(cs, 0) == RAM_OFFSET;
    assert TypeFrom(cs, 1) == RAM_OFFSET;
  }

  /** The RAM sections among its have been applied to the n bytes from at on; b is what dst
      held before. */
  ghost predicate RamWritten(dst: array?<byte>, b: seq<byte>, at: nat, n: nat, its: seq<Element>)
    reads dst
  {
    dst != null ==>
      && at + n <= |b| == dst.Length && RamLength(its) <= n && RamKnown(its)
      && dst[..] == RamImage(b, at, its)
  }

  /** An item of the instance, in the RAM writer's loop: the length it reaches. */
  method WriteRamItem(dst: array?<byte>, at: nat, maxLength: dword, src: seq<byte>, q: nat,
                      ghost e: Element, ghost its: seq<Element>, ghost b: seq<byte>)
    returns (r: Option<nat>)
    requires At(src, q, Encode(e)) && Storable(e) && Complete(e) && (IsRam(e) ==> RamEnd(e.children) < DWORDS - 1)
    requires dst != null ==> RamLength(its + [e]) <= maxLength
    requires RamWritten(dst, b, at, maxLength, its)
    modifies dst
    ensures r.Some? <==> dst == null || RamKnown(its + [e])
    ensures r.Some? ==> r.value == (if IsRam(e) then RamEnd(e.children) else 0)
    ensures r.Some? ==> RamWritten(dst, b, at, maxLength, its + [e])
  {
    RamMore(its, e, b, at);
    hide RamImage, RamLength, ApplyRam, RamKnown, Encode;
    var kind := GetSectionType(src, q, e.children);
    if kind != RAM_OFFSET {
      return Some(0);
    }
    r := WriteRamSection(dst, at, maxLength, src, q, e);
  }

  /** The RAM writer before the child at place i: the sections before it are applied, and
      length is how far they reach. */
  ghost predicate RamUpTo(dst: array?<byte>, b: seq<byte>, at: nat, n: nat, cs: seq<Element>, i: nat, length: nat)
    reads dst
  {
    i <= |cs| && length == RamLength(Items(cs[..i])) && RamWritten(dst, b, at, n, Items(cs[..i]))
  }

  lemma RamStart(dst: array?<byte>, at: nat, n: nat, cs: seq<Element>)
    requires dst != null ==> at + n <= dst.Length
    ensures RamUpTo(dst, if dst == null then [] else dst[..], at, n, cs, 0, 0)
  {
    assert cs[..0] == [];
  }

  lemma RamStop(dst: array?<byte>, b: seq<byte>, at: nat, n: nat, cs: seq<Element>, i: nat, length: nat)
    requires RamUpTo(dst, b, at, n, cs, i, length) && NextItem(cs, i).None?
    ensures length == RamLength(Items(cs)) && RamWritten(dst, b, at, n, Items(cs))
    ensures dst != null ==> RamKnown(Items(cs))
  {
    hide RamLength, Items, RamKnown, RamImage, IsItem;
    WalkVisitsItems(cs, i);
  }

  // diva_cfg_write_ram_init
  method WriteRamInit(dst: array?<byte>, at: nat, maxLength: dword, src: seq<byte>, p: nat, ghost cs: seq<Element>)
    returns (r: Option<nat>)
    requires At(src, p, Encode(Section(cs))) && Storable(Section(cs)) && Usable(Items(cs))
    requires dst != null ==> at + maxLength <= dst.Length && RamLength(Items(cs)) <= maxLength
    modifies dst
    ensures r.Some? <==> dst == null || RamKnown(Items(cs))
    ensures r.Some? ==> r.value == RamLength(Items(cs))
    ensures r.Some? ==> RamWritten(dst, if dst == null then [] else old(dst[..]), at, maxLength, Items(cs))
  {
    hide RamUpTo, RamWritten, RamKnown, RamLength, Items, Encode, At, Usable, Storable, NextItem, ChildPos;
    ghost var b := if dst == null then [] else dst[..];
    RamStart(dst, at, maxLength, cs);
    var length := 0;
    var item: Option<nat> := None;
    ghost var i: nat := 0;
    var more := true;
    while more
      invariant i <= |cs| && (more ==> Cursor(item, p, cs, i))
      invariant RamUpTo(dst, b, at, maxLength, cs, i, length)
      invariant !more ==> NextItem(cs, i).None?
      decreases |cs| - i, more
    {
      ghost var i0 := i;
      item, i := GetNextItem(src, p, item, cs, i0);
      if item.None? {
        i, more := i0, false;
      } else {
        var end := ProcessRamItem(dst, at, maxLength, src, item.value, length, cs, i0, i - 1, b);
        if end.None? {
          return None;
        }
        length := end.value;
      }
    }
    RamStop(dst, b, at, maxLength, cs, i, length);
    return Some(length);
  }

  /** What the RAM writer's loop does with the item it has walked to. */
  method ProcessRamItem(dst: array?<byte>, at: nat, maxLength: dword, src: seq<byte>, q: nat, length: nat,
                        ghost cs: seq<Element>, ghost i: nat, ghost j: nat, ghost b: seq<byte>)
    returns (r: Option<nat>)
    requires i <= j < |cs| && NextItem(cs, i) == Some(j) && At(src, q, Encode(cs[j])) && Storable(cs[j])
    requires Usable(Items(cs)) && (dst != null ==> RamLength(Items(cs)) <= maxLength)
    requires RamUpTo(dst, b, at, maxLength, cs, i, length)
    modifies dst
    ensures r.Some? ==> RamUpTo(dst, b, at, maxLength, cs, j + 1, r.value)
    ensures r.None? ==> dst != null && !RamKnown(Items(cs))
  {
    hide RamWritten, RamImage, RamKnown, RamLength, IsItem, Encode, Complete, At, IsRam, Items, NextItem, RamEnd, Usable;
    WalkVisitsItems(cs, i);
    RamItemStep(cs, i);
    ghost var its := Items(cs[..i]);
    RamMore(its, cs[j], [], 0);
    var end := WriteRamItem(dst, at, maxLength, src, q, cs[j], its, b);
    if end.None? {
      return None;
    }
    return Some(Max(length, end.value));
  }

  // --------------------------------------------------- diva_cfg_write_pcinit

  method Append(dst: array<byte>, at: nat, data: seq<byte>, ghost b: seq<byte>, ghost a: nat, ghost bytes: seq<byte>)
    requires Overlaid(dst, b, a, bytes) && at == a + |bytes| && at + |data| <= dst.Length
    modifies dst
    ensures Overlaid(dst, b, a, bytes + data)
  {
    OverlayMore(b, a, bytes, data);
    hide Overlay;
    WriteBytes(dst, at, data);
  }

  lemma PcMore(es: seq<Element>, e: Element)
    ensures PcRun(es + [e]) == if IsPcInit(e) then PcStep(PcRun(es), e.children) else PcRun(es)
  {
    assert (es + [e])[..|es|] == es;
  }

  lemma {:induction false} PcGrows(items: seq<Element>, i: nat)
    requires i <= |items|
    ensures |PcRun(items[..i]).bytes| <= |PcRun(items).bytes|
    decreases |items| - i
  {
    if i == |items| {
      assert items[..i] == items;
    } else {
      PcGrows(items, i + 1);
      PcMore(items[..i], items[i]);
      assert items[..i + 1] == items[..i] + [items[i]];
    }
  }

  lemma PcItemStep(cs: seq<Element>, i: nat)
    requires i <= |cs| && NextItem(cs, i).Some?
    ensures |PcRun(Items(cs[..NextItem(cs, i).value + 1])).bytes| <= |PcRun(Items(cs)).bytes|
  {
    hide IsItem, Items, PcRun;
    ItemAt(cs, i);
    PcGrows(Items(cs), |Items(cs[..i])| + 1);
  }

  /** The announcement of the parameter line, when one is due. */
  method AnnounceLine(dst: array?<byte>, at: nat, maxLength: nat, offset: nat, line: byte,
                      ghost b: seq<byte>, ghost bytes: seq<byte>)
    returns (r: Option<nat>)
    requires Overlaid(dst, b, at + PCINIT_OFFSET, bytes) && offset == PCINIT_OFFSET + |bytes|
    requires dst != null ==> at + maxLength <= dst.Length && offset + 3 <= maxLength
    modifies dst
    ensures r == Some(offset + 3) && Overlaid(dst, b, at + PCINIT_OFFSET, bytes + [PCINIT_CFG_LINE_NUMBER, 1, line])
  {
    if dst != null {
      if offset + 2 >= maxLength {
        return None;
      }
      Append(dst, at + offset, [PCINIT_CFG_LINE_NUMBER, 1, line], b, at + PCINIT_OFFSET, bytes);
    }
    return Some(offset + 3);
  }

  /** A parameter: type, and length and data unless the type has its top bit set. */
  method WriteParameter(dst: array?<byte>, at: nat, maxLength: nat, offset: nat, kind: byte, data: seq<byte>,
                        ghost b: seq<byte>, ghost bytes: seq<byte>)
    returns (r: Option<nat>)
    requires |data| < 0x100
    requires Overlaid(dst, b, at + PCINIT_OFFSET, bytes) && offset == PCINIT_OFFSET + |bytes|
    requires dst != null ==> at + maxLength <= dst.Length
    requires dst != null ==> offset + (if kind < 0x80 then 2 + |data| else 1) < maxLength
    modifies dst
    ensures var p := [kind] + if kind < 0x80 then [|data| as byte] + data else [];
            r == Some(offset + |p|) && Overlaid(dst, b, at + PCINIT_OFFSET, bytes + p)
  {
    ghost var a := at + PCINIT_OFFSET;
    if dst == null {
      return Some(offset + if kind < 0x80 then 2 + |data| else 1);
    }
    if offset >= maxLength {
      return None;
    }
    Append(dst, at + offset, [kind], b, a, bytes);
    if kind >= 0x80 {
      return Some(offset + 1);
    }
    if offset + 1 >= maxLength {
      return None;
    }
    Append(dst, at + offset + 1, [|data| as byte], b, a, bytes + [kind]);
    if |data| != 0 {
      if offset + 2 + |data| >= maxLength {
        return None;
      }
      Append(dst, at + offset + 2, data, b, a, bytes + [kind] + [|data| as byte]);
    }
    assert bytes + [kind] + [|data| as byte] + data == bytes + ([kind] + ([|data| as byte] + data));
    return Some(offset + 2 + |data|);
  }

  /** An item of the instance, in the PCINIT writer's loop. */
  method WritePcItem(dst: array?<byte>, at: nat, maxLength: nat, offset: nat, line0: byte, announce0: bool,
                     src: seq<byte>, q: nat, ghost e: Element, ghost s: PcState, ghost b: seq<byte>)
    returns (r: Option<nat>, line: byte, announce: bool)
    requires At(src, q, Encode(e)) && Storable(e) && e.Section?
    requires s.line == line0 && s.announce == announce0
    requires Overlaid(dst, b, at + PCINIT_OFFSET, s.bytes) && offset == PCINIT_OFFSET + |s.bytes|
    requires dst != null ==> at + maxLength <= dst.Length
    requires dst != null && IsPcInit(e) ==> PCINIT_OFFSET + |PcStep(s, e.children).bytes| < maxLength
    modifies dst
    ensures var t := if IsPcInit(e) then PcStep(s, e.children) else s;
            && t.line == line && t.announce == announce
            && r == Some(PCINIT_OFFSET + |t.bytes|) && Overlaid(dst, b, at + PCINIT_OFFSET, t.bytes)
  {
    hide Overlaid, Encode, PcStep, PcParameter, PcData, PcType, LineOf, TypeOf;
    var kind := GetSectionType(src, q, e.children);
    if kind == PCINIT_NAME {
      r, line, announce := WritePcSection(dst, at, maxLength, offset, line0, announce0, src, q, e.children, s, b);
    } else {
      r, line, announce := Some(offset), line0, announce0;
    }
  }

  /** A PCINIT section. */
  method WritePcSection(dst: array?<byte>, at: nat, maxLength: nat, offset: nat, line0: byte, announce0: bool,
                        src: seq<byte>, q: nat, ghost cs: seq<Element>, ghost s: PcState, ghost b: seq<byte>)
    returns (r: Option<nat>, line: byte, announce: bool)
    requires At(src, q, Encode(Section(cs))) && Storable(Section(cs)) && TypeOf(cs) == PCINIT_NAME
    requires s.line == line0 && s.announce == announce0
    requires Overlaid(dst, b, at + PCINIT_OFFSET, s.bytes) && offset == PCINIT_OFFSET + |s.bytes|
    requires dst != null ==> at + maxLength <= dst.Length && PCINIT_OFFSET + |PcStep(s, cs).bytes| < maxLength
    modifies dst
    ensures var t := PcStep(s, cs);
            && t.line == line && t.announce == announce
            && r == Some(PCINIT_OFFSET + |t.bytes|) && Overlaid(dst, b, at + PCINIT_OFFSET, t.bytes)
  {
    var kind, data;
    kind, data, line := ReadPcSection(src, q, cs);
    announce := announce0 || line != line0;
    ghost var announced := if announce then s.bytes + [PCINIT_CFG_LINE_NUMBER, 1, line] else s.bytes;
    assert announced + PcParameter(cs) == PcStep(s, cs).bytes;
    hide Overlaid, Encode, PcStep, PcData, PcType, LineOf, TypeOf;
    r := Some(offset);
    if announce {
      r := AnnounceLine(dst, at, maxLength, offset, line, b, s.bytes);
    }
    r := WriteParameter(dst, at, maxLength, r.value, kind, data, b, announced);
  }

  // diva_cfg_get_pc_init_data, diva_cfg_get_pc_init_type and diva_cfg_get_cfg_line_number
  method ReadPcSection(src: seq<byte>, q: nat, ghost cs: seq<Element>) returns (kind: byte, data: seq<byte>, line: byte)
    requires At(src, q, Encode(Section(cs))) && Storable(Section(cs)) && TypeOf(cs) == PCINIT_NAME
    ensures kind == PcType(cs) && data == PcData(cs) && line == LineOf(cs)
  {
    PcMarked(cs);
    hide TypeOf;
    var start, n := ReadData(src, q, PCINIT_VALUE, cs);
    var name := ReadNumber(src, q, PCINIT_NAME, cs);
    var cfgLine := ReadNumber(src, q, PARAMETER_LINE, cs);
    hide Encode, EncodeAll, NumberOf, DataOf, Has;
    kind := name.value % 0x100;
    line := if cfgLine.Some? then cfgLine.value % 0x100 else 0;
    data := if start.Some? then src[start.value..start.value + n % 0x100] else [];
    if start.Some? {
      IsAt(src, start.value, DataOf(cs, PCINIT_VALUE).value);
      assert data == src[start.value..start.value + n][..n % 0x100];
    }
  }

  lemma PcMarked(cs: seq<Element>)
    requires TypeOf(cs) == PCINIT_NAME
    ensures Has(cs, PCINIT_NAME)
  {
    assert TypeFrom(cs, 0) == PCINIT_NAME;
  }

  /** The writer's variables agree with the state s. */
  ghost predicate PcAt(s: PcState, offset: nat, line: byte, announce: bool) {
    s.line == line && s.announce == announce && offset == PCINIT_OFFSET + |s.bytes|
  }

  /** The writer's state after the children before place i. */
  function PcUpTo(cs: seq<Element>, i: nat): PcState
    requires i <= |cs|
  {
    PcRun(Items(cs[..i]))
  }

  lemma PcUpToStep(cs: seq<Element>, i: nat)
    requires i <= |cs| && NextItem(cs, i).Some?
    ensures var j := NextItem(cs, i).value;
            && cs[j].Section? && |PcUpTo(cs, j + 1).bytes| < |PcBytes(Items(cs))|
            && PcUpTo(cs, j + 1) == if IsPcInit(cs[j]) then PcStep(PcUpTo(cs, i), cs[j].children) else PcUpTo(cs, i)
  {
    hide PcRun, PcStep, Items, IsPcInit;
    WalkVisitsItems(cs, i);
    PcItemStep(cs, i);
    PcMore(Items(cs[..i]), cs[NextItem(cs, i).value]);
  }

  lemma PcUpToEnds(cs: seq<Element>, i: nat)
    requires i <= |cs|
    ensures PcUpTo(cs, 0) == PcState(0, false, [])
    ensures NextItem(cs, i).None? ==> PcBytes(Items(cs)) == PcUpTo(cs, i).bytes + [0]
  {
    assert cs[..0] == [];
    WalkVisitsItems(cs, i);
  }

  /** What the PCINIT writer's loop does with the item it has walked to. */
  method ProcessPcItem(dst: array?<byte>, at: nat, maxLength: nat, offset0: nat, line0: byte, announce0: bool,
                       src: seq<byte>, q: nat, ghost cs: seq<Element>, ghost i: nat, ghost j: nat, ghost b: seq<byte>)
    returns (offset: nat, line: byte, announce: bool)
    requires i <= j < |cs| && NextItem(cs, i) == Some(j) && At(src, q, Encode(cs[j])) && Storable(cs[j])
    requires dst != null ==> at + maxLength <= dst.Length && PCINIT_OFFSET + |PcBytes(Items(cs))| <= maxLength
    requires PcAt(PcUpTo(cs, i), offset0, line0, announce0)
    requires Overlaid(dst, b, at + PCINIT_OFFSET, PcUpTo(cs, i).bytes)
    modifies dst
    ensures PcAt(PcUpTo(cs, j + 1), offset, line, announce)
    ensures Overlaid(dst, b, at + PCINIT_OFFSET, PcUpTo(cs, j + 1).bytes)
  {
    PcUpToStep(cs, i);
    hide Overlaid, PcUpTo, PcBytes, PcStep, Items, Encode, At, Storable, IsPcInit, NextItem;
    var r: Option<nat>;
    r, line, announce := WritePcItem(dst, at, maxLength, offset0, line0, announce0, src, q, cs[j], PcUpTo(cs, i), b);
    offset := r.value;
  }

  lemma PcStart(dst: array?<byte>, a: nat, cs: seq<Element>)
    requires dst != null ==> a <= dst.Length
    ensures PcAt(PcUpTo(cs, 0), PCINIT_OFFSET, 0, false)
    ensures Overlaid(dst, if dst == null then [] else dst[..], a, PcUpTo(cs, 0).bytes)
  {
    PcUpToEnds(cs, 0);
  }

  // diva_cfg_write_pcinit: with room for the list no error return is taken
  method WritePcInit(dst: array?<byte>, at: nat, maxLength: nat, src: seq<byte>, p: nat, ghost cs: seq<Element>)
    returns (r: Option<nat>)
    requires At(src, p, Encode(Section(cs))) && Storable(Section(cs))
    requires dst != null ==> at + maxLength <= dst.Length && PCINIT_OFFSET + |PcBytes(Items(cs))| <= maxLength
    modifies dst
    ensures r == Some(PCINIT_OFFSET + |PcBytes(Items(cs))|)
    ensures Overlaid(dst, if dst == null then [] else old(dst[..]), at + PCINIT_OFFSET, PcBytes(Items(cs)))
  {
    hide Overlaid, PcUpTo, PcBytes, PcAt, Items, Encode, At, Storable, NextItem, ChildPos;
    ghost var b := if dst == null then [] else dst[..];
    PcStart(dst, at + PCINIT_OFFSET, cs);
    var offset: nat, line: byte, announce := PCINIT_OFFSET, 0, false;
    var item: Option<nat> := None;
    ghost var i: nat := 0;
    var more := true;
    while more
      invariant i <= |cs| && (more ==> Cursor(item, p, cs, i))
      invariant PcAt(PcUpTo(cs, i), offset, line, announce)
      invariant Overlaid(dst, b, at + PCINIT_OFFSET, PcUpTo(cs, i).bytes)
      invariant !more ==> NextItem(cs, i).None?
      decreases |cs| - i, more
    {
      ghost var i0 := i;
      item, i := GetNextItem(src, p, item, cs, i0);
      if item.None? {
        i, more := i0, false;
      } else {
        offset, line, announce :=
          ProcessPcItem(dst, at, maxLength, offset, line, announce, src, item.value, cs, i0, i - 1, b);
      }
    }
    PcUpToEnds(cs, i);
    r := Terminate(dst, at, maxLength, offset, line, announce, b, PcUpTo(cs, i));
  }

  /** The end of the list. */
  method Terminate(dst: array?<byte>, at: nat, maxLength: nat, offset: nat, ghost line: byte, ghost announce: bool,
                   ghost b: seq<byte>, ghost s: PcState)
    returns (r: Option<nat>)
    requires Overlaid(dst, b, at + PCINIT_OFFSET, s.bytes) && PcAt(s, offset, line, announce)
    requires dst != null ==> at + maxLength <= dst.Length && PCINIT_OFFSET + |s.bytes + [0]| <= maxLength
    modifies dst
    ensures r == Some(PCINIT_OFFSET + |s.bytes + [0]|) && Overlaid(dst, b, at + PCINIT_OFFSET, s.bytes + [0])
  {
    if dst != null {
      if offset >= maxLength {
        return None;
      }
      Append(dst, at + offset, [0], b, at + PCINIT_OFFSET, s.bytes);
    }
    return Some(offset + 1);
  }

  // ---------------------------------------- diva_cfg_translate_xdi_data

  /** Output so far: mem, of base + total bytes, is zero but for w from base on. */
  ghost predicate Emitted(mem: array?<byte>, base: nat, total: nat, w: seq<byte>)
    reads mem
  {
    mem != null ==> |w| <= total && mem.Length == base + total && mem[..] == Overlay(Zeros(base + total), base, w)
  }

  /** Writes, or only counts, a number at the current position. */
  method Put(mem: array?<byte>, base: nat, total: nat, position: nat, v: dword, ghost w: seq<byte>) returns (q: nat)
    requires Emitted(mem, base, total, w)
    requires mem != null ==> position == |w| && |w| + |Vle(v)| <= total
    modifies mem
    ensures q == position + |Vle(v)| && Emitted(mem, base, total, w + Vle(v))
  {
    if mem != null {
      OverlayMore(Zeros(base + total), base, w, Vle(v));
    }
    hide Overlay, Vle;
    var n := DwordToVle(v, mem, base + position, if mem == null then 0 else total - position);
    q := position + n;
  }

  /** Copies, or only counts, bytes of the source at the current position. */
  method Copy(mem: array?<byte>, base: nat, total: nat, position: nat, data: seq<byte>, ghost w: seq<byte>) returns (q: nat)
    requires Emitted(mem, base, total, w)
    requires mem != null ==> position == |w| && |w| + |data| <= total
    modifies mem
    ensures q == position + |data| && Emitted(mem, base, total, w + data)
  {
    if mem != null {
      OverlayMore(Zeros(base + total), base, w, data);
      hide Overlay;
      WriteBytes(mem, base + position, data);
    }
    q := position + |data|;
  }

  // get_max_length
  method GetMaxLength(src: seq<byte>, q: nat, ghost e: Element) returns (n: int)
    requires At(src, q, Encode(e)) && Storable(e) && e.Section? && e.children != []
    ensures n == |Encode(e)|
  {
    SectionHeader(src, q, e.children);
    assert |EncodeAll(e.children)| > 0;
    hide EncodeAll, Ends, Used, ValueAt;
    var tag, u := VleToDword(src, q);
    if tag != TLIE {
      return 0;
    }
    var length, w := VleToDword(src, q + u);
    if length == 0 {
      return 0;
    }
    return u + w + length;
  }

  lemma KeptMore(es: seq<Element>, e: Element)
    ensures Kept(es + [e]) == Kept(es) + if IsRam(e) || IsPcInit(e) then [] else [e]
    ensures EncodeAll(Kept(es + [e])) == EncodeAll(Kept(es)) + KeptBytes(e)
  {
    assert (es + [e])[..|es|] == es;
    EncodeAllAppend(Kept(es), [e]);
    assert EncodeAll([e]) == Encode(e) + EncodeAll([e][1..]);
    assert Kept(es) + [] == Kept(es);
  }

  lemma {:induction false} KeptGrows(items: seq<Element>, i: nat)
    requires i <= |items|
    ensures |EncodeAll(Kept(items[..i]))| <= |EncodeAll(Kept(items))|
    decreases |items| - i
  {
    if i == |items| {
      assert items[..i] == items;
    } else {
      KeptGrows(items, i + 1);
      KeptMore(items[..i], items[i]);
      assert items[..i + 1] == items[..i] + [items[i]];
    }
  }

  /** The bytes the output keeps of an item. */
  function KeptBytes(e: Element): seq<byte> {
    if IsRam(e) || IsPcInit(e) then [] else Encode(e)
  }

  /** The switch of the copying loop; None is the overflow return. */
  method CopySection(mem: array?<byte>, base: nat, total: nat, position: nat, src: seq<byte>, q: nat,
                     ghost e: Element, ghost v: seq<byte>)
    returns (r: Option<nat>)
    requires At(src, q, Encode(e)) && Storable(e) && IsItem(e)
    requires Emitted(mem, base, total, v)
    requires mem != null ==> position == |v| && |v + KeptBytes(e)| <= total
    modifies mem
    ensures r == Some(position + |KeptBytes(e)|) && Emitted(mem, base, total, v + KeptBytes(e))
  {
    ItemHasChild(e);
    hide Encode, EncodeAll, Emitted, TypeOf;
    var kind := GetSectionType(src, q, e.children);
    if kind == PCINIT_NAME || kind == RAM_OFFSET {
      assert v + [] == v;
      return Some(position);
    }
    var n := GetMaxLength(src, q, e);
    if mem != null && n > total - position {
      return None;
    }
    var z := Copy(mem, base, total, position, src[q..q + n], v);
    return Some(z);
  }

  /** The kept bytes of the children before place i. */
  function KeptUpTo(cs: seq<Element>, i: nat): seq<byte>
    requires i <= |cs|
  {
    EncodeAll(Kept(Items(cs[..i])))
  }

  lemma KeptStep(cs: seq<Element>, i: nat)
    requires i <= |cs| && NextItem(cs, i).Some?
    ensures var j := NextItem(cs, i).value;
            && KeptUpTo(cs, j + 1) == KeptUpTo(cs, i) + KeptBytes(cs[j])
            && |KeptUpTo(cs, j + 1)| <= |EncodeAll(Kept(Items(cs)))|
  {
    hide Items, Kept, EncodeAll, IsItem;
    WalkVisitsItems(cs, i);
    ItemAt(cs, i);
    KeptGrows(Items(cs), |Items(cs[..i])| + 1);
    KeptMore(Items(cs[..i]), cs[NextItem(cs, i).value]);
  }

  lemma ItemHasChild(e: Element)
    requires IsItem(e)
    ensures e.children != []
  {
    UntypedWhenEmpty();
  }

  lemma UntypedWhenEmpty()
    ensures TypeOf([]) == 0
  {
    assert TypeFrom([], 5) == 0;
    assert TypeFrom([], 4) == 0;
    assert TypeFrom([], 3) == 0;
    assert TypeFrom([], 2) == 0;
    assert TypeFrom([], 1) == 0;
  }

  /** The loop that copies sections that cannot be written to adapter memory. */
  method CopyKept(mem: array?<byte>, base: nat, total: nat, position: nat, src: seq<byte>, p: nat,
                  ghost cs: seq<Element>, ghost w: seq<byte>)
    returns (r: Option<nat>)
    requires At(src, p, Encode(Section(cs))) && Storable(Section(cs))
    requires mem != null ==> position == |w| && |w| + |EncodeAll(Kept(Items(cs)))| <= total
    requires Emitted(mem, base, total, w)
    modifies mem
    ensures var k := EncodeAll(Kept(Items(cs)));
            r == Some(position + |k|) && Emitted(mem, base, total, w + k)
  {
    hide KeptUpTo, Items, Kept, EncodeAll, IsItem, Emitted, NextItem, FirstWithId, ChildPos, Encode, At, KeptBytes, Storable;
    KeptStart(cs);
    assert w + [] == w;
    var z := position;
    var item: Option<nat> := None;
    ghost var i: nat := 0;
    var more := true;
    while more
      invariant i <= |cs| && (more ==> Cursor(item, p, cs, i))
      invariant z == position + |KeptUpTo(cs, i)| && Emitted(mem, base, total, w + KeptUpTo(cs, i))
      invariant !more ==> KeptUpTo(cs, i) == EncodeAll(Kept(Items(cs)))
      decreases |cs| - i, more
    {
      ghost var i0 := i;
      item, i := GetNextItem(src, p, item, cs, i0);
      if item.None? {
        LastKept(cs, i0);
        i, more := i0, false;
      } else {
        z := CopyItem(mem, base, total, z, src, item.value, cs, i0, i - 1, w);
      }
    }
    return Some(z);
  }

  /** What the copying loop does with the item it has walked to. */
  method CopyItem(mem: array?<byte>, base: nat, total: nat, position: nat, src: seq<byte>, q: nat,
                  ghost cs: seq<Element>, ghost i: nat, ghost j: nat, ghost w: seq<byte>)
    returns (z: nat)
    requires i <= j < |cs| && NextItem(cs, i) == Some(j) && At(src, q, Encode(cs[j])) && Storable(cs[j])
    requires mem != null ==> position == |w| + |KeptUpTo(cs, i)| && |w| + |EncodeAll(Kept(Items(cs)))| <= total
    requires Emitted(mem, base, total, w + KeptUpTo(cs, i))
    modifies mem
    ensures z == position + |KeptUpTo(cs, j + 1)| - |KeptUpTo(cs, i)|
    ensures Emitted(mem, base, total, w + KeptUpTo(cs, j + 1))
  {
    hide KeptUpTo, Items, Kept, EncodeAll, IsItem, Emitted, NextItem, Encode, At, KeptBytes, Storable;
    KeptStep(cs, i);
    NextIsItem(cs, i);
    AssociateBytes(w, KeptUpTo(cs, i), KeptBytes(cs[j]));
    var next := CopySection(mem, base, total, position, src, q, cs[j], w + KeptUpTo(cs, i));
    z := next.value;
  }

  lemma NextIsItem(cs: seq<Element>, i: nat)
    requires i <= |cs| && NextItem(cs, i).Some?
    ensures IsItem(cs[NextItem(cs, i).value])
  {
  }

  lemma LastKept(cs: seq<Element>, i: nat)
    requires i <= |cs| && NextItem(cs, i).None?
    ensures KeptUpTo(cs, i) == EncodeAll(Kept(Items(cs)))
  {
    WalkVisitsItems(cs, i);
  }

  lemma KeptStart(cs: seq<Element>)
    ensures KeptUpTo(cs, 0) == []
  {
    assert cs[..0] == [];
  }

  /** An instance the translator is given: its first element identifies it, its RAM sections
      are complete, and the rewritten instance has 32-bit lengths. */
  ghost predicate Instance(cs: seq<Element>) {
    && Storable(Section(cs)) && cs != []
    && (cs[0].Number? || cs[0].Id() == VIE_INSTANCE2)
    && Usable(Items(cs))
    && |Encode(Translated(cs))| < DWORDS
  }

  // diva_cfg_get_instance_data: where the identity starts and its length
  method GetInstanceData(src: seq<byte>, p: nat, ghost cs: seq<Element>) returns (start: nat, length: nat)
    requires At(src, p, Encode(Section(cs))) && Instance(cs)
    ensures length == |Encode(cs[0])| && At(src, start, Encode(cs[0]))
  {
    hide Encode, EncodeAll, Ends, Used, ValueAt, Vle, Instance, At, Storable, ChildPos;
    IdentityKind(cs);
    SectionHeader(src, p, cs);
    ChildAt(src, p, cs, 0);
    ChildStorable(cs, 0);
    var _, u := VleToDword(src, p);
    var _, w := VleToDword(src, p + u);
    start := p + u + w;
    length := IdentityLength(src, start, cs[0]);
  }

  lemma IdentityKind(cs: seq<Element>)
    requires Instance(cs)
    ensures cs != [] && Storable(Section(cs)) && (cs[0].Number? || cs[0].Id() == VIE_INSTANCE2)
  {
    hide Storable, Usable, Translated, Items, Encode;
  }

  /** The length of the identity element, from its own numbers. */
  method IdentityLength(src: seq<byte>, q: nat, ghost e: Element) returns (length: nat)
    requires At(src, q, Encode(e)) && Storable(e) && (e.Number? || e.Id() == VIE_INSTANCE2)
    ensures length == |Encode(e)|
  {
    IdentityLies(src, q, e);
    hide Encode, Ends, Used, ValueAt, Vle, At, Storable;
    var kind, n := VleToDword(src, q);
    var m, l := VleToDword(src, q + n);
    return if kind == VIE_INSTANCE2 then n + m + l else n + l;
  }

  lemma IdentityLies(src: seq<byte>, q: nat, e: Element)
    requires At(src, q, Encode(e)) && Storable(e) && (e.Number? || e.Id() == VIE_INSTANCE2)
    ensures var u := |Vle(e.Id())|;
            && Ends(src, q, MAX_USED) && Used(src, q, MAX_USED) == u && Ends(src, q + u, MAX_USED)
            && ValueAt(src, q, MAX_USED) % 0x1_0000_0000 == e.Id()
            && |Encode(e)| == u + Used(src, q + u, MAX_USED)
                              + if e.Id() == VIE_INSTANCE2 then ValueAt(src, q + u, MAX_USED) % 0x1_0000_0000 else 0
  {
    ElementAt(src, q, e);
    NumberAt(src, q, e.Id());
    ElementLength(e);
    hide Encode, Ends, Used, ValueAt, Vle, At;
    if e.Data? {
      NumberAt(src, q + |Vle(e.Id())|, |e.data|);
    } else {
      NumberAt(src, q + |Vle(e.Id())|, e.value);
    }
  }

  lemma ElementLength(e: Element)
    requires Storable(e) && !e.Section?
    ensures e.Number? ==> e.Id() != VIE_INSTANCE2 && |Encode(e)| == |Vle(e.Id())| + |Vle(e.value)|
    ensures e.Data? ==> |e.data| < DWORDS && |Encode(e)| == |Vle(e.Id())| + |Vle(|e.data|)| + |e.data|
  {
  }

  /** The output up to the memory section. */
  ghost function Head(cs: seq<Element>, sectionLength: nat): seq<byte>
    requires cs != []
  {
    Vle(TLIE) + Vle(sectionLength) + Encode(cs[0]) + EncodeAll(Kept(Items(cs)))
  }

  /** The first half of a pass: the header, the identity and the kept sections.  Measuring,
      `mark` is the position the length of the instance counts from. */
  method PassHead(mem: array?<byte>, base: nat, total: nat, sectionLength: dword, src: seq<byte>, p: nat, ghost cs: seq<Element>)
    returns (r: Option<nat>, mark: nat)
    requires At(src, p, Encode(Section(cs))) && Instance(cs)
    requires Emitted(mem, base, total, [])
    requires mem != null ==> |Head(cs, sectionLength)| + PCINIT_OFFSET < total
    modifies mem
    ensures mem == null ==> mark == 1 && r == Some(1 + |Encode(cs[0])| + |EncodeAll(Kept(Items(cs)))|)
    ensures mem != null ==> r == Some(|Head(cs, sectionLength)|) && Emitted(mem, base, total, Head(cs, sectionLength))
  {
    hide Emitted, EncodeAll, Encode, Kept, Items, Instance, Usable, At, Vle, Head;
    HeadParts(cs, sectionLength);
    ghost var kept := EncodeAll(Kept(Items(cs)));
    var position := Put(mem, base, total, 0, TLIE, []);
    ghost var w := [] + Vle(TLIE);
    mark := position;
    if mem != null {
      position := Put(mem, base, total, position, sectionLength, w);
      w := w + Vle(sectionLength);
    }
    var start, n := GetInstanceData(src, p, cs);
    IsAt(src, start, Encode(cs[0]));
    if mem != null {
      if position + n < total - position {
        var _ := Copy(mem, base, total, position, src[start..start + n], w);
        w := w + Encode(cs[0]);
      }
    }
    position := position + n;
    r := CopyKept(mem, base, total, position, src, p, cs, w);
  }

  lemma HeadParts(cs: seq<Element>, sectionLength: dword)
    requires Instance(cs)
    ensures cs != [] && Storable(Section(cs))
    ensures Head(cs, sectionLength) == [] + Vle(TLIE) + Vle(sectionLength) + Encode(cs[0]) + EncodeAll(Kept(Items(cs)))
    ensures |Vle(TLIE)| == 1 && |Vle(sectionLength)| <= 5
  {
    hide Usable, Items, Encode, EncodeAll, Kept, Storable, Translated, Vle;
    VleLength(sectionLength);
    VleLength(TLIE);
    assert [] + Vle(TLIE) == Vle(TLIE);
  }

  lemma IsAt(src: seq<byte>, p: nat, b: seq<byte>)
    requires At(src, p, b)
    ensures p + |b| <= |src| && src[p..p + |b|] == b
  {
  }

  /** The memory section up to its image. */
  ghost function MemoryHead(ramLength: nat, shared: nat): seq<byte> {
    Vle(TLIE) + Vle(ramLength) + Vle(RAM_OFFSET) + Vle(0) + Vle(RAM_OPERATION) + Vle(OP_WRITE) + Vle(RAM_VALUE) + Vle(shared)
  }

  /** The header of the memory section.  Measuring, its two lengths are not yet counted. */
  method PutMemoryHead(mem: array?<byte>, base: nat, total: nat, position: nat, ramLength: dword, shared: dword, ghost w: seq<byte>)
    returns (q: nat, mark: nat)
    requires Emitted(mem, base, total, w)
    requires mem != null ==> position == |w| && |w| + |MemoryHead(ramLength, shared)| <= total
    modifies mem
    ensures mem == null ==> mark == position + 1 && q == position + 6
    ensures mem != null ==> q == position + |MemoryHead(ramLength, shared)| && Emitted(mem, base, total, w + MemoryHead(ramLength, shared))
  {
    ghost var w1 := w + Vle(TLIE);
    ghost var w2 := if mem == null then w1 else w1 + Vle(ramLength);
    ghost var w3 := w2 + Vle(RAM_OFFSET) + Vle(0);
    ghost var w4 := w3 + Vle(RAM_OPERATION) + Vle(OP_WRITE);
    ghost var w5 := w4 + Vle(RAM_VALUE);
    assert mem != null ==> w + MemoryHead(ramLength, shared) == w5 + Vle(shared);
    assert |Vle(TLIE)| == |Vle(RAM_OFFSET)| == |Vle(0)| == |Vle(RAM_OPERATION)| == |Vle(OP_WRITE)| == |Vle(RAM_VALUE)| == 1;
    hide Emitted, Vle;
    q := Put(mem, base, total, position, TLIE, w);
    mark := q;
    if mem != null {
      q := Put(mem, base, total, q, ramLength, w1);
    }
    q := Put(mem, base, total, q, RAM_OFFSET, w2);
    q := Put(mem, base, total, q, 0, w2 + Vle(RAM_OFFSET));
    q := Put(mem, base, total, q, RAM_OPERATION, w3);
    q := Put(mem, base, total, q, OP_WRITE, w3 + Vle(RAM_OPERATION));
    q := Put(mem, base, total, q, RAM_VALUE, w4);
    if mem != null {
      q := Put(mem, base, total, q, shared, w5);
    }
  }

  // ------------------------------------------------ the image in its place

  lemma PatchShift(pre: seq<byte>, m: seq<byte>, a: nat, op: nat, data: seq<byte>)
    requires a + |data| <= |m|
    ensures Patch(pre + m, |pre| + a, op, data) == pre + Patch(m, a, op, data)
  {
    var x, y := |pre| + a, |pre| + a + |data|;
    hide Blend;
    assert (pre + m)[..x] == pre + m[..a];
    assert (pre + m)[x..y] == m[a..a + |data|];
    assert (pre + m)[y..] == m[a + |data|..];
  }

  lemma {:induction false} RamShift(pre: seq<byte>, m: seq<byte>, items: seq<Element>)
    requires RamLength(items) <= |m|
    ensures RamImage(pre + m, |pre|, items) == pre + RamImage(m, 0, items)
  {
    hide Patch, TypeOf;
    if items != [] {
      var e, its := items[|items| - 1], items[..|items| - 1];
      RamShift(pre, m, its);
      if IsRam(e) {
        PatchShift(pre, RamImage(m, 0, its), RamOffset(e.children), RamOperation(e.children), RamData(e.children));
      }
    }
  }

  lemma OverlayShift(pre: seq<byte>, m: seq<byte>, a: nat, b: seq<byte>)
    requires a + |b| <= |m|
    ensures Overlay(pre + m, |pre| + a, b) == pre + Overlay(m, a, b)
  {
  }

  /** The two writers, run in place behind w, complete the output. */
  lemma ImageInPlace(base: nat, total: nat, w: seq<byte>, items: seq<Element>)
    requires |w| + SharedLength(items) == total
    ensures var b := Overlay(Zeros(base + total), base, w);
            && RamLength(items) <= SharedLength(items)
            && Overlay(RamImage(b, base + |w|, items), base + |w| + PCINIT_OFFSET, PcBytes(items))
               == Overlay(Zeros(base + total), base, w + MemoryImage(items))
  {
    hide RamImage, RamLength, PcBytes, Overlay;
    var n := SharedLength(items);
    var pre := Zeros(base) + w;
    OverlayZeros(base, n, w, Zeros(n));
    OverlayZeros(base, n, w, MemoryImage(items));
    RamShift(pre, Zeros(n), items);
    OverlayShift(pre, RamImage(Zeros(n), 0, items), PCINIT_OFFSET, PcBytes(items));
  }

  lemma OverlayZeros(base: nat, n: nat, w: seq<byte>, m: seq<byte>)
    requires |m| == n
    ensures Overlay(Zeros(base + |w| + n), base, w + m) == Zeros(base) + w + m
    ensures Overlay(Zeros(base + |w| + n), base, w) == Zeros(base) + w + Zeros(n)
  {
  }

  // ------------------------------------------------------------ both passes

  /** What the writers leave in mem is the output with the image behind w. */
  lemma ImageEmitted(mem: array?<byte>, base: nat, total: nat, w: seq<byte>, items: seq<Element>, b: seq<byte>)
    requires mem != null ==> |w| + SharedLength(items) == total && b == Overlay(Zeros(base + total), base, w)
    requires mem != null ==> RamLength(items) <= SharedLength(items) && mem.Length == base + total
    requires mem != null ==> mem[..] == Overlay(RamImage(b, base + |w|, items), base + |w| + PCINIT_OFFSET, PcBytes(items))
    ensures Emitted(mem, base, total, w + MemoryImage(items))
  {
    if mem != null {
      ImageInPlace(base, total, w, items);
    }
  }

  /** The writers, one after the other, behind the output w. */
  method PassImage(mem: array?<byte>, base: nat, total: dword, position: nat, src: seq<byte>, p: nat,
                   ghost cs: seq<Element>, ghost w: seq<byte>)
    returns (ram: Option<nat>, pcInit: Option<nat>)
    requires At(src, p, Encode(Section(cs))) && Storable(Section(cs)) && Usable(Items(cs))
    requires Emitted(mem, base, total, w)
    requires mem != null ==> position == |w| && |w| + SharedLength(Items(cs)) == total
    modifies mem
    ensures pcInit == Some(PCINIT_OFFSET + |PcBytes(Items(cs))|)
    ensures ram.Some? <==> mem == null || RamKnown(Items(cs))
    ensures ram.Some? ==> ram.value == RamLength(Items(cs))
    ensures ram.Some? ==> Emitted(mem, base, total, w + MemoryImage(Items(cs)))
  {
    hide Encode, Storable, Usable, Items, RamLength, PcBytes, RamKnown, RamImage, MemoryImage, At, Overlay;
    ghost var b := if mem == null then [] else mem[..];
    ghost var items := Items(cs);
    if mem == null {
      ram := WriteRamInit(null, 0, 0, src, p, cs);
      pcInit := WritePcInit(null, 0, 0, src, p, cs);
    } else {
      ram := WriteRamInit(mem, base + position, total - position, src, p, cs);
      ghost var c := mem[..];
      pcInit := WritePcInit(mem, base + position, total - position, src, p, cs);
      if ram.Some? {
        ImageEmitted(mem, base, total, w, items, b);
      }
    }
  }

  /** Length of the memory section after its own length. */
  function MemoryLength(shared: nat): nat {
    5 + |Vle(shared)| + shared
  }

  /** The output is what the write pass emits, and its parts have the lengths the measuring
      pass finds. */
  lemma TranslatedParts(cs: seq<Element>)
    requires cs != []
    ensures var items := Items(cs);
            var shared := SharedLength(items); var k := MemoryLength(shared);
            var n := |Encode(cs[0])| + |EncodeAll(Kept(items))| + 1 + |Vle(k)| + k;
            && Encode(Translated(cs)) == Head(cs, n) + MemoryHead(k, shared) + MemoryImage(items)
            && |Encode(Translated(cs))| == 1 + |Vle(n)| + n
            && |EncodeAll(Translated(cs).children)| == n
  {
    hide Items, Kept, MemoryImage, MemoryHead, SharedLength, EncodeAll, Vle, MemoryLength, MemorySection;
    var items := Items(cs);
    var shared, kept := SharedLength(items), Kept(items);
    var k := MemoryLength(shared);
    MemoryParts(items);
    EncodeAllAppend([cs[0]] + kept, [MemorySection(items)]);
    EncodeAllAppend([cs[0]], kept);
    OneElement(cs[0]);
    OneElement(MemorySection(items));
    VleOne();
    var body := Encode(cs[0]) + EncodeAll(kept) + Encode(MemorySection(items));
    var v := Vle(|body|);
    assert Encode(Translated(cs)) == Vle(TLIE) + v + body;
    Regroup(Vle(TLIE) + v, Encode(cs[0]), EncodeAll(kept), MemoryHead(k, shared), MemoryImage(items));
  }

  lemma Regroup(t: seq<byte>, a: seq<byte>, b: seq<byte>, c: seq<byte>, d: seq<byte>)
    ensures t + (a + b + (c + d)) == (t + a + b) + c + d
  {
  }

  lemma VleOne()
    ensures Vle(TLIE) == [TLIE]
  {
  }

  lemma MemoryParts(items: seq<Element>)
    ensures var shared := SharedLength(items);
            && Encode(MemorySection(items)) == MemoryHead(MemoryLength(shared), shared) + MemoryImage(items)
            && |Encode(MemorySection(items))| == 1 + |Vle(MemoryLength(shared))| + MemoryLength(shared)
            && |MemoryHead(MemoryLength(shared), shared)| == 6 + |Vle(MemoryLength(shared))| + |Vle(shared)|
  {
    var image := MemoryImage(items);
    hide MemoryImage, SharedLength;
    var x, y, z := Number(RAM_OFFSET, 0), Number(RAM_OPERATION, OP_WRITE), Data(RAM_VALUE, image);
    EncodeAllAppend([x, y], [z]);
    EncodeAllAppend([x], [y]);
    OneElement(x);
    OneElement(y);
    OneElement(z);
    assert [x, y, z] == [x, y] + [z] && [x, y] == [x] + [y];
    var n := |image|;
    var body := Vle(RAM_OFFSET) + Vle(0) + (Vle(RAM_OPERATION) + Vle(OP_WRITE)) + (Vle(RAM_VALUE) + Vle(n) + image);
    assert EncodeAll([x, y, z]) == body;
    assert |Vle(TLIE)| == |Vle(RAM_OFFSET)| == |Vle(0)| == |Vle(RAM_OPERATION)| == |Vle(OP_WRITE)| == |Vle(RAM_VALUE)| == 1;
    assert |body| == MemoryLength(n);
    hide EncodeAll, Vle;
    assert Vle(TLIE) + Vle(|body|) + body == MemoryHead(|body|, n) + image;
  }

  /** The lengths the measuring pass hands to the writing pass. */
  datatype Plan = Plan(section: dword, ram: dword, shared: dword, total: dword)

  ghost predicate PlanFor(plan: Plan, cs: seq<Element>)
    requires cs != []
  {
    var items := Items(cs);
    && plan.shared == SharedLength(items) && plan.ram == MemoryLength(plan.shared)
    && plan.section == |EncodeAll(Translated(cs).children)| && plan.total == |Encode(Translated(cs))|
    && Encode(Translated(cs)) == Head(cs, plan.section) + MemoryHead(plan.ram, plan.shared) + MemoryImage(items)
  }

  /** What the measuring pass adds up. */
  lemma PlanAddsUp(cs: seq<Element>)
    requires Instance(cs)
    ensures var items := Items(cs); var shared := SharedLength(items); var k := MemoryLength(shared);
            var n := |Encode(cs[0])| + |EncodeAll(Kept(items))| + 1 + |Vle(k)| + k;
            && 1 + |Vle(n)| + n < DWORDS && PlanFor(Plan(n, k, shared, 1 + |Vle(n)| + n), cs)
  {
    hide Items, Usable, Storable, Vle, EncodeAll, Translated, SharedLength, MemoryLength, Kept, MemoryHead, MemoryImage, Head;
    TranslatedParts(cs);
  }

  /** The first pass: nothing is written, and the lengths are right. */
  method Measure(src: seq<byte>, p: nat, ghost cs: seq<Element>) returns (plan: Plan)
    requires At(src, p, Encode(Section(cs))) && Instance(cs)
    ensures PlanFor(plan, cs)
  {
    PlanAddsUp(cs);
    UsableInstance(cs);
    hide Items, Usable, Storable, Vle, EncodeAll, Encode, At, Emitted, Instance, Head, Translated, PlanFor, SharedLength, Kept;
    var head, mark := PassHead(null, 0, 0, 0, src, p, cs);
    var q, ramMark := PutMemoryHead(null, 0, 0, head.value, 0, 0, []);
    var ram, pcInit := PassImage(null, 0, 0, q, src, p, cs, []);
    var shared := Max(ram.value, pcInit.value);
    SharedIs(Items(cs));
    var position := q + shared;
    var n := DwordToVle(shared, null, 0, 0);
    var ramLength := position + n - ramMark;
    var m := DwordToVle(ramLength, null, 0, 0);
    var section := position + n + m - mark;
    var k := DwordToVle(section, null, 0, 0);
    plan := Plan(section, ramLength, shared, position + n + m + k);
  }

  lemma UsableInstance(cs: seq<Element>)
    requires Instance(cs)
    ensures cs != [] && Storable(Section(cs)) && Usable(Items(cs))
    ensures |Encode(Translated(cs))| < DWORDS
    ensures Emitted(null, 0, 0, [])
  {
  }

  lemma SharedIs(items: seq<Element>)
    ensures SharedLength(items) == Max(RamLength(items), PCINIT_OFFSET + |PcBytes(items)|)
  {
  }

  /** The second pass: the same walk again, into memory of the measured length.  It ends at
      the end of that memory. */
  method Write(mem: array<byte>, base: nat, plan: Plan, src: seq<byte>, p: nat, ghost cs: seq<Element>)
    returns (r: Option<nat>)
    requires At(src, p, Encode(Section(cs))) && Instance(cs) && PlanFor(plan, cs)
    requires Emitted(mem, base, plan.total, [])
    modifies mem
    ensures r.Some? <==> RamKnown(Items(cs))
    ensures r.Some? ==> r == Some(plan.total) && Emitted(mem, base, plan.total, Encode(Translated(cs)))
  {
    UsableInstance(cs);
    PlanFits(plan, cs);
    hide Items, Usable, Storable, Vle, EncodeAll, Encode, At, Emitted, Instance, Head, Translated, PlanFor, SharedLength, Kept;
    hide MemoryHead, MemoryImage;
    ghost var w := Head(cs, plan.section);
    var head, _ := PassHead(mem, base, plan.total, plan.section, src, p, cs);
    var q, _ := PutMemoryHead(mem, base, plan.total, head.value, plan.ram, plan.shared, w);
    var ram, pcInit := PassImage(mem, base, plan.total, q, src, p, cs, w + MemoryHead(plan.ram, plan.shared));
    if ram.None? || pcInit.None? {
      return None;
    }
    return Some(q + plan.shared);
  }

  lemma PlanFits(plan: Plan, cs: seq<Element>)
    requires cs != [] && PlanFor(plan, cs)
    ensures plan.shared == SharedLength(Items(cs)) && PCINIT_OFFSET < plan.shared
    ensures plan.total == |Head(cs, plan.section)| + |MemoryHead(plan.ram, plan.shared)| + plan.shared
    ensures Encode(Translated(cs)) == Head(cs, plan.section) + MemoryHead(plan.ram, plan.shared) + MemoryImage(Items(cs))
  {
  }

  /** diva_cfg_translate_xdi_data.  The result is null exactly when a RAM section asks for an
      operation that is not known. */
  method Translate(headerLength: dword, src: seq<byte>, p: nat, ghost cs: seq<Element>)
    returns (hdr: array?<byte>, dataLength: nat)
    requires At(src, p, Encode(Section(cs))) && Instance(cs)
    requires headerLength + |Encode(Translated(cs))| < DWORDS
    ensures hdr != null <==> RamKnown(Items(cs))
    ensures hdr != null ==> hdr[..] == Zeros(headerLength) + Encode(Translated(cs)) && dataLength == hdr.Length
  {
    ghost var out := Encode(Translated(cs));
    assert cs != [] && |out| < DWORDS;
    hide Items, Usable, Storable, EncodeAll, Encode, At, Emitted, Instance, Translated;
    var plan := Measure(src, p, cs);
    assert plan.total == |out|;
    hide PlanFor;
    var mem := new byte[headerLength + plan.total](_ => 0);
    EmittedNone(mem, headerLength, plan.total);
    var end := Write(mem, headerLength, plan, src, p, cs);
    if end.None? {
      return null, 0;
    }
    EmittedAll(mem, headerLength, plan.total, out);
    return mem, plan.total + headerLength;
  }

  lemma EmittedNone(mem: array<byte>, base: nat, total: nat)
    requires mem.Length == base + total && forall k :: 0 <= k < mem.Length ==> mem[k] == 0
    ensures Emitted(mem, base, total, [])
  {
    assert mem[..] == Zeros(base + total);
  }

  lemma EmittedAll(mem: array<byte>, base: nat, total: nat, w: seq<byte>)
    requires Emitted(mem, base, total, w) && |w| == total
    ensures mem.Length == base + total && mem[..] == Zeros(base) + w
  {
  }
}
