/** What the sections of an instance say (kernel/diva_cfg_lib.c), in terms of their children. */
module CfgParts {
  import opened Machine
  import opened CfgTree
  import opened CfgWalk
  import opened CfgSection
  import opened CfgTranslate
  import opened CfgPcInit

  /** Child i is the first one with the identifier. */
  predicate FirstChild(cs: seq<Element>, id: byte, i: nat) {
    i < |cs| && cs[i].Id() == id && forall k :: 0 <= k < i ==> cs[k].Id() != id
  }

  predicate HasChild(cs: seq<Element>, id: byte) {
    exists e :: e in cs && e.Id() == id
  }

  lemma HasIsHasChild(cs: seq<Element>, id: byte)
    ensures Has(cs, id) <==> HasChild(cs, id)
  {
    if Has(cs, id) {
      assert cs[FirstWithId(cs, 0, id).value] in cs;
    } else {
      assert forall e :: e in cs ==> exists i :: 0 <= i < |cs| && cs[i] == e;
    }
  }

  /** The type of a section: the first of PCINIT name, RAM offset, variable name, image type and
      binding direction that it has. */
  lemma TypeMeaning(cs: seq<Element>)
    ensures TypeOf(cs) == if HasChild(cs, 5) then 5
                          else if HasChild(cs, 7) then 7
                          else if HasChild(cs, 14) then 14
                          else if HasChild(cs, 10) then 10
                          else if HasChild(cs, 17) then 17 else 0
  {
    hide HasChild, Has;
    HasIsHasChild(cs, 5);
    HasIsHasChild(cs, 7);
    HasIsHasChild(cs, 14);
    HasIsHasChild(cs, 10);
    HasIsHasChild(cs, 17);
    assert TypeFrom(cs, 5) == 0;
    assert TypeFrom(cs, 3) == if Has(cs, 10) then 10 else TypeFrom(cs, 4);
    assert TypeFrom(cs, 1) == if Has(cs, 7) then 7 else TypeFrom(cs, 2);
  }

  /** A number or a byte string is that of the first child with the identifier. */
  lemma ValueMeaning(cs: seq<Element>, id: byte)
    ensures forall v: dword :: NumberOf(cs, id) == Some(v) <==> exists i: nat :: FirstChild(cs, id, i) && cs[i] == Number(id, v)
    ensures forall d :: DataOf(cs, id) == Some(d) <==> exists i: nat :: FirstChild(cs, id, i) && cs[i] == Data(id, d)
  {
    var f := FirstWithId(cs, 0, id);
    if f.Some? {
      assert FirstChild(cs, id, f.value);
      assert forall i: nat :: FirstChild(cs, id, i) ==> i == f.value;
    }
  }

  /** A RAM section: children 7, 8 and 9 are offset, operation and value. */
  lemma RamMeaning(cs: seq<Element>, off: dword, op: dword, d: seq<byte>)
    requires NumberOf(cs, 7) == Some(off) && NumberOf(cs, 8) == Some(op) && DataOf(cs, 9) == Some(d)
    ensures RamOffset(cs) == off && RamData(cs) == d && RamEnd(cs) == off + |d|
    ensures RamOperation(cs) == if 1 <= op <= 3 then op else 0
  {
  }

  /** The memory of the RAM sections reaches exactly as far as the farthest one. */
  lemma {:induction false} RamLengthMeaning(items: seq<Element>)
    ensures forall e :: e in items && IsRam(e) ==> RamEnd(e.children) <= RamLength(items)
    ensures RamLength(items) == 0 || exists e :: e in items && IsRam(e) && RamEnd(e.children) == RamLength(items)
  {
    hide IsRam, RamEnd;
    if items != [] {
      var its, e := items[..|items| - 1], items[|items| - 1];
      RamLengthMeaning(its);
      assert items == its + [e];
    }
  }

  /** The memory image: long enough for every RAM section and for the list behind byte 224, and no
      longer; the list lies there, and the RAM sections before and behind it. */
  lemma MemoryMeaning(items: seq<Element>, j: nat)
    requires j < |MemoryImage(items)|
    ensures |MemoryImage(items)| == Max(RamLength(items), 224 + |PcBytes(items)|)
    ensures MemoryImage(items)[j] == if 224 <= j < 224 + |PcBytes(items)| then PcBytes(items)[j - 224]
                                     else RamImage(Zeros(|MemoryImage(items)|), 0, items)[j]
  {
    hide RamImage, RamLength, PcBytes;
  }

  /** A parameter: child 5 is its type and child 34 its line, both cut to a byte, and child 6 its
      data, of a length cut to a byte; types from 0x80 on have none. */
  lemma ParameterMeaning(cs: seq<Element>, name: dword, d: seq<byte>)
    requires NumberOf(cs, 5) == Some(name) && DataOf(cs, 6) == Some(d)
    ensures var p, n := ParamOf(cs), if name % 0x100 < 0x80 then |d| % 0x100 else 0;
            && p.kind == name % 0x100 && |p.data| == n && p.data == d[..n]
            && (NumberOf(cs, 34).None? ==> p.line == 0)
            && forall l: dword :: NumberOf(cs, 34) == Some(l) ==> p.line == l % 0x100
  {
  }
}
