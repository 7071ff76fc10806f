/** The walkers of kernel/diva_cfg_lib.c over the binary form of a configuration tree.
    A byte pointer is an offset into the storage `src`; null is None. */
module CfgWalk {
  import opened Machine
  import opened CfgVle
  import opened CfgTree

  // skip_vie_vle: the length of the number element at p, or 0
  method SkipNumber(src: seq<byte>, p: nat, maxLength: dword, ghost e: Element) returns (used: int)
    requires At(src, p, Encode(e)) && Storable(e) && e.Number? && |Encode(e)| <= maxLength
    ensures used == |Encode(e)|
  {
    ElementAt(src, p, e);
    NumberAt(src, p, e.id);
    NumberAt(src, p + |Vle(e.id)|, e.value);
    var _, u := VleToDword(src, p);
    if u == 0 || u >= maxLength {
      return 0;
    }
    var _, w := VleToDword(src, p + u);
    if w == 0 || u + w > maxLength {
      return 0;
    }
    return u + w;
  }

  // skip_tlie and skip_vie_bs, which are the same: the length of the element at p, or 0
  method SkipData(src: seq<byte>, p: nat, maxLength: dword, ghost e: Element) returns (used: int)
    requires At(src, p, Encode(e)) && Storable(e) && !e.Number? && |Encode(e)| <= maxLength
    ensures used == |Encode(e)|
  {
    ElementAt(src, p, e);
    NumberAt(src, p, e.Id());
    ghost var n := if e.Data? then |e.data| else |EncodeAll(e.children)|;
    NumberAt(src, p + |Vle(e.Id())|, n);
    var _, u := VleToDword(src, p);
    if u == 0 || u >= maxLength {
      return 0;
    }
    var v, w := VleToDword(src, p + u);
    var total := ToDword(u + v + w);
    if w == 0 || total > maxLength {
      return 0;
    }
    return total;
  }

  /** find_tag_from_id and the call of the tag's skip procedure; 0 for an unknown tag. */
  method SkipElement(src: seq<byte>, p: nat, id: dword, maxLength: dword, ghost e: Element) returns (used: int)
    requires At(src, p, Encode(e)) && Storable(e) && id == e.Id() && |Encode(e)| <= maxLength
    ensures used == |Encode(e)|
  {
    if IsNumberId(id) {
      used := SkipNumber(src, p, maxLength, e);
    } else if id == TLIE || IsDataId(id) {
      used := SkipData(src, p, maxLength, e);
    } else {
      used := 0;
    }
  }

  /** The first element of es, from place i on, with the identifier. */
  function FirstWithId(es: seq<Element>, i: nat, id: dword): (r: Option<nat>)
    requires i <= |es|
    ensures r.Some? ==> i <= r.value < |es| && es[r.value].Id() == id
                        && forall k :: i <= k < r.value ==> es[k].Id() != id
    ensures r.None? ==> forall k :: i <= k < |es| ==> es[k].Id() != id
    decreases |es| - i
  {
    if i == |es| then None else if es[i].Id() == id then Some(i) else FirstWithId(es, i + 1, id)
  }

  /** The header of the section at p: its identifier and length have been read. */
  lemma SectionHeader(src: seq<byte>, p: nat, cs: seq<Element>)
    requires At(src, p, Encode(Section(cs))) && Storable(Section(cs))
    ensures Ends(src, p, MAX_USED) && Used(src, p, MAX_USED) == 1 && ValueAt(src, p, MAX_USED) == TLIE
    ensures var n := |EncodeAll(cs)|;
            && Ends(src, p + 1, MAX_USED) && Used(src, p + 1, MAX_USED) == |Vle(n)|
            && ValueAt(src, p + 1, MAX_USED) % 0x1_0000_0000 == n
            && ChildPos(p, cs, 0) == p + 1 + |Vle(n)|
            && ChildPos(p, cs, |cs|) == p + 1 + |Vle(n)| + n == p + |Encode(Section(cs))|
  {
    ElementAt(src, p, Section(cs));
    NumberAt(src, p, TLIE);
    VleRoundTrip(src, p, TLIE, MAX_USED);
    NumberAt(src, p + 1, |EncodeAll(cs)|);
    assert cs[..|cs|] == cs && cs[..0] == [];
  }

  /** One element of the section: what reading its identifier gives. */
  lemma ChildId(src: seq<byte>, p: nat, cs: seq<Element>, i: nat)
    requires At(src, p, Encode(Section(cs))) && Storable(Section(cs)) && i < |cs|
    ensures var q := ChildPos(p, cs, i);
            && At(src, q, Encode(cs[i])) && Storable(cs[i])
            && Ends(src, q, MAX_USED) && ValueAt(src, q, MAX_USED) % 0x1_0000_0000 == cs[i].Id()
            && ChildPos(p, cs, i + 1) == q + |Encode(cs[i])| <= ChildPos(p, cs, |cs|)
  {
    ChildAt(src, p, cs, i);
    ChildStorable(cs, i);
    ElementAt(src, ChildPos(p, cs, i), cs[i]);
    NumberAt(src, ChildPos(p, cs, i), cs[i].Id());
    assert cs[..|cs|] == cs;
  }

  lemma PosBeforeEnd(src: seq<byte>, p: nat, cs: seq<Element>, i: nat)
    requires At(src, p, Encode(Section(cs))) && i <= |cs|
    ensures ChildPos(p, cs, i) <= ChildPos(p, cs, |cs|)
    ensures ChildPos(p, cs, i) == ChildPos(p, cs, |cs|) <==> i == |cs|
  {
    if i < |cs| {
      ChildAt(src, p, cs, i);
      assert cs[..|cs|] == cs;
    }
  }

  // diva_cfg_get_section_element: the first direct child with the identifier
  method GetSectionElement(src: seq<byte>, p: nat, required: dword, ghost cs: seq<Element>) returns (r: Option<nat>)
    requires At(src, p, Encode(Section(cs))) && Storable(Section(cs))
    ensures r == match FirstWithId(cs, 0, required) case None => None case Some(i) => Some(ChildPos(p, cs, i))
  {
    hide Encode, EncodeAll, ChildPos, Ends, Used, ValueAt, At, Storable, Vle;
    SectionHeader(src, p, cs);
    var tag, u := VleToDword(src, p);
    if tag != TLIE {
      return None;
    }
    var maxLength, w := VleToDword(src, p + u);
    if maxLength == 0 {
      PosBeforeEnd(src, p, cs, 0);
      return None;
    }
    var q := p + u + w;
    ghost var i := 0;
    while maxLength != 0
      invariant i <= |cs| && q == ChildPos(p, cs, i) && q + maxLength == ChildPos(p, cs, |cs|)
      invariant FirstWithId(cs, 0, required) == FirstWithId(cs, i, required)
      decreases maxLength
    {
      PosBeforeEnd(src, p, cs, i);
      ChildId(src, p, cs, i);
      var id, _ := VleToDword(src, q);
      if id == required {
        return Some(q);
      }
      var used := SkipElement(src, q, id, maxLength, cs[i]);
      if used == 0 {
        return None;
      }
      q := q + used;
      maxLength := maxLength - used;
      i := i + 1;
    }
    PosBeforeEnd(src, p, cs, i);
    return None;
  }

  /** Where the walk over the section at p stands after child i - 1; None before the first. */
  ghost predicate Cursor(cur: Option<nat>, p: nat, cs: seq<Element>, i: nat) {
    if cur.None? then i == 0 else 1 <= i <= |cs| && cur.value == ChildPos(p, cs, i - 1)
  }

  function PosOf(p: nat, cs: seq<Element>, i: Option<nat>): (r: Option<nat>)
    requires i.Some? ==> i.value < |cs|
  {
    if i.None? then None else Some(ChildPos(p, cs, i.value))
  }

  // diva_cfg_get_next_cfg_section: the next direct child that is a section
  method GetNextCfgSection(src: seq<byte>, p: nat, current: Option<nat>, ghost cs: seq<Element>, ghost i0: nat)
    returns (r: Option<nat>)
    requires At(src, p, Encode(Section(cs))) && Storable(Section(cs)) && Cursor(current, p, cs, i0)
    ensures i0 <= |cs| && r == PosOf(p, cs, FirstWithId(cs, i0, TLIE))
  {
    hide Encode, EncodeAll, ChildPos, Ends, Used, ValueAt, At, Storable, Vle;
    SectionHeader(src, p, cs);
    PosBeforeEnd(src, p, cs, 0);
    if current.Some? {
      PosBeforeEnd(src, p, cs, i0 - 1);
      PosAfterStart(p, cs, i0 - 1);
    }
    var tag, u := VleToDword(src, p);
    if tag != TLIE {
      return None;
    }
    var maxLength, w := VleToDword(src, p + u);
    if maxLength == 0 {
      return None;
    }
    var start := p + u + w;
    if current.Some? && (current.value >= start + maxLength || current.value < start) {
      return None;
    }
    var q := if current.Some? then current.value else start;
    maxLength := maxLength - (q - start);
    var skipCurrent := current.Some?;
    ghost var i: nat := if skipCurrent then i0 - 1 else 0;
    while maxLength != 0
      invariant i <= |cs| && q == ChildPos(p, cs, i) && q + maxLength == ChildPos(p, cs, |cs|)
      invariant if skipCurrent then i + 1 == i0 else i0 <= i && FirstWithId(cs, i0, TLIE) == FirstWithId(cs, i, TLIE)
      decreases maxLength
    {
      PosBeforeEnd(src, p, cs, i);
      ChildId(src, p, cs, i);
      var id, _ := VleToDword(src, q);
      if id == TLIE && !skipCurrent {
        return Some(q);
      }
      skipCurrent := false;
      var used := SkipElement(src, q, id, maxLength, cs[i]);
      if used == 0 {
        return None;
      }
      q := q + used;
      maxLength := maxLength - used;
      i := i + 1;
    }
    PosBeforeEnd(src, p, cs, i);
    return None;
  }

  lemma PosAfterStart(p: nat, cs: seq<Element>, i: nat)
    requires i <= |cs|
    ensures ChildPos(p, cs, 0) <= ChildPos(p, cs, i)
  {
    assert cs[..0] == [];
  }

  // ---------------------------------------------------------- section types

  /** The table `sections`: the element that marks each type, in the order it is asked for. */
  const SECTION_TYPES: seq<byte> := [PCINIT_NAME, RAM_OFFSET, NAMED_VAR, IMAGE_TYPE, BINDING_DIRECTION]

  predicate Has(cs: seq<Element>, id: byte) {
    FirstWithId(cs, 0, id).Some?
  }

  /** The type of a section with the children cs; 0 is IeNotDefined. */
  function TypeOf(cs: seq<Element>): byte {
    TypeFrom(cs, 0)
  }

  function TypeFrom(cs: seq<Element>, k: nat): byte
    requires k <= |SECTION_TYPES|
    decreases |SECTION_TYPES| - k
  {
    if k == |SECTION_TYPES| then 0 else if Has(cs, SECTION_TYPES[k]) then SECTION_TYPES[k] else TypeFrom(cs, k + 1)
  }

  // diva_cfg_get_section_type
  method GetSectionType(src: seq<byte>, p: nat, ghost cs: seq<Element>) returns (id: byte)
    requires At(src, p, Encode(Section(cs))) && Storable(Section(cs))
    ensures id == TypeOf(cs)
  {
    for i := 0 to |SECTION_TYPES|
      invariant TypeOf(cs) == TypeFrom(cs, i)
    {
      var e := GetSectionElement(src, p, SECTION_TYPES[i], cs);
      if e.Some? {
        return SECTION_TYPES[i];
      }
    }
    return 0;
  }

  // ------------------------------------------------------------ the items

  /** The configuration items: sections of a known type other than bindings. */
  predicate IsItem(e: Element) {
    e.Section? && TypeOf(e.children) != 0 && TypeOf(e.children) != BINDING_DIRECTION
  }

  function Items(es: seq<Element>): seq<Element> {
    if es == [] then []
    else Items(es[..|es| - 1]) + if IsItem(es[|es| - 1]) then [es[|es| - 1]] else []
  }

  function NextItem(es: seq<Element>, i: nat): (r: Option<nat>)
    requires i <= |es|
    ensures r.Some? ==> i <= r.value < |es| && IsItem(es[r.value])
    decreases |es| - i
  {
    if i == |es| then None else if IsItem(es[i]) then Some(i) else NextItem(es, i + 1)
  }

  /** Walking from item to item visits exactly the items, in order. */
  lemma {:induction false} WalkVisitsItems(es: seq<Element>, i: nat)
    requires i <= |es|
    ensures var j := NextItem(es, i);
            && (j.None? ==> Items(es) == Items(es[..i]))
            && (j.Some? ==> IsItem(es[j.value]) && Items(es[..j.value + 1]) == Items(es[..i]) + [es[j.value]])
    decreases |es| - i
  {
    hide IsItem;
    if i == |es| {
      assert es[..i] == es;
    } else {
      assert es[..i + 1][..i] == es[..i];
      WalkVisitsItems(es, i + 1);
    }
  }

  lemma {:induction false} NextItemFrom(es: seq<Element>, i: nat)
    requires i <= |es|
    ensures var j := FirstWithId(es, i, TLIE);
            NextItem(es, i) == if j.None? then None
                               else if IsItem(es[j.value]) then Some(j.value) else NextItem(es, j.value + 1)
    decreases |es| - i
  {
    if i < |es| && es[i].Id() != TLIE {
      NextItemFrom(es, i + 1);
    }
  }

  // diva_cfg_get_next_channel_configuration_item
  method GetNextItem(src: seq<byte>, p: nat, current: Option<nat>, ghost cs: seq<Element>, ghost i0: nat)
    returns (r: Option<nat>, ghost i: nat)
    requires At(src, p, Encode(Section(cs))) && Storable(Section(cs)) && Cursor(current, p, cs, i0)
    ensures i0 <= |cs| && (r.None? <==> NextItem(cs, i0).None?)
    ensures r.Some? ==>
              && i0 < i <= |cs| && NextItem(cs, i0) == Some(i - 1) && Cursor(r, p, cs, i)
              && At(src, r.value, Encode(cs[i - 1])) && Storable(cs[i - 1]) && cs[i - 1].Section?
  {
    hide Encode, EncodeAll, ChildPos, At, Storable, TypeOf;
    var id: byte := 0;
    r, i := current, i0;
    while id == 0
      invariant id == 0 ==> Cursor(r, p, cs, i) && i <= |cs| && i0 <= i && NextItem(cs, i0) == NextItem(cs, i)
      invariant id != 0 ==> r.Some? && NextItem(cs, i0).Some? && i == NextItem(cs, i0).value + 1
                            && r == PosOf(p, cs, NextItem(cs, i0))
      decreases |cs| - i, id == 0
    {
      ghost var next := FirstWithId(cs, i, TLIE);
      r := GetNextCfgSection(src, p, r, cs, i);
      NextItemFrom(cs, i);
      if r.None? {
        return;
      }
      ghost var j := next.value;
      SectionChild(src, p, cs, j);
      i := j + 1;
      id := GetSectionType(src, r.value, cs[j].children);
      if id == BINDING_DIRECTION || id == 0 {
        id := 0;
      }
    }
    SectionChild(src, p, cs, i - 1);
  }

  lemma SectionChild(src: seq<byte>, p: nat, cs: seq<Element>, j: nat)
    requires At(src, p, Encode(Section(cs))) && Storable(Section(cs)) && j < |cs|
    ensures At(src, ChildPos(p, cs, j), Encode(cs[j])) && Storable(cs[j])
    ensures cs[j].Id() == TLIE ==> cs[j].Section?
  {
    ChildId(src, p, cs, j);
  }
}
