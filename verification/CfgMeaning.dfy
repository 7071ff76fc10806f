/** What the rewritten instance of diva_cfg_translate_xdi_data (kernel/diva_cfg_lib.c) means. */
module CfgMeaning {
  import opened Machine
  import opened CfgVle
  import opened CfgTree
  import opened CfgWalk
  import opened CfgSection
  import opened CfgTranslate

  lemma ItemsMore(es: seq<Element>, e: Element)
    ensures Items(es + [e]) == Items(es) + if IsItem(e) then [e] else []
  {
    assert (es + [e])[..|es|] == es;
  }

  /** The items of an instance are its sections of a known type that are no bindings. */
  lemma {:induction false} ItemsAre(cs: seq<Element>)
    ensures forall e :: e in Items(cs) <==> e in cs && IsItem(e)
  {
    hide IsItem;
    if cs != [] {
      ItemsAre(cs[..|cs| - 1]);
      assert cs == cs[..|cs| - 1] + [cs[|cs| - 1]];
    }
  }

  lemma {:induction false} KeptAre(items: seq<Element>)
    ensures forall e :: e in Kept(items) <==> e in items && !IsRam(e) && !IsPcInit(e)
  {
    hide IsRam, IsPcInit;
    if items != [] {
      KeptAre(items[..|items| - 1]);
      assert items == items[..|items| - 1] + [items[|items| - 1]];
    }
  }

  /** Sections that are copied. */
  predicate Plain(k: seq<Element>) {
    forall e :: e in k ==> IsItem(e) && !IsRam(e) && !IsPcInit(e)
  }

  /** To copy them again changes nothing, and they mean nothing for the adapter's memory. */
  lemma {:induction false} PlainStays(k: seq<Element>, m: seq<byte>)
    requires Plain(k)
    ensures Kept(k) == k && Items(k) == k
    ensures RamLength(k) == 0 && RamKnown(k) && RamImage(m, 0, k) == m && PcRun(k) == PcState(0, false, [])
  {
    hide IsItem, IsRam, IsPcInit, ApplyRam, RamEnd, PcStep;
    if k != [] {
      var e, its := k[|k| - 1], k[..|k| - 1];
      assert e in k;
      PlainStays(its, m);
      assert k == its + [e];
    }
  }

  lemma {:induction false} ItemsAfter(first: Element, k: seq<Element>)
    requires !IsItem(first)
    ensures Items([first] + k) == Items(k)
  {
    hide IsItem;
    if k == [] {
      ItemsMore([], first);
      assert [first] + k == [] + [first];
    } else {
      var its, e := k[..|k| - 1], k[|k| - 1];
      ItemsAfter(first, its);
      ItemsMore([first] + its, e);
      assert [first] + k == ([first] + its) + [e];
    }
  }

  lemma KeptIsPlain(cs: seq<Element>)
    ensures Plain(Kept(Items(cs)))
    ensures forall e :: e in Kept(Items(cs)) ==> e in cs && e in Items(cs)
  {
    hide IsItem, IsRam, IsPcInit, Kept, Items;
    ItemsAre(cs);
    KeptAre(Items(cs));
  }

  lemma MemorySectionIs(items: seq<Element>)
    ensures var e := MemorySection(items); var cs := e.children;
            && IsItem(e) && IsRam(e) && !IsPcInit(e) && e.WellFormed() && Complete(e)
            && RamOffset(cs) == 0 && RamOperation(cs) == OP_WRITE && RamData(cs) == MemoryImage(items)
  {
    hide MemoryImage;
    var cs := MemorySection(items).children;
    FirstOf(cs);
    assert TypeFrom(cs, 1) == RAM_OFFSET;
    assert TypeFrom(cs, 0) == RAM_OFFSET;
  }

  lemma FirstOf(cs: seq<Element>)
    requires |cs| == 3 && cs[0].Id() == RAM_OFFSET && cs[1].Id() == RAM_OPERATION && cs[2].Id() == RAM_VALUE
    ensures FirstWithId(cs, 0, RAM_OFFSET) == Some(0) && FirstWithId(cs, 0, RAM_OPERATION) == Some(1)
    ensures FirstWithId(cs, 0, RAM_VALUE) == Some(2) && FirstWithId(cs, 0, PCINIT_NAME) == None
  {
    assert FirstWithId(cs, 3, PCINIT_NAME) == None;
    assert FirstWithId(cs, 2, PCINIT_NAME) == None;
    assert FirstWithId(cs, 1, PCINIT_NAME) == None;
    assert FirstWithId(cs, 2, RAM_VALUE) == Some(2);
    assert FirstWithId(cs, 1, RAM_VALUE) == Some(2);
    assert FirstWithId(cs, 1, RAM_OPERATION) == Some(1);
  }

  /** The rewritten instance keeps the identity, and in order every variable and image section;
      it has one memory section more and nothing else.  To load its RAM sections into cleared
      memory gives the memory of the original: all its RAM sections in order, then its PCINIT
      list from byte 224 on; and no PCINIT section is left to write. */
  lemma TranslationKeepsMeaning(cs: seq<Element>)
    requires Instance(cs)
    ensures var items := Items(cs); var ts := Translated(cs).children; var n := SharedLength(items);
            && Storable(Translated(cs)) && Usable(Items(ts))
            && ts[0] == cs[0] && Items(ts) == ts[1..] == Kept(items) + [MemorySection(items)]
            && Kept(Items(ts)) == Kept(items)
            && RamKnown(Items(ts)) && RamLength(Items(ts)) == n
            && RamImage(Zeros(n), 0, Items(ts))
               == Overlay(RamImage(Zeros(n), 0, items), PCINIT_OFFSET, PcBytes(items))
            && PcRun(Items(ts)) == PcState(0, false, [])
  {
    hide IsItem, IsRam, IsPcInit, Kept, Items, RamImage, RamLength, RamKnown, PcRun, PcBytes, MemorySection, ApplyRam, EncodeAll, Encode, Usable, Has, TypeOf;
    hide RamOperation, RamOffset, RamEnd, RamData, SharedLength;
    var items, ts := Items(cs), Translated(cs).children;
    var k, e, n := Kept(items), MemorySection(items), SharedLength(items);
    MemorySectionIs(items);
    KeptIsPlain(cs);
    PlainStays(k, Zeros(n));
    TranslatedItems(cs, k, e);
    KeptMore(k, e);
    PcMore(k, e);
    RamMore(k, e, Zeros(n), 0);
    WholeImage(Zeros(n), e.children, MemoryImage(items));
    TranslatedSound(cs);
    hide MemoryImage;
  }

  lemma TranslatedItems(cs: seq<Element>, k: seq<Element>, e: Element)
    requires cs != [] && !cs[0].Section? && IsItem(e) && Items(k) == k
    ensures var ts := [cs[0]] + k + [e];
            Items(ts) == ts[1..] == k + [e]
  {
    ItemsMore([cs[0]] + k, e);
    ItemsAfter(cs[0], k);
    assert ([cs[0]] + k + [e])[1..] == k + [e];
  }

  lemma WholeImage(m: seq<byte>, cs: seq<Element>, image: seq<byte>)
    requires RamOffset(cs) == 0 && RamOperation(cs) == OP_WRITE && RamData(cs) == image && |image| == |m|
    ensures RamEnd(cs) == |m| && ApplyRam(m, 0, cs) == image
  {
  }

  lemma TranslatedSound(cs: seq<Element>)
    requires Instance(cs)
    ensures Storable(Translated(cs)) && Usable(Kept(Items(cs)) + [MemorySection(Items(cs))]) && !cs[0].Section?
  {
    hide IsItem, IsRam, IsPcInit, Kept, Items, MemorySection, Encode, Has, TypeOf, RamOperation, RamEnd, RamOffset, RamData, MemoryImage;
    var k, e := Kept(Items(cs)), MemorySection(Items(cs));
    MemorySectionIs(Items(cs));
    KeptIsPlain(cs);
    PlanAddsUp(cs);
    MemoryFits(e.children, MemoryImage(Items(cs)));
    assert cs[0].WellFormed() && forall x :: x in k ==> x in cs;
    assert forall x :: x in Translated(cs).children ==> x == cs[0] || x in k || x == e;
    hide Complete;
    assert forall x :: x in k + [e] ==> x in k || x == e;
  }

  lemma MemoryFits(cs: seq<Element>, image: seq<byte>)
    requires RamOffset(cs) == 0 && RamData(cs) == image
    ensures RamEnd(cs) == |image|
  {
  }

  /** Which sections are copied: those whose type is variable or image. */
  lemma KeptSections(cs: seq<Element>, e: Element)
    ensures e in Kept(Items(cs)) <==> e in cs && e.Section? && TypeOf(e.children) in {NAMED_VAR, IMAGE_TYPE}
  {
    ItemsAre(cs);
    KeptAre(Items(cs));
    if e.Section? {
      TypeIsListed(e.children, 0);
    }
  }

  lemma {:induction false} TypeIsListed(cs: seq<Element>, k: nat)
    requires k <= |SECTION_TYPES|
    ensures TypeFrom(cs, k) == 0 || TypeFrom(cs, k) in SECTION_TYPES
    decreases |SECTION_TYPES| - k
  {
    if k < |SECTION_TYPES| {
      TypeIsListed(cs, k + 1);
    }
  }
}
