/** What the operations of RAM sections (kernel/diva_cfg_lib.c) do to single bits of the memory. */
module CfgBits {
  import opened Machine
  import opened CfgTree
  import opened CfgWalk
  import opened CfgSection
  import opened CfgTranslate

  predicate IsSet(x: nat, k: nat) {
    x / Weight(k) % 2 == 1
  }

  lemma {:induction false} NextBit(x: nat, k: nat)
    requires k > 0
    ensures IsSet(x, k) <==> IsSet(x / 2, k - 1)
  {
    var w := Weight(k - 1);
    QuotientTwice(x, 2, w, 2 * w);
  }

  lemma {:induction false} OrBit(x: nat, y: nat, n: nat, k: nat)
    requires k < n
    ensures IsSet(Or(x, y, n), k) <==> IsSet(x, k) || IsSet(y, k)
  {
    if k > 0 {
      OrBit(x / 2, y / 2, n - 1, k - 1);
      assert Or(x, y, n) / 2 == Or(x / 2, y / 2, n - 1);
      hide IsSet, Or;
      NextBit(Or(x, y, n), k);
      NextBit(x, k);
      NextBit(y, k);
    }
  }

  lemma {:induction false} AndNotBit(x: nat, y: nat, n: nat, k: nat)
    requires k < n
    ensures IsSet(AndNot(x, y, n), k) <==> IsSet(x, k) && !IsSet(y, k)
  {
    if k > 0 {
      AndNotBit(x / 2, y / 2, n - 1, k - 1);
      assert AndNot(x, y, n) / 2 == AndNot(x / 2, y / 2, n - 1);
      hide IsSet, AndNot;
      NextBit(AndNot(x, y, n), k);
      NextBit(x, k);
      NextBit(y, k);
    }
  }

  /** A bit is set afterwards exactly when it is set in the memory or in the data. */
  lemma SetBitsMeaning(x: byte, y: byte, k: nat)
    requires k < 8
    ensures IsSet(SetBits(x, y), k) <==> IsSet(x, k) || IsSet(y, k)
  {
    hide IsSet, Or;
    OrBit(x, y, 8, k);
  }

  /** A bit is set afterwards exactly when it is set in the memory and not in the data. */
  lemma ClearBitsMeaning(x: byte, y: byte, k: nat)
    requires k < 8
    ensures IsSet(ClearBits(x, y), k) <==> IsSet(x, k) && !IsSet(y, k)
  {
    hide IsSet, AndNot;
    AndNotBit(x, y, 8, k);
  }

  /** The memory after a RAM section, bit by bit: nothing outside the bytes the section names is
      changed; inside, the bits are those of the data, or those of memory or data, or those of the
      memory that the data does not have, as the operation says. */
  lemma RamSectionMeaning(mem: seq<byte>, at: nat, cs: seq<Element>, j: nat, k: nat)
    requires at + RamEnd(cs) <= |mem| && j < |mem| && k < 8
    ensures var r, first, n := ApplyRam(mem, at, cs)[j], at + RamOffset(cs), |RamData(cs)|;
            && (j < first || first + n <= j ==> r == mem[j])
            && (first <= j < first + n ==>
                  var d, was := IsSet(RamData(cs)[j - first], k), IsSet(mem[j], k);
                  && (RamOperation(cs) == OP_WRITE ==> r == RamData(cs)[j - first])
                  && (RamOperation(cs) == OP_SET_BITS ==> (IsSet(r, k) <==> was || d))
                  && (RamOperation(cs) == OP_CLEAR_BITS ==> (IsSet(r, k) <==> was && !d)))
  {
    hide SetBits, ClearBits, IsSet, RamOffset, RamData, RamOperation;
    var first, n, op := at + RamOffset(cs), |RamData(cs)|, RamOperation(cs);
    if first <= j < first + n {
      SetBitsMeaning(mem[j], RamData(cs)[j - first], k);
      ClearBitsMeaning(mem[j], RamData(cs)[j - first], k);
      if op != 0 {
        BlendAt(mem, first, op, RamData(cs), j - first);
      }
    } else {
      PatchOutside(mem, first, op, RamData(cs), j);
    }
  }

  lemma PatchOutside(mem: seq<byte>, a: nat, op: nat, data: seq<byte>, j: nat)
    requires a + |data| <= |mem| && j < |mem| && (j < a || a + |data| <= j)
    ensures Patch(mem, a, op, data)[j] == mem[j]
  {
    hide Blend;
  }

  /** All RAM sections of an instance, in order: the last one applies to what the ones before it
      made of the memory. */
  lemma RamImageMeaning(mem: seq<byte>, at: nat, items: seq<Element>, e: Element, j: nat, k: nat)
    requires at + RamLength(items + [e]) <= |mem| && j < |mem| && k < 8
    ensures at + RamLength(items) <= |mem|
    ensures !IsRam(e) ==> RamImage(mem, at, items + [e])[j] == RamImage(mem, at, items)[j]
    ensures IsRam(e) ==>
              var was, r := RamImage(mem, at, items)[j], RamImage(mem, at, items + [e])[j];
              var first, data, op := at + RamOffset(e.children), RamData(e.children), RamOperation(e.children);
              if first <= j < first + |data| then
                && (op == OP_WRITE ==> r == data[j - first])
                && (op == OP_SET_BITS ==> (IsSet(r, k) <==> IsSet(was, k) || IsSet(data[j - first], k)))
                && (op == OP_CLEAR_BITS ==> (IsSet(r, k) <==> IsSet(was, k) && !IsSet(data[j - first], k)))
              else r == was
  {
    hide IsSet, ApplyRam, RamOffset, RamData, RamOperation, RamImage, RamLength;
    RamMore(items, e, mem, at);
    if IsRam(e) {
      RamSectionMeaning(RamImage(mem, at, items), at, e.children, j, k);
    }
  }
}
