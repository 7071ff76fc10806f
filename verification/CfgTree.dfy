/** The configuration tree of kernel/diva_cfg_lib.c and its binary form: numbers, byte
    strings, and sections (TLIE) that hold further elements. */
module CfgTree {
  import opened Machine
  import opened CfgVle

  // element identifiers, kernel/cfg_types.h
  const TLIE: byte := 1
  const VIE_INSTANCE2: byte := 4
  const PCINIT_NAME: byte := 5
  const PCINIT_VALUE: byte := 6
  const RAM_OFFSET: byte := 7
  const RAM_OPERATION: byte := 8
  const RAM_VALUE: byte := 9
  const IMAGE_TYPE: byte := 10
  const NAMED_VAR: byte := 14
  const BINDING_DIRECTION: byte := 17
  const PARAMETER_LINE: byte := 34
  const VIE_LAST := 35

  /** Identifiers whose attribute table entry skips a number. */
  predicate IsNumberId(id: int) {
    id in {2, 3, 5, 7, 8, 10, 17, 18, 32, 34}
  }

  /** Identifiers whose attribute table entry skips a byte string. */
  predicate IsDataId(id: int) {
    1 < id < VIE_LAST && !IsNumberId(id)
  }

  datatype Element =
    | Number(id: byte, value: dword)
    | Data(id: byte, data: seq<byte>)
    | Section(children: seq<Element>)
  {
    function Id(): byte {
      if Section? then TLIE else id
    }

    ghost predicate WellFormed() {
      match this
      case Number(id, _) => IsNumberId(id)
      case Data(id, _) => IsDataId(id)
      case Section(children) => forall c :: c in children ==> c.WellFormed()
    }
  }

  function Encode(e: Element): (b: seq<byte>)
    ensures |b| >= 2
    decreases e, 1
  {
    match e
    case Number(id, v) => Vle(id) + Vle(v)
    case Data(id, d) => Vle(id) + Vle(|d|) + d
    case Section(cs) => Vle(TLIE) + Vle(|EncodeAll(cs)|) + EncodeAll(cs)
  }

  function EncodeAll(es: seq<Element>): seq<byte>
    decreases es, 0
  {
    if es == [] then [] else Encode(es[0]) + EncodeAll(es[1..])
  }

  const DWORDS := 0x1_0000_0000

  /** A tree whose encoding has 32-bit lengths. */
  ghost predicate Storable(e: Element) {
    e.WellFormed() && |Encode(e)| < DWORDS
  }

  /** The bytes b lie in src at p. */
  ghost predicate At(src: seq<byte>, p: nat, b: seq<byte>) {
    p + |b| <= |src| && src[p..p + |b|] == b
  }

  lemma AtPrefix(src: seq<byte>, p: nat, a: seq<byte>, b: seq<byte>)
    requires At(src, p, a + b)
    ensures At(src, p, a) && At(src, p + |a|, b)
  {
    assert a == src[p..p + |a + b|][..|a|] && b == src[p..p + |a + b|][|a|..];
  }

  lemma {:induction false} EncodeAllAppend(es: seq<Element>, fs: seq<Element>)
    ensures EncodeAll(es + fs) == EncodeAll(es) + EncodeAll(fs)
  {
    hide Encode, EncodeAll;
    if es == [] {
      EncodeNone();
      assert es + fs == fs && [] + EncodeAll(fs) == EncodeAll(fs);
    } else {
      var gs := es + fs;
      EncodeAllAppend(es[1..], fs);
      assert gs[0] == es[0] && gs[1..] == es[1..] + fs;
      EncodeFirst(gs);
      EncodeFirst(es);
      AssociateBytes(Encode(es[0]), EncodeAll(es[1..]), EncodeAll(fs));
    }
  }

  lemma AssociateBytes(a: seq<byte>, b: seq<byte>, c: seq<byte>)
    ensures a + b + c == a + (b + c)
  {
  }

  lemma EncodeNone()
    ensures EncodeAll([]) == []
  {
  }

  lemma EncodeFirst(es: seq<Element>)
    requires es != []
    ensures EncodeAll(es) == Encode(es[0]) + EncodeAll(es[1..])
  {
  }

  lemma OneElement(e: Element)
    ensures EncodeAll([e]) == Encode(e)
  {
    assert EncodeAll([e]) == Encode(e) + EncodeAll([e][1..]);
  }

  lemma EncodeAllSplit(es: seq<Element>, i: nat)
    requires i < |es|
    ensures EncodeAll(es) == EncodeAll(es[..i]) + (Encode(es[i]) + EncodeAll(es[i + 1..]))
    ensures EncodeAll(es[..i + 1]) == EncodeAll(es[..i]) + Encode(es[i])
  {
    hide Encode, EncodeAll;
    EncodeAllAppend(es[..i], es[i..]);
    assert es == es[..i] + es[i..] && es[i..][0] == es[i] && es[i..][1..] == es[i + 1..];
    EncodeFirst(es[i..]);
    EncodeAllAppend(es[..i], [es[i]]);
    assert es[..i + 1] == es[..i] + [es[i]];
    OneElement(es[i]);
  }

  /** Reading a number that lies at p. */
  lemma NumberAt(src: seq<byte>, p: nat, v: dword)
    requires At(src, p, Vle(v))
    ensures Ends(src, p, MAX_USED) && Used(src, p, MAX_USED) == |Vle(v)|
    ensures ValueAt(src, p, MAX_USED) % 0x1_0000_0000 == v
  {
    VleLength(v);
    VleRoundTrip(src, p, v, MAX_USED);
  }

  /** How the parts of an element at p lie. */
  lemma ElementAt(src: seq<byte>, p: nat, e: Element)
    requires At(src, p, Encode(e))
    ensures At(src, p, Vle(e.Id())) && |Vle(e.Id())| <= 2
    ensures e.Number? ==> At(src, p + |Vle(e.id)|, Vle(e.value))
    ensures e.Data? ==> At(src, p + |Vle(e.id)|, Vle(|e.data|)) && At(src, p + |Vle(e.id)| + |Vle(|e.data|)|, e.data)
    ensures e.Section? ==>
              var body := EncodeAll(e.children);
              At(src, p + 1, Vle(|body|)) && At(src, p + 1 + |Vle(|body|)|, body)
  {
    hide Vle, Encode, EncodeAll, At;
    VleLength(e.Id());
    VleLength(TLIE);
    EncodeParts(e);
    match e
    case Number(id, v) =>
      AtPrefix(src, p, Vle(id), Vle(v));
    case Data(id, d) =>
      AtPrefix(src, p, Vle(id) + Vle(|d|), d);
      AtPrefix(src, p, Vle(id), Vle(|d|));
    case Section(cs) =>
      var body := EncodeAll(cs);
      AtPrefix(src, p, Vle(TLIE) + Vle(|body|), body);
      AtPrefix(src, p, Vle(TLIE), Vle(|body|));
  }

  lemma EncodeParts(e: Element)
    ensures e.Number? ==> Encode(e) == Vle(e.id) + Vle(e.value)
    ensures e.Data? ==> Encode(e) == Vle(e.id) + Vle(|e.data|) + e.data
    ensures e.Section? ==> Encode(e) == Vle(TLIE) + Vle(|EncodeAll(e.children)|) + EncodeAll(e.children)
  {
  }

  /** Offset of child i of the section at p. */
  function ChildPos(p: nat, cs: seq<Element>, i: nat): nat
    requires i <= |cs|
  {
    p + 1 + |Vle(|EncodeAll(cs)|)| + |EncodeAll(cs[..i])|
  }

  lemma ChildAt(src: seq<byte>, p: nat, cs: seq<Element>, i: nat)
    requires At(src, p, Encode(Section(cs))) && i < |cs|
    ensures At(src, ChildPos(p, cs, i), Encode(cs[i]))
    ensures ChildPos(p, cs, i + 1) == ChildPos(p, cs, i) + |Encode(cs[i])|
    ensures |EncodeAll(cs[..i + 1])| <= |EncodeAll(cs)|
  {
    ElementAt(src, p, Section(cs));
    EncodeAllSplit(cs, i);
    var q := p + 1 + |Vle(|EncodeAll(cs)|)|;
    AtPrefix(src, q, EncodeAll(cs[..i]), Encode(cs[i]) + EncodeAll(cs[i + 1..]));
    AtPrefix(src, q + |EncodeAll(cs[..i])|, Encode(cs[i]), EncodeAll(cs[i + 1..]));
  }

  lemma ChildStorable(cs: seq<Element>, i: nat)
    requires Storable(Section(cs)) && i < |cs|
    ensures Storable(cs[i])
  {
    EncodeAllSplit(cs, i);
    assert cs[i] in cs;
  }

  /** The binary form determines the tree: no two well-formed elements share an encoding,
      and none is a prefix of another. */
  lemma {:induction false} EncodeInjective(e: Element, f: Element, s: seq<byte>, t: seq<byte>)
    requires e.WellFormed() && f.WellFormed() && Encode(e) + s == Encode(f) + t
    ensures e == f && s == t
    decreases e, 1
  {
    hide Vle, Encode, EncodeAll;
    var (er, fr) := (Rest(e), Rest(f));
    RestIs(e);
    RestIs(f);
    assert Vle(e.Id()) + (er + s) == Encode(e) + s && Vle(f.Id()) + (fr + t) == Encode(f) + t;
    VleInjective(e.Id(), f.Id(), er + s, fr + t);
    match e
    case Number(_, v) =>
      VleInjective(v, f.value, s, t);
    case Data(_, d) =>
      assert er + s == Vle(|d|) + (d + s) && fr + t == Vle(|f.data|) + (f.data + t);
      VleInjective(|d|, |f.data|, d + s, f.data + t);
      assert d == (d + s)[..|d|] && f.data == (f.data + t)[..|d|] && s == (d + s)[|d|..];
    case Section(cs) =>
      var b, c := EncodeAll(cs), EncodeAll(f.children);
      assert er + s == Vle(|b|) + (b + s) && fr + t == Vle(|c|) + (c + t);
      VleInjective(|b|, |c|, b + s, c + t);
      assert b == (b + s)[..|b|] && c == (c + t)[..|b|] && s == (b + s)[|b|..];
      EncodeAllInjective(cs, f.children);
  }

  lemma {:induction false} EncodeAllInjective(es: seq<Element>, fs: seq<Element>)
    requires (forall e :: e in es ==> e.WellFormed()) && (forall f :: f in fs ==> f.WellFormed())
    requires EncodeAll(es) == EncodeAll(fs)
    ensures es == fs
    decreases es, 0
  {
    if es != [] && fs != [] {
      EncodeInjective(es[0], fs[0], EncodeAll(es[1..]), EncodeAll(fs[1..]));
      EncodeAllInjective(es[1..], fs[1..]);
      assert es == [es[0]] + es[1..] && fs == [fs[0]] + fs[1..];
    }
  }

  /** An encoding after its identifier. */
  ghost function Rest(e: Element): seq<byte> {
    match e
    case Number(_, v) => Vle(v)
    case Data(_, d) => Vle(|d|) + d
    case Section(cs) => Vle(|EncodeAll(cs)|) + EncodeAll(cs)
  }

  lemma RestIs(e: Element)
    ensures Encode(e) == Vle(e.Id()) + Rest(e)
  {
  }
}
