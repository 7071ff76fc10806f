/** sendf of kernel/capifunc.c: a CAPI message is built from a format.  The stack of open
    structures is kept in the message itself: until a structure is closed, its length byte holds
    the distance to the length byte of the structure around it. */
module CapiMessage {
  import opened Machine

  /** A format character with its argument. */
  datatype Item = Byte(v: nat) | Word(v: nat) | Dword(v: nat) | Str(s: seq<byte>) | Open | Close | Other

  const HEADER := 12
  const MESSAGE := 212 // sizeof(CAPI_MSG)

  /** The bytes of an item that is no bracket. */
  function Scalar(i: Item): seq<byte> {
    match i
    case Byte(v) => [v % 0x100]
    case Word(v) => [v % 0x100, v / 0x100 % 0x100]
    case Dword(v) => DwordBytes(v % 0x1_0000_0000)
    case Str(s) => [|s| % 0x100] + s
    case _ => []
  }

  /** Bytes an item adds to the message. */
  function Size(i: Item): nat {
    if i.Open? then 1 else |Scalar(i)|
  }

  function Length(items: seq<Item>): nat {
    if items == [] then 0 else Length(items[..|items| - 1]) + Size(items[|items| - 1])
  }

  /** Open brackets at the end; None when a bracket is closed that is not open. */
  function Depth(items: seq<Item>): Option<nat> {
    if items == [] then Some(0)
    else
      var d := Depth(items[..|items| - 1]);
      match items[|items| - 1]
      case Open => if d.Some? then Some(d.value + 1) else None
      case Close => if d.Some? && d.value > 0 then Some(d.value - 1) else None
      case _ => d
  }

  predicate Balanced(items: seq<Item>) {
    Depth(items) == Some(0)
  }

  // ------------------------------------------------- the meaning of a format

  /** What a balanced format describes. */
  datatype Tree = Leaf(item: Item) | Struct(children: seq<Tree>)

  function Format(ts: seq<Tree>): seq<Item> {
    if ts == [] then [] else FormatOf(ts[0]) + Format(ts[1..])
  }

  function FormatOf(t: Tree): seq<Item> {
    match t
    case Leaf(i) => [i]
    case Struct(cs) => [Open] + Format(cs) + [Close]
  }

  /** A structure is its contents, behind a byte with their length. */
  function Bytes(ts: seq<Tree>): seq<byte> {
    if ts == [] then [] else BytesOf(ts[0]) + Bytes(ts[1..])
  }

  function BytesOf(t: Tree): seq<byte> {
    match t
    case Leaf(i) => Scalar(i)
    case Struct(cs) => [|Bytes(cs)| % 0x100] + Bytes(cs)
  }

  ghost predicate Proper(ts: seq<Tree>) {
    forall t :: t in ts ==> ProperTree(t)
  }

  ghost predicate ProperTree(t: Tree) {
    match t
    case Leaf(i) => !i.Open? && !i.Close?
    case Struct(cs) => forall c :: c in cs ==> ProperTree(c)
  }

  /** Trees read so far: one list for every open bracket, and the outermost. */
  function Parse(items: seq<Item>): (r: Option<seq<seq<Tree>>>)
    ensures r.Some? <==> Depth(items).Some?
    ensures r.Some? ==> |r.value| == Depth(items).value + 1
  {
    if items == [] then Some([[]])
    else
      var p := Parse(items[..|items| - 1]);
      if p.None? then None else ParseStep(p.value, items[|items| - 1])
  }

  function ParseStep(p: seq<seq<Tree>>, i: Item): (r: Option<seq<seq<Tree>>>)
    requires p != []
    ensures r.None? <==> i.Close? && |p| == 1
    ensures r.Some? ==> |r.value| == if i.Open? then |p| + 1 else if i.Close? then |p| - 1 else |p|
  {
    var n := |p| - 1;
    match i
    case Open => Some(p + [[]])
    case Close => if n == 0 then None else Some(p[..n - 1] + [p[n - 1] + [Struct(p[n])]])
    case _ => Some(p[..n] + [p[n] + [Leaf(i)]])
  }

  /** The format of trees read so far. */
  function PartialFormat(p: seq<seq<Tree>>): seq<Item>
    requires p != []
  {
    if |p| == 1 then Format(p[0]) else PartialFormat(p[..|p| - 1]) + [Open] + Format(p[|p| - 1])
  }

  lemma {:induction false} FormatAppend(ts: seq<Tree>, us: seq<Tree>)
    ensures Format(ts + us) == Format(ts) + Format(us)
    ensures Bytes(ts + us) == Bytes(ts) + Bytes(us)
  {
    if ts == [] {
      assert ts + us == us;
    } else {
      hide FormatOf, BytesOf;
      var vs := ts + us;
      FormatAppend(ts[1..], us);
      assert vs[0] == ts[0] && vs[1..] == ts[1..] + us;
      FormatFirst(vs);
      FormatFirst(ts);
      hide Format, Bytes;
      Associative(FormatOf(ts[0]), Format(ts[1..]), Format(us));
      Associative(BytesOf(ts[0]), Bytes(ts[1..]), Bytes(us));
    }
  }

  lemma FormatFirst(ts: seq<Tree>)
    requires ts != []
    ensures Format(ts) == FormatOf(ts[0]) + Format(ts[1..]) && Bytes(ts) == BytesOf(ts[0]) + Bytes(ts[1..])
  {
  }

  lemma FormatOne(t: Tree)
    ensures Format([t]) == FormatOf(t) && Bytes([t]) == BytesOf(t)
  {
    assert [t][1..] == [];
  }

  lemma LastGrows(p: seq<seq<Tree>>, t: Tree)
    requires p != []
    ensures PartialFormat(p[..|p| - 1] + [p[|p| - 1] + [t]]) == PartialFormat(p) + FormatOf(t)
  {
    hide Format, FormatOf;
    var n := |p| - 1;
    FormatAppend(p[n], [t]);
    FormatOne(t);
    var q := p[..n] + [p[n] + [t]];
    assert q[..n] == p[..n] && q[n] == p[n] + [t];
    if n > 0 {
      Associative(PartialFormat(p[..n]) + [Open], Format(p[n]), FormatOf(t));
    }
  }

  lemma Associative<T>(a: seq<T>, b: seq<T>, c: seq<T>)
    ensures a + b + c == a + (b + c)
  {
  }

  lemma CloseFormat(p: seq<seq<Tree>>)
    requires |p| > 1
    ensures var n := |p| - 1;
            PartialFormat(p[..n - 1] + [p[n - 1] + [Struct(p[n])]]) == PartialFormat(p) + [Close]
  {
    var n := |p| - 1;
    LastGrows(p[..n], Struct(p[n]));
    assert p[..n][..n - 1] == p[..n - 1];
    hide Format;
    Associative(PartialFormat(p[..n]), [Open] + Format(p[n]), [Close]);
    Associative(PartialFormat(p[..n]), [Open], Format(p[n]));
  }

  lemma OpenFormat(p: seq<seq<Tree>>)
    requires p != []
    ensures PartialFormat(p + [[]]) == PartialFormat(p) + [Open]
  {
    var q := p + [[]];
    assert q[..|p|] == p && q[|p|] == [];
    assert PartialFormat(q) == PartialFormat(p) + [Open] + [];
  }

  /** One item read is one item written. */
  lemma StepFormat(p: seq<seq<Tree>>, i: Item)
    requires p != [] && ParseStep(p, i).Some?
    ensures PartialFormat(ParseStep(p, i).value) == PartialFormat(p) + [i]
  {
    hide PartialFormat;
    match i
    case Open => OpenFormat(p);
    case Close => CloseFormat(p);
    case _ =>
      LastGrows(p, Leaf(i));
  }

  /** Reading a format and writing it again gives the format. */
  lemma {:induction false} ParseIsRight(items: seq<Item>)
    requires Depth(items).Some?
    ensures PartialFormat(Parse(items).value) == items
    ensures forall k :: 0 <= k <= Depth(items).value ==> Proper(Parse(items).value[k])
  {
    hide PartialFormat;
    if items == [] {
      assert PartialFormat([[]]) == [] by {
        assert Format([]) == [];
        OnePart([]);
      }
    } else {
      var before, i := items[..|items| - 1], items[|items| - 1];
      ParseIsRight(before);
      StepFormat(Parse(before).value, i);
      StepProper(Parse(before).value, i);
      assert items == before + [i];
    }
  }

  lemma OnePart(ts: seq<Tree>)
    ensures PartialFormat([ts]) == Format(ts)
  {
  }

  lemma StepProper(p: seq<seq<Tree>>, i: Item)
    requires p != [] && ParseStep(p, i).Some? && forall k :: 0 <= k < |p| ==> Proper(p[k])
    ensures var q := ParseStep(p, i).value; forall k :: 0 <= k < |q| ==> Proper(q[k])
  {
  }

  /** Every balanced format is the format of the trees read from it. */
  lemma BalancedIsFormat(items: seq<Item>)
    requires Balanced(items)
    ensures Proper(Parse(items).value[0]) && Format(Parse(items).value[0]) == items
  {
    ParseIsRight(items);
    OnePart(Parse(items).value[0]);
    assert Parse(items).value == [Parse(items).value[0]];
  }

  /** More trees in the innermost list. */
  function Extended(p: seq<seq<Tree>>, ts: seq<Tree>): (q: seq<seq<Tree>>)
    requires p != []
    ensures |q| == |p|
  {
    p[..|p| - 1] + [p[|p| - 1] + ts]
  }

  lemma ExtendedTwice(p: seq<seq<Tree>>, t: Tree, ts: seq<Tree>)
    requires p != []
    ensures Extended(p, []) == p && Extended(Extended(p, [t]), ts) == Extended(p, [t] + ts)
  {
    var n := |p| - 1;
    assert p[n] + [] == p[n];
    Associative(p[n], [t], ts);
  }

  lemma ParseMore(items: seq<Item>, i: Item)
    requires Parse(items).Some?
    ensures Parse(items + [i]) == ParseStep(Parse(items).value, i)
  {
    assert (items + [i])[..|items|] == items;
  }

  lemma CloseExtended(p: seq<seq<Tree>>, cs: seq<Tree>)
    requires p != []
    ensures ParseStep(Extended(p + [[]], cs), Close) == Some(Extended(p, [Struct(cs)]))
  {
    var n := |p| - 1;
    var q := Extended(p + [[]], cs);
    assert (p + [[]])[..n + 1] == p && (p + [[]])[n + 1] == [] && [] + cs == cs;
    assert q[n + 1] == cs && q[n] == p[n] && q[..n] == p[..n];
  }

  /** The format of trees, after other items, is read as these trees. */
  lemma {:induction false} ParseOfFormat(items: seq<Item>, ts: seq<Tree>)
    requires Parse(items).Some? && Proper(ts)
    ensures Parse(items + Format(ts)) == Some(Extended(Parse(items).value, ts))
    decreases ts
  {
    hide Parse, Extended, FormatOf, ProperTree;
    var p := Parse(items).value;
    if ts == [] {
      assert items + Format(ts) == items;
      ExtendedTwice(p, Leaf(Other), []);
    } else {
      assert ts[0] in ts;
      ParseOfTree(items, ts[0]);
      FormatFirst(ts);
      Associative(items, FormatOf(ts[0]), Format(ts[1..]));
      ParseOfFormat(items + FormatOf(ts[0]), ts[1..]);
      ExtendedTwice(p, ts[0], ts[1..]);
      assert [ts[0]] + ts[1..] == ts;
    }
  }

  lemma {:induction false} ParseOfTree(items: seq<Item>, t: Tree)
    requires Parse(items).Some? && ProperTree(t)
    ensures Parse(items + FormatOf(t)) == Some(Extended(Parse(items).value, [t]))
    decreases t
  {
    hide Parse, Format;
    var p := Parse(items).value;
    match t
    case Leaf(i) =>
      ParseMore(items, i);
    case Struct(cs) =>
      ParseMore(items, Open);
      ParseOfFormat(items + [Open], cs);
      ParseMore(items + [Open] + Format(cs), Close);
      CloseExtended(p, cs);
      Associative(items, [Open], Format(cs));
      Associative(items, [Open] + Format(cs), [Close]);
  }

  /** The formats of trees are exactly the balanced ones, and a format has one reading. */
  lemma BalancedIffFormat(items: seq<Item>)
    ensures Balanced(items) <==> exists ts :: Proper(ts) && Format(ts) == items
    ensures forall ts :: Proper(ts) && Format(ts) == items ==> Parse(items) == Some([ts])
  {
    if Balanced(items) {
      BalancedIsFormat(items);
    }
    forall ts | Proper(ts) && Format(ts) == items ensures Parse(items) == Some([ts]) {
      ParseOfFormat([], ts);
      assert [] + items == items && [] + ts == ts;
      assert Extended([[]], ts) == [ts];
    }
  }

  // -------------------------------------------------------- building it in one run

  /** Contents of the message, and of every structure that is open. */
  function Frames(items: seq<Item>): (r: Option<seq<seq<byte>>>)
    ensures r.Some? <==> Depth(items).Some?
    ensures r.Some? ==> |r.value| == Depth(items).value + 1
  {
    if items == [] then Some([[]])
    else
      var f := Frames(items[..|items| - 1]);
      if f.None? then None else Step(f.value, items[|items| - 1])
  }

  function Step(f: seq<seq<byte>>, i: Item): (r: Option<seq<seq<byte>>>)
    requires f != []
    ensures r.None? <==> i.Close? && |f| == 1
    ensures r.Some? ==> |r.value| == if i.Open? then |f| + 1 else if i.Close? then |f| - 1 else |f|
  {
    var n := |f| - 1;
    match i
    case Open => Some(f + [[]])
    case Close => if n == 0 then None else Some(f[..n - 1] + [f[n - 1] + [|f[n]| % 0x100] + f[n]])
    case _ => Some(f[..n] + [f[n] + Scalar(i)])
  }

  /** The contents are those of the trees. */
  lemma {:induction false} FramesAreTrees(items: seq<Item>)
    requires Depth(items).Some?
    ensures forall k :: 0 <= k <= Depth(items).value ==> Frames(items).value[k] == Bytes(Parse(items).value[k])
  {
    if items != [] {
      var before, i := items[..|items| - 1], items[|items| - 1];
      FramesAreTrees(before);
      var p := Parse(before).value;
      var n := |p| - 1;
      match i
      case Open =>
      case Close =>
        FormatAppend(p[n - 1], [Struct(p[n])]);
        FormatOne(Struct(p[n]));
      case _ =>
        FormatAppend(p[n], [Leaf(i)]);
        FormatOne(Leaf(i));
    }
  }
}
