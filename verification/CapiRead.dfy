/** Reading a CAPI message back: what the receiver of a message built by sendf of kernel/capifunc.c
    finds in it, by place, from the letters of the format alone. */
module CapiRead {
  import opened Machine
  import opened CapiMessage
  import opened CapiSendf

  /** A format character: b, w, d, s, the brackets, and those that stand for nothing. */
  datatype Letter = LetterB | LetterW | LetterD | LetterS | LetterOpen | LetterClose | LetterOther

  function LetterOf(i: Item): Letter {
    match i
    case Byte(_) => LetterB
    case Word(_) => LetterW
    case Dword(_) => LetterD
    case Str(_) => LetterS
    case Open => LetterOpen
    case Close => LetterClose
    case Other => LetterOther
  }

  function Letters(items: seq<Item>): (ls: seq<Letter>)
    ensures |ls| == |items|
  {
    seq(|items|, k requires 0 <= k < |items| => LetterOf(items[k]))
  }

  /** An argument, as the receiver gets it. */
  datatype Value = Number(n: nat) | Text(s: seq<byte>)

  /** The arguments of a format, cut to the width of their letters. */
  function Values(items: seq<Item>): seq<Value> {
    if items == [] then [] else ValueOf(items[0]) + Values(items[1..])
  }

  function ValueOf(i: Item): seq<Value> {
    match i
    case Byte(v) => [Number(v % 0x100)]
    case Word(v) => [Number(v % 0x1_0000)]
    case Dword(v) => [Number(v % 0x1_0000_0000)]
    case Str(s) => [Text(s)]
    case _ => []
  }

  function Before(vs: seq<Value>, r: Option<seq<Value>>): Option<seq<Value>> {
    if r.None? then None else Some(vs + r.value)
  }

  /** The values from place p on; ends are where the open structures end by their length bytes.  A
      structure must be left exactly there, and the message at its end. */
  function Read(ls: seq<Letter>, m: seq<byte>, p: nat, ends: seq<nat>): Option<seq<Value>>
    decreases |ls|
  {
    if ls == [] then if p == |m| && ends == [] then Some([]) else None
    else
      var rest := ls[1..];
      match ls[0]
      case LetterB => if p + 1 > |m| then None else Before([Number(m[p])], Read(rest, m, p + 1, ends))
      case LetterW =>
        if p + 2 > |m| then None
        else Before([Number(m[p] + 0x100 * (m[p + 1] as nat))], Read(rest, m, p + 2, ends))
      case LetterD =>
        if p + 4 > |m| then None
        else
          var (b0: nat, b1: nat, b2: nat, b3: nat) := (m[p], m[p + 1], m[p + 2], m[p + 3]);
          Before([Number(b0 + 0x100 * b1 + 0x1_0000 * b2 + 0x100_0000 * b3)], Read(rest, m, p + 4, ends))
      case LetterS =>
        if p + 1 > |m| || p + 1 + m[p] > |m| then None
        else
          var q: nat := p + 1 + m[p];
          Before([Text(m[p + 1..q])], Read(rest, m, q, ends))
      case LetterOpen => if p + 1 > |m| then None else Read(rest, m, p + 1, ends + [p + 1 + m[p]])
      case LetterClose =>
        if ends == [] || ends[|ends| - 1] != p then None else Read(rest, m, p, ends[..|ends| - 1])
      case LetterOther => Read(rest, m, p, ends)
  }

  /** Strings and contents of structures have lengths of a byte. */
  predicate Small(ts: seq<Tree>) {
    ts == [] || (SmallTree(ts[0]) && Small(ts[1..]))
  }

  predicate SmallTree(t: Tree) {
    match t
    case Leaf(i) => i.Str? ==> |i.s| < 0x100
    case Struct(cs) => |Bytes(cs)| < 0x100 && Small(cs)
  }

  lemma {:induction false} ShortIsSmall(ts: seq<Tree>)
    requires |Bytes(ts)| < 0x100
    ensures Small(ts)
    decreases ts
  {
    if ts != [] {
      FormatFirst(ts);
      match ts[0]
      case Leaf(_) =>
        ShortIsSmall(ts[1..]);
      case Struct(cs) =>
        ShortIsSmall(cs);
        ShortIsSmall(ts[1..]);
    }
  }

  ghost predicate Lies(m: seq<byte>, p: nat, b: seq<byte>) {
    p + |b| <= |m| && m[p..p + |b|] == b
  }

  lemma LiesParts(m: seq<byte>, p: nat, a: seq<byte>, b: seq<byte>)
    requires Lies(m, p, a + b)
    ensures Lies(m, p, a) && Lies(m, p + |a|, b)
  {
    assert a == m[p..p + |a + b|][..|a|] && b == m[p..p + |a + b|][|a|..];
  }

  lemma LettersJoin(a: seq<Item>, b: seq<Item>)
    ensures Letters(a + b) == Letters(a) + Letters(b)
  {
  }

  lemma {:induction false} ValuesJoin(a: seq<Item>, b: seq<Item>)
    ensures Values(a + b) == Values(a) + Values(b)
  {
    hide ValueOf, Values;
    var c := a + b;
    NoValues();
    if a == [] {
      assert c == b && [] + Values(b) == Values(b);
    } else {
      ValuesJoin(a[1..], b);
      assert c[0] == a[0] && c[1..] == a[1..] + b;
      ValuesFirst(a);
      ValuesFirst(c);
      Associative(ValueOf(a[0]), Values(a[1..]), Values(b));
    }
  }

  lemma NoValues()
    ensures Values([]) == []
  {
  }

  lemma ValuesFirst(a: seq<Item>)
    requires a != []
    ensures Values(a) == ValueOf(a[0]) + Values(a[1..])
  {
  }

  lemma BeforeBoth(a: seq<Value>, b: seq<Value>, r: Option<seq<Value>>)
    ensures Before(a, Before(b, r)) == Before(a + b, r) && Before([], r) == r
  {
    if r.Some? {
      assert a + (b + r.value) == a + b + r.value && [] + r.value == r.value;
    }
  }

  lemma ReadOne(l: Letter, rest: seq<Letter>, m: seq<byte>, p: nat, ends: seq<nat>)
    ensures l == LetterOther ==> Read([l] + rest, m, p, ends) == Read(rest, m, p, ends)
    ensures l == LetterB && p + 1 <= |m| ==>
              Read([l] + rest, m, p, ends) == Before([Number(m[p])], Read(rest, m, p + 1, ends))
    ensures l == LetterW && p + 2 <= |m| ==>
              Read([l] + rest, m, p, ends) == Before([Number(m[p] + 0x100 * (m[p + 1] as nat))], Read(rest, m, p + 2, ends))
  {
    assert ([l] + rest)[1..] == rest;
  }

  lemma ReadDword(rest: seq<Letter>, m: seq<byte>, p: nat, ends: seq<nat>, v: dword)
    requires Lies(m, p, DwordBytes(v))
    ensures Read([LetterD] + rest, m, p, ends) == Before([Number(v)], Read(rest, m, p + 4, ends))
  {
    assert ([LetterD] + rest)[1..] == rest;
    var b := DwordBytes(v);
    assert m[p..p + 4] == b;
    assert b[0] == m[p] && b[1] == m[p + 1] && b[2] == m[p + 2] && b[3] == m[p + 3];
    DwordPlaces(v);
    hide DwordBytes;
  }

  lemma ReadString(rest: seq<Letter>, m: seq<byte>, p: nat, ends: seq<nat>)
    requires p < |m| && p + 1 + m[p] <= |m|
    ensures var q: nat := p + 1 + m[p];
            Read([LetterS] + rest, m, p, ends) == Before([Text(m[p + 1..q])], Read(rest, m, q, ends))
  {
    assert ([LetterS] + rest)[1..] == rest;
  }

  lemma ReadText(rest: seq<Letter>, m: seq<byte>, p: nat, ends: seq<nat>, s: seq<byte>)
    requires |s| < 0x100 && Lies(m, p, [|s| as byte] + s)
    ensures Read([LetterS] + rest, m, p, ends) == Before([Text(s)], Read(rest, m, p + 1 + |s|, ends))
  {
    hide Read;
    LiesParts(m, p, [|s| as byte], s);
    assert m[p] == m[p..p + 1][0];
    ReadString(rest, m, p, ends);
  }

  lemma ReadWord(rest: seq<Letter>, m: seq<byte>, p: nat, ends: seq<nat>, x: byte, y: byte)
    requires Lies(m, p, [x, y])
    ensures Read([LetterW] + rest, m, p, ends) == Before([Number(x + 0x100 * (y as nat))], Read(rest, m, p + 2, ends))
  {
    hide Read;
    ReadOne(LetterW, rest, m, p, ends);
    assert m[p] == m[p..p + 2][0] && m[p + 1] == m[p..p + 2][1];
  }

  lemma ReadScalar(i: Item, rest: seq<Letter>, m: seq<byte>, p: nat, ends: seq<nat>)
    requires !i.Open? && !i.Close? && (i.Str? ==> |i.s| < 0x100) && Lies(m, p, Scalar(i))
    ensures Read([LetterOf(i)] + rest, m, p, ends) == Before(ValueOf(i), Read(rest, m, p + |Scalar(i)|, ends))
  {
    hide Read, DwordBytes, Before;
    match i
    case Str(s) =>
      ReadText(rest, m, p, ends, s);
    case Dword(v) =>
      ReadDword(rest, m, p, ends, v % 0x1_0000_0000);
    case Word(v) =>
      ReadWord(rest, m, p, ends, v % 0x100, v / 0x100 % 0x100);
      WordPlaces(v);
    case Byte(v) =>
      ReadOne(LetterB, rest, m, p, ends);
      assert m[p] == m[p..p + 1][0];
    case Other =>
      ReadOne(LetterOther, rest, m, p, ends);
      BeforeBoth([], [], Read(rest, m, p, ends));
  }

  lemma WordPlaces(v: nat)
    ensures v % 0x100 + 0x100 * (v / 0x100 % 0x100) == v % 0x1_0000
  {
    var q, r := v / 0x100, v % 0x100;
    var k, l := q / 0x100, q % 0x100;
    assert v == 0x1_0000 * k + (0x100 * l + r);
  }

  lemma DwordPlaces(v: dword)
    ensures var b := DwordBytes(v);
            b[0] as nat + 0x100 * (b[1] as nat) + 0x1_0000 * (b[2] as nat) + 0x100_0000 * (b[3] as nat) == v
  {
  }

  /** The letters of trees read exactly their bytes, and give their arguments. */
  lemma {:induction false} ReadTrees(ts: seq<Tree>, rest: seq<Letter>, m: seq<byte>, p: nat, ends: seq<nat>)
    requires Proper(ts) && Small(ts) && Lies(m, p, Bytes(ts))
    ensures Read(Letters(Format(ts)) + rest, m, p, ends)
            == Before(Values(Format(ts)), Read(rest, m, p + |Bytes(ts)|, ends))
    decreases ts
  {
    hide Read, Letters, Values, Before, FormatOf, BytesOf, SmallTree, ProperTree;
    NoValues();
    if ts == [] {
      NoLetters(rest);
      BeforeBoth([], [], Read(rest, m, p, ends));
    } else {
      FormatFirst(ts);
      var t, us := ts[0], ts[1..];
      LiesParts(m, p, BytesOf(t), Bytes(us));
      LettersJoin(FormatOf(t), Format(us));
      Associative(Letters(FormatOf(t)), Letters(Format(us)), rest);
      assert t in ts;
      ReadTree(t, Letters(Format(us)) + rest, m, p, ends);
      ReadTrees(us, rest, m, p + |BytesOf(t)|, ends);
      ValuesJoin(FormatOf(t), Format(us));
      BeforeBoth(Values(FormatOf(t)), Values(Format(us)), Read(rest, m, p + |Bytes(ts)|, ends));
    }
  }

  lemma NoLetters(rest: seq<Letter>)
    ensures Letters([]) + rest == rest
  {
  }

  lemma {:induction false} ReadTree(t: Tree, rest: seq<Letter>, m: seq<byte>, p: nat, ends: seq<nat>)
    requires ProperTree(t) && SmallTree(t) && Lies(m, p, BytesOf(t))
    ensures Read(Letters(FormatOf(t)) + rest, m, p, ends)
            == Before(Values(FormatOf(t)), Read(rest, m, p + |BytesOf(t)|, ends))
    decreases t
  {
    hide Read, Values, Letters, Format, Bytes;
    match t
    case Leaf(i) =>
      ReadScalar(i, rest, m, p, ends);
      OneItem(i);
    case Struct(cs) =>
      var tail := [LetterClose] + rest;
      var inner := ends + [p + 1 + |Bytes(cs)|];
      StructLetters(cs, rest);
      LiesParts(m, p, [|Bytes(cs)| % 0x100], Bytes(cs));
      ReadOpen(Letters(Format(cs)) + tail, m, p, ends);
      assert m[p] == m[p..p + 1][0];
      ReadTrees(cs, tail, m, p + 1, inner);
      ReadClose(rest, m, p + 1 + |Bytes(cs)|, inner);
      assert inner[..|inner| - 1] == ends;
  }

  lemma OneItem(i: Item)
    ensures Values([i]) == ValueOf(i) && Letters([i]) == [LetterOf(i)]
  {
    assert [i][1..] == [];
    assert ValueOf(i) + [] == ValueOf(i);
  }

  lemma StructLetters(cs: seq<Tree>, rest: seq<Letter>)
    ensures Letters(FormatOf(Struct(cs))) + rest == [LetterOpen] + (Letters(Format(cs)) + ([LetterClose] + rest))
    ensures Values(FormatOf(Struct(cs))) == Values(Format(cs))
  {
    hide Letters, Values, Format;
    var f := Format(cs);
    LettersJoin([Open] + f, [Close]);
    LettersJoin([Open], f);
    ValuesJoin([Open] + f, [Close]);
    ValuesJoin([Open], f);
    OneItem(Open);
    OneItem(Close);
    assert [] + Values(f) + [] == Values(f);
    Associative([LetterOpen] + Letters(f), [LetterClose], rest);
    Associative([LetterOpen], Letters(f), [LetterClose] + rest);
  }

  lemma ReadOpen(ls: seq<Letter>, m: seq<byte>, p: nat, ends: seq<nat>)
    requires p < |m|
    ensures Read([LetterOpen] + ls, m, p, ends) == Read(ls, m, p + 1, ends + [p + 1 + m[p]])
  {
    assert ([LetterOpen] + ls)[1..] == ls;
  }

  lemma ReadClose(ls: seq<Letter>, m: seq<byte>, p: nat, ends: seq<nat>)
    requires ends != [] && ends[|ends| - 1] == p
    ensures Read([LetterClose] + ls, m, p, ends) == Read(ls, m, p, ends[..|ends| - 1])
  {
    assert ([LetterClose] + ls)[1..] == ls;
  }

  /** The receiver of a message gets every argument of every balanced format, and the length bytes
      of strings and structures lead it through the message to its end. */
  lemma MessageIsRead(items: seq<Item>)
    requires Balanced(items) && HEADER + Length(items) <= MESSAGE
    ensures Read(Letters(items), Bytes(Parse(items).value[0]), 0, []) == Some(Values(items))
  {
    hide Read, Length, Parse, Frames, Values, Join, Bytes;
    var ts := Parse(items).value[0];
    BalancedIsFormat(items);
    JoinLength(items);
    FramesAreTrees(items);
    JoinOne(Frames(items).value);
    ShortIsSmall(ts);
    var m := Bytes(ts);
    assert m[0..|m|] == m;
    ReadTrees(ts, [], m, 0, []);
    assert Letters(items) + [] == Letters(items);
    ReadEnd(m);
    assert Values(items) + [] == Values(items);
  }

  lemma JoinOne(f: seq<seq<byte>>)
    requires |f| == 1
    ensures Join(f) == f[0]
  {
  }

  lemma ReadEnd(m: seq<byte>)
    ensures Read([], m, |m|, []) == Some([])
  {
  }

  /** The header, by place: lengths and numbers are little-endian. */
  lemma HeaderIsRead(length: word, applId: word, command: word, number: word, id: dword)
    ensures var h := Header(length, applId, command, number, id);
            && h[0] as nat + 0x100 * (h[1] as nat) == length && h[2] as nat + 0x100 * (h[3] as nat) == applId
            && h[4] as nat + 0x100 * (h[5] as nat) == command && h[6] as nat + 0x100 * (h[7] as nat) == number
            && h[8] as nat + 0x100 * (h[9] as nat) + 0x1_0000 * (h[10] as nat) + 0x100_0000 * (h[11] as nat) == id
  {
    DwordPlaces(id);
    hide DwordBytes;
  }
}
