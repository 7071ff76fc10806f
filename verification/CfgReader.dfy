/** The recursive reader of kernel/diva_cfg_lib.c: a configuration text becomes the binary
    form of its tree.  The text is a sequence of tokens: what to_next_tag, strtol and
    diva_cfg_find_tag_by_name step over at once is one token. */
module CfgReader {
  import opened Machine
  import opened CfgVle
  import opened CfgTree

  /** A field of a binary string holds the number as cast to a dword, or no digits at all. */
  datatype Token =
    | OpenTag(id: byte)
    | CloseTag(section: bool)
    | Hex(value: dword)
    | List(fields: seq<Option<dword>>)
    | Ascii(text: seq<byte>)

  /** What a configuration text says. */
  datatype Node =
    | Num(id: byte, value: dword)
    | Bin(id: byte, fields: seq<Option<dword>>)
    | Txt(id: byte, text: seq<byte>)
    | Sec(children: seq<Node>)

  // ------------------------------------------------------- binary strings

  function FieldValue(f: Option<dword>): dword {
    if f.Some? then f.value else 0
  }

  predicate BytesOnly(fs: seq<Option<dword>>) {
    forall f :: f in fs ==> FieldValue(f) < 0x100
  }

  function Values(fs: seq<Option<dword>>): (b: seq<byte>)
    requires BytesOnly(fs)
    ensures |b| == |fs|
  {
    seq(|fs|, i requires 0 <= i < |fs| => FieldValue(fs[i]) as byte)
  }

  /** An empty field before a comma is a zero byte; an empty last field is nothing. */
  function ListBytes(fs: seq<Option<dword>>): (b: seq<byte>)
    requires fs != [] && BytesOnly(fs)
    ensures |b| == ListLength(fs)
  {
    Values(if fs[|fs| - 1].Some? then fs else fs[..|fs| - 1])
  }

  function ListLength(fs: seq<Option<dword>>): nat
    requires fs != []
  {
    if fs[|fs| - 1].Some? then |fs| else |fs| - 1
  }

  /** A byte string token. */
  predicate IsString(t: Token) {
    match t
    case List(fs) => fs != [] && |fs| < DWORDS && BytesOnly(fs)
    case Ascii(s) => |s| < DWORDS
    case _ => false
  }

  function StringBytes(t: Token): (b: seq<byte>)
    requires IsString(t)
    ensures |b| < DWORDS
  {
    if t.List? then ListBytes(t.fields) else t.text
  }

  /** A binary string needs one byte more than it fills when its last field is empty. */
  function SpareOf(t: Token): nat
    requires IsString(t)
  {
    if t.List? && t.fields[|t.fields| - 1].None? then 1 else 0
  }

  function StringForm(t: Token): seq<byte>
    requires IsString(t)
  {
    Vle(|StringBytes(t)|) + StringBytes(t)
  }

  /** The bytes of a binary string: one for every field, and a missing number is a zero, but for the
      last field, which is a byte only if it has a number. */
  lemma ListMeaning(fs: seq<Option<dword>>, i: nat)
    requires IsString(List(fs)) && i < |fs|
    ensures var b := StringBytes(List(fs));
            && |b| == (if fs[|fs| - 1] == None then |fs| - 1 else |fs|)
            && (i < |b| ==> (fs[i] == None ==> b[i] == 0) && forall v :: fs[i] == Some(v) ==> b[i] == v)
  {
  }

  /** Two bytes are measured for the text "1," but two bytes of room are not enough. */
  lemma TrailingCommaNeedsAByte()
    ensures var t := List([Some(1), None]);
            IsString(t) && StringForm(t) == [1, 1] && |StringForm(t)| + SpareOf(t) == 3
  {
    var t := List([Some(1), None]);
    assert StringBytes(t) == [1];
    assert Vle(1) == [1];
  }

  // the first loop of diva_read_bs
  method CountFields(fs: seq<Option<dword>>) returns (n: Option<dword>)
    requires fs != [] && |fs| < DWORDS
    ensures n.Some? <==> BytesOnly(fs)
    ensures n.Some? ==> n.value == ListLength(fs)
  {
    var count := 0;
    for i := 0 to |fs|
      invariant BytesOnly(fs[..i]) && count == if i == |fs| then ListLength(fs) else i
    {
      assert fs[i] in fs;
      if FieldValue(fs[i]) > 0xff {
        return None;
      }
      assert forall f :: f in fs[..i + 1] <==> f in fs[..i] || f == fs[i];
      if i < |fs| - 1 || fs[i].Some? {
        count := count + 1;
      }
    }
    assert fs[..|fs|] == fs;
    return Some(count);
  }

  /** diva_read_bs: the number of bytes written, or None on an error.  A binary string whose
      last field is empty fails when it fills the space to the last byte. */
  method ReadBs(t: Token, dst: array?<byte>, at: nat, maxLength: nat) returns (written: Option<nat>)
    requires t.List? ==> t.fields != [] && |t.fields| < DWORDS
    requires t.Ascii? ==> |t.text| < DWORDS
    requires dst != null ==> at + maxLength <= dst.Length
    modifies dst
    ensures written.Some? <==> IsString(t) && (dst == null || |StringForm(t)| + SpareOf(t) <= maxLength)
    ensures written.Some? ==> written.value == |StringForm(t)|
    ensures written.Some? && dst != null ==> dst[..] == Overlay(old(dst[..]), at, StringForm(t))
  {
    if t.List? {
      var n := CountFields(t.fields);
      if n.None? {
        return None;
      }
      var m := DwordToVle(n.value, null, 0, 24);
      if dst == null {
        return Some(m + n.value);
      }
      written := WriteFields(t.fields, n.value, dst, at, maxLength);
    } else if t.Ascii? {
      var m := DwordToVle(|t.text|, null, 0, 24);
      if dst == null {
        return Some(m + |t.text|);
      }
      written := WriteText(t.text, dst, at, maxLength);
    } else {
      return None;
    }
  }

  // the second loop of diva_read_bs
  method WriteFields(fs: seq<Option<dword>>, n: dword, dst: array<byte>, at: nat, maxLength: nat)
    returns (r: Option<nat>)
    requires fs != [] && BytesOnly(fs) && n == ListLength(fs) && at + maxLength <= dst.Length
    modifies dst
    ensures r.Some? <==> |Vle(n)| + |fs| <= maxLength
    ensures r.Some? ==> r.value == |Vle(n)| + n && dst[..] == Overlay(old(dst[..]), at, Vle(n) + ListBytes(fs))
  {
    hide Overlay, Vle;
    ghost var b := dst[..];
    var written := DwordToVle(n, dst, at, maxLength);
    if written == 0 {
      return None;
    }
    ghost var done := 0;
    assert Values(fs[..0]) == [] && Vle(n) + [] == Vle(n);
    for i := 0 to |fs|
      invariant done == if i == |fs| then n else i
      invariant |Vle(n)| + i <= maxLength && written == |Vle(n)| + done
      invariant dst[..] == Overlay(b, at, Vle(n) + Values(fs[..done]))
    {
      if written >= maxLength {
        return None;
      }
      var value: dword := FieldValue(fs[i]);
      assert fs[i] in fs;
      if i < |fs| - 1 || fs[i].Some? {
        OverlayByte(b, at, Vle(n) + Values(fs[..i]), value);
        assert Vle(n) + Values(fs[..i]) + [value] == Vle(n) + Values(fs[..i + 1]);
        dst[at + written] := value;
        written := written + 1;
        done := done + 1;
      }
    }
    assert fs[..|fs|] == fs;
    return Some(written);
  }

  // the third loop of diva_read_bs
  method WriteText(s: seq<byte>, dst: array<byte>, at: nat, maxLength: nat) returns (r: Option<nat>)
    requires |s| < DWORDS && at + maxLength <= dst.Length
    modifies dst
    ensures r.Some? <==> |Vle(|s|)| + |s| <= maxLength
    ensures r.Some? ==> r.value == |Vle(|s|)| + |s| && dst[..] == Overlay(old(dst[..]), at, Vle(|s|) + s)
  {
    hide Overlay, Vle;
    ghost var b := dst[..];
    var written := DwordToVle(|s|, dst, at, maxLength);
    if written == 0 {
      return None;
    }
    assert s[..0] == [] && Vle(|s|) + [] == Vle(|s|);
    for i := 0 to |s|
      invariant written == |Vle(|s|)| + i <= maxLength
      invariant dst[..] == Overlay(b, at, Vle(|s|) + s[..i])
    {
      if written >= maxLength {
        return None;
      }
      OverlayByte(b, at, Vle(|s|) + s[..i], s[i]);
      assert Vle(|s|) + s[..i] + [s[i]] == Vle(|s|) + s[..i + 1];
      dst[at + written] := s[i];
      written := written + 1;
    }
    assert s[..|s|] == s;
    return Some(written);
  }

  // -------------------------------------------------- documents and their text

  function StringToken(n: Node): Token
    requires n.Bin? || n.Txt?
  {
    if n.Bin? then List(n.fields) else Ascii(n.text)
  }

  /** A text the reader accepts: known identifiers, byte strings of bytes, and no section
      without a child (the reader looks for a tag before it looks for the end). */
  ghost predicate Readable(n: Node) {
    match n
    case Num(id, _) => IsNumberId(id)
    case Bin(id, _) => IsDataId(id) && IsString(StringToken(n))
    case Txt(id, _) => IsDataId(id) && IsString(StringToken(n))
    case Sec(ns) => ns != [] && forall m :: m in ns ==> Readable(m)
  }

  ghost predicate AllReadable(ns: seq<Node>) {
    forall m :: m in ns ==> Readable(m)
  }

  function Tokens(n: Node): (ts: seq<Token>)
    ensures |ts| >= 2
    decreases n, 1
  {
    match n
    case Num(id, v) => [OpenTag(id), Hex(v), CloseTag(false)]
    case Bin(id, _) => [OpenTag(id), StringToken(n), CloseTag(false)]
    case Txt(id, _) => [OpenTag(id), StringToken(n), CloseTag(false)]
    case Sec(ns) => [OpenTag(TLIE)] + AllTokens(ns) + [CloseTag(true)]
  }

  function AllTokens(ns: seq<Node>): seq<Token>
    decreases ns, 0
  {
    if ns == [] then [] else Tokens(ns[0]) + AllTokens(ns[1..])
  }

  /** The tree a text stands for. */
  ghost function Meaning(n: Node): Element
    requires Readable(n)
    decreases n, 1
  {
    match n
    case Num(id, v) => Number(id, v)
    case Bin(id, _) => Data(id, StringBytes(StringToken(n)))
    case Txt(id, _) => Data(id, StringBytes(StringToken(n)))
    case Sec(ns) => Section(AllMeaning(ns))
  }

  ghost function AllMeaning(ns: seq<Node>): (es: seq<Element>)
    requires AllReadable(ns)
    ensures |es| == |ns|
    decreases ns, 0
  {
    if ns == [] then [] else [Meaning(ns[0])] + AllMeaning(ns[1..])
  }

  /** The binary form of a text. */
  ghost function Form(n: Node): (b: seq<byte>)
    requires Readable(n)
    ensures |b| >= 2
  {
    Encode(Meaning(n))
  }

  ghost function AllForms(ns: seq<Node>): seq<byte>
    requires AllReadable(ns)
  {
    EncodeAll(AllMeaning(ns))
  }

  /** The byte needed beyond the binary form: for an empty last field at the very end. */
  ghost function Spare(n: Node): (s: nat)
    requires Readable(n)
    ensures s <= 1
  {
    match n
    case Num(_, _) => 0
    case Bin(_, _) => SpareOf(StringToken(n))
    case Txt(_, _) => 0
    case Sec(ns) => Spare(ns[|ns| - 1])
  }

  ghost function SpareAfter(ns: seq<Node>): (s: nat)
    requires AllReadable(ns)
    ensures s <= 1
  {
    if ns == [] then 0 else Spare(ns[|ns| - 1])
  }

  ghost predicate AllLeaves(ns: seq<Node>) {
    forall m :: m in ns ==> !m.Sec?
  }

  /** Sections are nested at most twice. */
  ghost predicate Shallow(ns: seq<Node>) {
    forall m :: m in ns && m.Sec? ==> AllLeaves(m.children)
  }

  /** The first child that does not fit behind those before it. */
  ghost function FirstUnfit(ns: seq<Node>, room: int): Option<Node>
    requires AllReadable(ns)
  {
    if ns == [] then None
    else if |Form(ns[0])| + Spare(ns[0]) > room then Some(ns[0]) else FirstUnfit(ns[1..], room - |Form(ns[0])|)
  }

  ghost predicate Lies(src: seq<Token>, p: nat, ts: seq<Token>) {
    p + |ts| <= |src| && src[p..p + |ts|] == ts
  }

  lemma LiesPrefix(src: seq<Token>, p: nat, a: seq<Token>, b: seq<Token>)
    requires Lies(src, p, a + b)
    ensures Lies(src, p, a) && Lies(src, p + |a|, b)
  {
    assert a == src[p..p + |a + b|][..|a|] && b == src[p..p + |a + b|][|a|..];
  }

  lemma NextNode(ns: seq<Node>)
    requires AllReadable(ns) && ns != []
    ensures Readable(ns[0]) && AllReadable(ns[1..])
    ensures AllTokens(ns) == Tokens(ns[0]) + AllTokens(ns[1..])
    ensures AllForms(ns) == Form(ns[0]) + AllForms(ns[1..])
    ensures SpareAfter(ns) == if |ns| == 1 then Spare(ns[0]) else SpareAfter(ns[1..])
  {
    hide Encode, Tokens, Spare, Readable;
    assert ns[0] in ns;
    assert forall m :: m in ns[1..] ==> m in ns;
    assert AllMeaning(ns) == [Meaning(ns[0])] + AllMeaning(ns[1..]);
    assert ([Meaning(ns[0])] + AllMeaning(ns[1..]))[1..] == AllMeaning(ns[1..]);
    assert |ns| > 1 ==> ns[1..][|ns| - 2] == ns[|ns| - 1];
  }

  lemma AtLeastTwo(ns: seq<Node>)
    requires AllReadable(ns) && ns != []
    ensures |AllForms(ns)| >= 2
  {
    assert |Encode(AllMeaning(ns)[0])| >= 2;
  }

  /** The tree of a readable text is well-formed. */
  lemma {:induction false} MeaningWellFormed(n: Node)
    requires Readable(n)
    ensures Meaning(n).WellFormed() && Meaning(n).Id() == Tokens(n)[0].id && Tokens(n)[0].OpenTag?
    decreases n, 1
  {
    if n.Sec? {
      AllWellFormed(n.children);
    }
  }

  lemma {:induction false} AllWellFormed(ns: seq<Node>)
    requires AllReadable(ns)
    ensures forall e :: e in AllMeaning(ns) ==> e.WellFormed()
    decreases ns, 0
  {
    if ns != [] {
      MeaningWellFormed(ns[0]);
      AllWellFormed(ns[1..]);
    }
  }

  /** Two texts give the same bytes exactly when they stand for the same tree. */
  lemma FormDeterminesMeaning(m: Node, n: Node)
    requires Readable(m) && Readable(n)
    ensures Form(m) == Form(n) <==> Meaning(m) == Meaning(n)
  {
    MeaningWellFormed(m);
    MeaningWellFormed(n);
    if Form(m) == Form(n) {
      EncodeInjective(Meaning(m), Meaning(n), [], []);
    }
  }

  // ---------------------------------------------------------------- the reader

  // diva_cfg_lib_instance_t
  class Reader {
    const src: seq<Token>
    const max: nat
    var position: nat
    var data: array?<byte>
    var dataLength: nat

    constructor (src: seq<Token>, data: array?<byte>)
      ensures this.src == src && this.data == data && position == 0 && dataLength == 0
      ensures data != null ==> max == data.Length
    {
      this.src := src;
      this.data := data;
      max := if data == null then 0 else data.Length;
      position, dataLength := 0, 0;
    }

    /** Without data nothing is stored.  Otherwise b was in data before, and w is written. */
    ghost predicate Out(b: seq<byte>, w: seq<byte>)
      reads this, data
    {
      data != null ==> data.Length == max && |w| == dataLength && Overlaid(data, b, 0, w)
    }

    ghost predicate Room(n: nat)
      reads this
    {
      data != null ==> dataLength + n <= max
    }

    // the tag and identifier every read procedure begins with
    method PutNumber(v: dword, ghost b: seq<byte>, ghost w: seq<byte>) returns (ok: bool)
      requires Out(b, w) && Room(0)
      modifies this`dataLength, data
      ensures ok <==> old(Room(|Vle(v)|))
      ensures ok ==> dataLength == old(dataLength) + |Vle(v)| && Out(b, w + Vle(v)) && Room(0)
    {
      hide Vle, Overlay;
      if data != null && dataLength + |Vle(v)| <= max {
        OverlayMore(b, 0, w, Vle(v));
      }
      var n := DwordToVle(v, data, dataLength, if data == null then 0 else max - dataLength);
      if n == 0 {
        return false;
      }
      dataLength := dataLength + n;
      return true;
    }

    // close_tag
    method Close(section: bool) returns (ok: bool)
      requires position < |src|
      modifies this`position
      ensures ok <==> src[old(position)] == CloseTag(section)
      ensures ok ==> position == old(position) + 1
    {
      if src[position] != CloseTag(section) {
        return false;
      }
      position := position + 1;
      return true;
    }

    // read_vie_vle
    method ReadNumber(id: byte, ghost v: dword, ghost b: seq<byte>, ghost w: seq<byte>) returns (ok: bool)
      requires Lies(src, position, [Hex(v), CloseTag(false)])
      requires Out(b, w) && Room(0)
      modifies this`position, this`dataLength, data
      ensures ok <==> old(Room(|Encode(Number(id, v))|))
      ensures ok ==> position == old(position) + 2 && dataLength == old(dataLength) + |Encode(Number(id, v))|
      ensures ok ==> Out(b, w + Encode(Number(id, v)))
    {
      LiesPrefix(src, position, [Hex(v)], [CloseTag(false)]);
      hide Vle, Overlaid;
      var stored := PutNumber(id, b, w);
      if !stored {
        return false;
      }
      stored := PutNumber(src[position].value, b, w + Vle(id));
      if !stored {
        return false;
      }
      assert w + Vle(id) + Vle(v) == w + Encode(Number(id, v));
      position := position + 1;
      ok := Close(false);
    }

    // read_vie_bs
    method ReadString(id: byte, ghost t: Token, ghost b: seq<byte>, ghost w: seq<byte>) returns (ok: bool)
      requires IsString(t) && Lies(src, position, [t, CloseTag(false)])
      requires Out(b, w) && Room(0)
      modifies this`position, this`dataLength, data
      ensures ok <==> old(Room(|Encode(Data(id, StringBytes(t)))| + SpareOf(t)))
      ensures ok ==> position == old(position) + 2 && dataLength == old(dataLength) + |Encode(Data(id, StringBytes(t)))|
      ensures ok ==> Out(b, w + Encode(Data(id, StringBytes(t))))
    {
      hide Vle, StringForm, StringBytes, SpareOf, IsString, Overlay, Encode;
      StringParts(src, position, id, t);
      var stored := PutNumber(id, b, w);
      if !stored {
        return false;
      }
      ghost var v := w + Vle(id);
      if data != null && dataLength + |StringForm(t)| <= max {
        OverlayMore(b, 0, v, StringForm(t));
      }
      var n := ReadBs(src[position], data, dataLength, if data == null then 0 else max - dataLength);
      if n.None? {
        return false;
      }
      assert v + StringForm(t) == w + (Vle(id) + StringForm(t));
      position := position + 1;
      dataLength := dataLength + n.value;
      ok := Close(false);
    }

    /** What a section fails with: -1 when the first thing that does not fit is a section in it, and 0
        when it is its own header or another element. */
    ghost function Failure(ns: seq<Node>, header: nat): int
      requires AllReadable(ns)
      reads this
    {
      var unfit := FirstUnfit(ns, max - dataLength - header);
      if Room(header) && unfit.Some? && unfit.value.Sec? then -1 else 0
    }

    /** The element that begins at a tag: the tag is found and its read procedure called.  1 is
        success; of what read_tlie returns only 0 counts as a failure. */
    method ReadElement(ghost n: Node, ghost b: seq<byte>, ghost w: seq<byte>) returns (code: int)
      requires Readable(n) && Lies(src, position, Tokens(n)) && |Form(n)| < DWORDS && Out(b, w) && Room(0)
      requires Room(|Form(n)| + Spare(n)) || !n.Sec? || AllLeaves(n.children)
      modifies this`position, this`dataLength, this`data, data
      ensures data == old(data) && (code == 1 <==> old(Room(|Form(n)| + Spare(n))))
      ensures code == 1 ==> position == old(position) + |Tokens(n)| && dataLength == old(dataLength) + |Form(n)|
      ensures code == 1 ==> Out(b, w + Form(n)) && Room(0)
      ensures code != 1 ==> code == if n.Sec? then -1 else 0
      decreases n, 1, 0
    {
      hide Overlaid, Vle, FirstUnfit;
      TagOf(src, position, n);
      var id := src[position].id;
      position := position + 1;
      if id == TLIE {
        LeavesAreShallow(n.children);
        if AllLeaves(n.children) {
          LeavesFailPlainly(n.children, max - dataLength - 1 - |Vle(|AllForms(n.children)|)|);
        }
        var r := ReadTlie(n.children, b, w);
        return if r == 0 then -1 else 1;
      }
      var ok: bool;
      if IsNumberId(id) {
        ok := ReadNumber(id, n.value, b, w);
      } else {
        ok := ReadString(id, StringToken(n), b, w);
      }
      return if ok then 1 else 0;
    }

    // read_tlie.  With too little room it is followed as far as sections are nested twice: behind
    // that a caller takes the -1 of a nested section for success
    method ReadTlie(ghost ns: seq<Node>, ghost b: seq<byte>, ghost w: seq<byte>) returns (r: int)
      requires Readable(Sec(ns)) && Lies(src, position, AllTokens(ns) + [CloseTag(true)])
      requires |Form(Sec(ns))| < DWORDS && Out(b, w) && Room(0)
      requires Room(|Form(Sec(ns))| + Spare(Sec(ns))) || Shallow(ns)
      modifies this`position, this`dataLength, this`data, data
      ensures data == old(data) && (r > 0 <==> old(Room(|Form(Sec(ns))| + Spare(Sec(ns)))))
      ensures r > 0 ==> position == old(position) + |AllTokens(ns)| + 1 && r == dataLength
      ensures r > 0 ==> dataLength == old(dataLength) + |Form(Sec(ns))| && Out(b, w + Form(Sec(ns))) && Room(0)
      ensures r <= 0 ==> r == old(Failure(ns, 1 + |Vle(|AllForms(ns)|)|))
      decreases ns, 2, 0
    {
      hide Overlaid, Vle, Form, AllForms, Readable, Spare, SpareAfter, Tokens, AllTokens, FirstUnfit, Shallow;
      SectionForm(ns);
      ghost var n := |AllForms(ns)|;
      LiesPrefix(src, position, AllTokens(ns), [CloseTag(true)]);
      AllFitIff(ns, max - dataLength - 1 - |Vle(n)|);
      var ok := PutNumber(TLIE, b, w);
      if !ok {
        return 0;
      }
      var tliePosition := position;
      var nestedLength := MeasureChildren(ns, b, w + Vle(TLIE));
      ok := PutNumber(nestedLength, b, w + Vle(TLIE));
      if !ok {
        return 0;
      }
      if data != null {
        position := tliePosition;
        var code := ReadChildren(ns, b, w + Vle(TLIE) + Vle(n));
        if code != 1 {
          return code;
        }
      } else {
        dataLength := dataLength + nestedLength;
      }
      assert w + Vle(TLIE) + Vle(n) + AllForms(ns) == w + (Vle(TLIE) + Vle(n) + AllForms(ns));
      ok := Close(true);
      return if ok then dataLength else 0;
    }

    /** The first loop of read_tlie, without data; it cannot fail. */
    method MeasureChildren(ghost ns: seq<Node>, ghost b: seq<byte>, ghost w: seq<byte>) returns (nestedLength: dword)
      requires ns != [] && AllReadable(ns) && Lies(src, position, AllTokens(ns) + [CloseTag(true)])
      requires |AllForms(ns)| < DWORDS && Out(b, w)
      modifies this`position, this`dataLength, this`data
      ensures data == old(data) && Out(b, w)
      ensures nestedLength == |AllForms(ns)| && dataLength == old(dataLength)
      ensures position == old(position) + |AllTokens(ns)|
      decreases ns, 1, 0
    {
      hide Overlaid, Vle, Form, AllForms, Readable, Spare, SpareAfter, Tokens, AllTokens, FirstUnfit, Shallow;
      var tmpData, tlieLength := data, dataLength;
      data := null;
      var code := ReadChildren(ns, [], []);
      nestedLength := dataLength - tlieLength;
      data, dataLength := tmpData, tlieLength;
    }

    // the loop of read_tlie: 1 when every child has been read
    method ReadChildren(ghost ns: seq<Node>, ghost b: seq<byte>, ghost w: seq<byte>) returns (code: int)
      requires ns != [] && AllReadable(ns) && Lies(src, position, AllTokens(ns) + [CloseTag(true)])
      requires |AllForms(ns)| < DWORDS && Out(b, w) && Room(0)
      requires Room(|AllForms(ns)| + SpareAfter(ns)) || Shallow(ns)
      modifies this`position, this`dataLength, this`data, data
      ensures data == old(data) && (code == 1 <==> old(Room(|AllForms(ns)| + SpareAfter(ns))))
      ensures code == 1 ==> position == old(position) + |AllTokens(ns)| && dataLength == old(dataLength) + |AllForms(ns)|
      ensures code == 1 ==> Out(b, w + AllForms(ns)) && Room(0)
      ensures code != 1 ==> data != null && code == old(Failure(ns, 0))
      decreases ns, 0, 0
    {
      hide Overlaid, Form, AllForms, Readable, Spare, SpareAfter, Tokens, AllTokens, FirstUnfit;
      NoNodes();
      ghost var rest, cur := ns, w;
      ghost var room := max - dataLength;
      if data != null {
        AllFitIff(ns, room);
      }
      var more := true;
      while more
        invariant more <==> rest != []
        invariant |rest| <= |ns| && rest == ns[|ns| - |rest|..] && AllReadable(rest)
        invariant Lies(src, position, AllTokens(rest) + [CloseTag(true)])
        invariant position + |AllTokens(rest)| == old(position) + |AllTokens(ns)|
        invariant |AllForms(rest)| < DWORDS
        invariant dataLength + |AllForms(rest)| == old(dataLength) + |AllForms(ns)|
        invariant data == old(data) && Out(b, cur) && cur + AllForms(rest) == w + AllForms(ns) && Room(0)
        invariant data != null ==> FirstUnfit(rest, max - dataLength) == FirstUnfit(ns, room)
        decreases |rest|
      {
        NextNode(rest);
        NextUnfit(rest, max - dataLength);
        assert rest[0] == ns[|ns| - |rest|];
        LiesPrefix(src, position, Tokens(rest[0]), AllTokens(rest[1..]) + [CloseTag(true)]);
        assert Tokens(rest[0]) + (AllTokens(rest[1..]) + [CloseTag(true)]) == AllTokens(rest) + [CloseTag(true)];
        code := ReadElement(rest[0], b, cur);
        if code != 1 {
          return;
        }
        cur, rest := cur + Form(rest[0]), rest[1..];
        AfterNode(src, position, rest);
        more := !src[position].CloseTag?;
      }
      assert cur + [] == cur;
      NoUnfit(max - dataLength);
      return 1;
    }
  }

  lemma SectionForm(ns: seq<Node>)
    requires Readable(Sec(ns))
    ensures Form(Sec(ns)) == Vle(TLIE) + Vle(|AllForms(ns)|) + AllForms(ns) && Spare(Sec(ns)) == SpareAfter(ns)
    ensures |Vle(TLIE)| == 1 && AllReadable(ns) && ns != []
  {
  }

  lemma NextUnfit(ns: seq<Node>, room: int)
    requires AllReadable(ns) && ns != []
    ensures FirstUnfit(ns, room) == if |Form(ns[0])| + Spare(ns[0]) > room then Some(ns[0])
                                    else FirstUnfit(ns[1..], room - |Form(ns[0])|)
  {
  }

  lemma NoUnfit(room: int)
    ensures FirstUnfit([], room) == None
  {
  }

  /** Every child fits exactly when all of them together do, with the spare byte of the last. */
  lemma {:induction false} AllFitIff(ns: seq<Node>, room: int)
    requires AllReadable(ns) && ns != []
    ensures FirstUnfit(ns, room) == None <==> |AllForms(ns)| + SpareAfter(ns) <= room
  {
    hide Form, AllForms, Spare, SpareAfter, Readable, FirstUnfit;
    NextNode(ns);
    NextUnfit(ns, room);
    if |ns| > 1 {
      AtLeastTwo(ns[1..]);
      AllFitIff(ns[1..], room - |Form(ns[0])|);
    } else {
      NoNodes();
      assert ns[1..] == [];
      NoUnfit(room - |Form(ns[0])|);
    }
  }

  /** A section in a section takes six bytes.  With five, the inner one is what does not fit: the
      reader's return value is then -1, which its caller does not tell from success. */
  lemma SmallestNestedFailure()
    ensures var ns := [Sec([Num(2, 0)])];
            && Readable(Sec(ns)) && Shallow(ns) && Form(Sec(ns)) == [1, 4, 1, 2, 2, 0]
            && |Vle(|AllForms(ns)|)| == 1 && FirstUnfit(ns, 5 - 2) == Some(ns[0])
  {
    var inner := [Num(2, 0)];
    var ns := [Sec(inner)];
    assert AllMeaning(inner) == [Number(2, 0)];
    OneElement(Number(2, 0));
    assert Encode(Number(2, 0)) == Vle(2) + Vle(0) == [2, 0];
    SectionForm(inner);
    assert Vle(2) == [2] && Vle(4) == [4] && Vle(1) == [1];
    assert Form(Sec(inner)) == [1, 2, 2, 0];
    assert AllMeaning(ns) == [Meaning(Sec(inner))];
    OneElement(Meaning(Sec(inner)));
    SectionForm(ns);
  }

  lemma LeavesAreShallow(ns: seq<Node>)
    ensures AllLeaves(ns) ==> Shallow(ns)
  {
  }

  lemma {:induction false} LeavesFailPlainly(ns: seq<Node>, room: int)
    requires AllReadable(ns) && AllLeaves(ns)
    ensures FirstUnfit(ns, room).Some? ==> !FirstUnfit(ns, room).value.Sec?
  {
    hide Form, Spare;
    if ns != [] {
      LeavesFailPlainly(ns[1..], room - |Form(ns[0])|);
    }
  }

  lemma StringParts(src: seq<Token>, p: nat, id: byte, t: Token)
    requires IsString(t) && Lies(src, p, [t, CloseTag(false)])
    ensures p + 1 < |src| && src[p] == t && src[p + 1] == CloseTag(false)
    ensures t.List? ==> t.fields != [] && |t.fields| < DWORDS
    ensures t.Ascii? ==> |t.text| < DWORDS
    ensures Encode(Data(id, StringBytes(t))) == Vle(id) + StringForm(t)
  {
    LiesPrefix(src, p, [t], [CloseTag(false)]);
    assert Vle(id) + Vle(|StringBytes(t)|) + StringBytes(t) == Vle(id) + (Vle(|StringBytes(t)|) + StringBytes(t));
  }

  lemma AfterNode(src: seq<Token>, p: nat, ns: seq<Node>)
    requires Lies(src, p, AllTokens(ns) + [CloseTag(true)])
    ensures p < |src| && (src[p].CloseTag? <==> ns == [])
  {
    if ns == [] {
      assert src[p] == src[p..p + 1][0];
    } else {
      LiesPrefix(src, p, Tokens(ns[0]), AllTokens(ns[1..]) + [CloseTag(true)]);
      assert Tokens(ns[0]) + (AllTokens(ns[1..]) + [CloseTag(true)]) == AllTokens(ns) + [CloseTag(true)];
      assert src[p] == src[p..p + |Tokens(ns[0])|][0];
    }
  }

  lemma NoNodes()
    ensures AllTokens([]) == [] && AllForms([]) == [] && SpareAfter([]) == 0
  {
  }

  lemma TagOf(src: seq<Token>, p: nat, n: Node)
    requires Readable(n) && Lies(src, p, Tokens(n))
    ensures src[p].OpenTag? && src[p].id == Meaning(n).Id()
    ensures src[p].id == TLIE <==> n.Sec?
    ensures IsNumberId(src[p].id) <==> n.Num?
    ensures n.Sec? ==> Lies(src, p + 1, AllTokens(n.children) + [CloseTag(true)])
    ensures n.Num? ==> Lies(src, p + 1, [Hex(n.value), CloseTag(false)])
    ensures n.Bin? || n.Txt? ==> Lies(src, p + 1, [StringToken(n), CloseTag(false)])
  {
    assert src[p] == src[p..p + |Tokens(n)|][0];
    LiesPrefix(src, p, [Tokens(n)[0]], Tokens(n)[1..]);
    assert Tokens(n) == [Tokens(n)[0]] + Tokens(n)[1..];
  }
}
