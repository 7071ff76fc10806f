/** sendf of kernel/capifunc.c in place: two runs over the format, and the stack of open
    structures in the bytes of the message. */
module CapiSendf {
  import opened Machine
  import opened CapiMessage

  // --------------------------------------------------- the stack in the bytes

  /** What the length byte of a structure holds while it is open, when f is around it: the
      distance to the length byte before it, or 0. */
  function Distance(f: seq<seq<byte>>): nat
    requires f != []
  {
    if |f| == 1 then 0 else |f[|f| - 1]| + 1
  }

  /** The message so far. */
  function Join(f: seq<seq<byte>>): seq<byte>
    requires f != []
  {
    var n := |f| - 1;
    if n == 0 then f[0] else Join(f[..n]) + [Distance(f[..n]) % 0x100] + f[n]
  }

  /** p_length: where the length byte of the innermost open structure is, or 0. */
  function Top(f: seq<seq<byte>>): nat
    requires f != []
  {
    if |f| == 1 then 0 else HEADER + |Join(f[..|f| - 1])|
  }

  ghost predicate Represents(m: seq<byte>, write: nat, top: nat, f: seq<seq<byte>>) {
    && f != [] && write == HEADER + |Join(f)| <= |m| && top == Top(f)
    && m[HEADER..write] == Join(f)
  }

  lemma JoinMore(f: seq<seq<byte>>, d: seq<byte>)
    requires f != []
    ensures var g := f[..|f| - 1] + [f[|f| - 1] + d];
            Join(g) == Join(f) + d && Top(g) == Top(f)
  {
    var n := |f| - 1;
    var g := f[..n] + [f[n] + d];
    assert g[..n] == f[..n];
    if n > 0 {
      Associative(Join(f[..n]) + [Distance(f[..n]) % 0x100], f[n], d);
    }
  }

  lemma JoinOpen(f: seq<seq<byte>>)
    requires f != []
    ensures Join(f + [[]]) == Join(f) + [Distance(f) % 0x100] && Top(f + [[]]) == HEADER + |Join(f)|
  {
    assert (f + [[]])[..|f|] == f;
    assert Join(f) + [Distance(f) % 0x100] + [] == Join(f) + [Distance(f) % 0x100];
  }

  lemma JoinClose(f: seq<seq<byte>>)
    requires |f| > 1
    ensures var n := |f| - 1; var g := Step(f, Close).value;
            && Join(g) == Join(f[..n]) + [|f[n]| % 0x100] + f[n]
            && Join(f) == Join(f[..n]) + [Distance(f[..n]) % 0x100] + f[n]
            && Top(f) == HEADER + |Join(f[..n])| && Top(g) == Top(f[..n])
  {
    var n := |f| - 1;
    var e := f[..n];
    JoinMore(e, [|f[n]| % 0x100] + f[n]);
    assert e[..n - 1] == f[..n - 1];
    Associative(f[n - 1], [|f[n]| % 0x100], f[n]);
    Associative(Join(e), [|f[n]| % 0x100], f[n]);
  }

  /** The structure around the innermost one is found through its distance. */
  lemma TopBefore(f: seq<seq<byte>>)
    requires |f| > 1
    ensures var e := f[..|f| - 1];
            && Distance(e) <= |Join(e)| + 1
            && Top(e) == if Distance(e) == 0 then 0 else Top(f) - Distance(e)
  {
  }

  lemma ScalarKeeps(m: seq<byte>, write: nat, top: nat, f: seq<seq<byte>>, i: Item)
    requires Represents(m, write, top, f) && !i.Open? && !i.Close? && write + |Scalar(i)| <= |m|
    ensures Represents(Overlay(m, write, Scalar(i)), write + |Scalar(i)|, top, Step(f, i).value)
  {
    JoinMore(f, Scalar(i));
    hide Join, Top, Scalar;
    var d, n := Scalar(i), write + |Scalar(i)|;
    assert Overlay(m, write, d)[HEADER..n] == m[HEADER..write] + d;
  }

  lemma OpenKeeps(m: seq<byte>, write: nat, top: nat, f: seq<seq<byte>>)
    requires Represents(m, write, top, f) && write < |m| && write <= 0xff
    ensures write - top >= 0
    ensures Represents(m[write := if top != 0 then (write - top) % 0x100 else 0], write + 1, write, Step(f, Open).value)
    ensures top != 0 ==> write - top < 0x100
  {
    JoinOpen(f);
    if |f| > 1 {
      assert Join(f) == Join(f[..|f| - 1]) + [Distance(f[..|f| - 1]) % 0x100] + f[|f| - 1];
    }
    hide Join, Top;
    var b: byte := if top != 0 then (write - top) % 0x100 else 0;
    assert m[write := b][HEADER..write + 1] == m[HEADER..write] + [b];
  }

  lemma CloseKeeps(m: seq<byte>, write: nat, top: nat, f: seq<seq<byte>>)
    requires Represents(m, write, top, f) && write <= 0xff
    ensures top == 0 <==> |f| == 1
    ensures top != 0 ==>
              && top < write && m[top] <= top
              && Represents(m[top := write - top - 1], write, if m[top] != 0 then top - m[top] else 0, Step(f, Close).value)
  {
    if |f| > 1 {
      JoinClose(f);
      TopBefore(f);
      var n := |f| - 1;
      var a := Join(f[..n]);
      hide Join, Top, Distance, Step;
      var b: byte := |f[n]|;
      assert m[HEADER..write][|a|] == m[top];
      assert m[top := b][HEADER..write] == m[HEADER..write][|a| := b];
      assert (a + [Distance(f[..n]) % 0x100] + f[n])[|a| := b] == a + [b] + f[n];
    }
  }

  // ------------------------------------------------------------------ the runs

  lemma {:induction false} LengthGrows(items: seq<Item>, i: nat)
    requires i <= |items|
    ensures Length(items[..i]) <= Length(items)
    decreases |items| - i
  {
    if i == |items| {
      assert items[..i] == items;
    } else {
      LengthGrows(items, i + 1);
      assert items[..i + 1][..i] == items[..i];
    }
  }

  lemma Prefix(items: seq<Item>, i: nat)
    requires i < |items|
    ensures items[..i + 1][..i] == items[..i] && items[..i + 1][i] == items[i]
    ensures Length(items[..i + 1]) == Length(items[..i]) + Size(items[i])
    ensures Length(items[..i + 1]) <= Length(items)
    ensures Depth(items[..i]).None? ==> Depth(items[..i + 1]).None?
  {
    assert items[..i + 1][..i] == items[..i];
    LengthGrows(items, i + 1);
  }

  lemma {:induction false} DepthStaysNone(items: seq<Item>, i: nat)
    requires i <= |items| && Depth(items[..i]).None?
    ensures Depth(items).None?
    decreases |items| - i
  {
    if i == |items| {
      assert items[..i] == items;
    } else {
      Prefix(items, i);
      DepthStaysNone(items, i + 1);
    }
  }

  lemma {:induction false} DepthFits(items: seq<Item>)
    requires Depth(items).Some?
    ensures Depth(items).value <= Length(items)
  {
    if items != [] {
      if Depth(items[..|items| - 1]).Some? {
        DepthFits(items[..|items| - 1]);
      }
    }
  }

  // the first run: the length of the message, and whether the brackets match
  method Measure(items: seq<Item>) returns (length: word, level: byte)
    requires HEADER + Length(items) <= MESSAGE
    ensures level == 0 <==> Balanced(items)
    ensures level == 0 ==> length == HEADER + Length(items)
  {
    hide Size, Length, Depth;
    NothingRead();
    length, level := HEADER, 0;
    var i := 0;
    assert items[..0] == [];
    while i < |items| && level != 0xff
      invariant i <= |items|
      invariant level != 0xff ==> Depth(items[..i]) == Some(level as nat) && length == HEADER + Length(items[..i])
      invariant level == 0xff ==> Depth(items[..i]).None?
      invariant Length(items[..i]) <= Length(items)
    {
      Prefix(items, i);
      MeasureStep(items, i);
      match items[i] {
        case Open =>
          length := length + 1;
          level := level + 1;
        case Close =>
          level := if level != 0 then level - 1 else 0xff;
        case _ =>
          length := length + |Scalar(items[i])|;
      }
      i := i + 1;
    }
    if level == 0xff {
      DepthStaysNone(items, i);
    } else {
      assert items[..i] == items;
    }
  }

  lemma NothingRead()
    ensures Depth([]) == Some(0) && Length([]) == 0
  {
  }

  lemma MeasureStep(items: seq<Item>, i: nat)
    requires i < |items| && HEADER + Length(items) <= MESSAGE
    ensures var d, e := Depth(items[..i]), Depth(items[..i + 1]);
            && Size(items[i]) == (if items[i].Open? then 1 else |Scalar(items[i])|)
            && (d.Some? ==>
                  && (items[i].Open? ==> e == Some(d.value + 1))
                  && (items[i].Close? ==> e == if d.value > 0 then Some(d.value - 1) else None)
                  && (!items[i].Open? && !items[i].Close? ==> e == d))
            && (e.Some? ==> e.value <= 200)
            && Length(items[..i + 1]) == Length(items[..i]) + Size(items[i]) <= 200
            && (items[i].Close? ==> Size(items[i]) == 0)
  {
    Prefix(items, i);
    if Depth(items[..i + 1]).Some? {
      DepthFits(items[..i + 1]);
    }
  }

  // the body of the second run; the level is 0xff when a bracket does not match
  method Put(m: array<byte>, write0: nat, top0: nat, i: Item, ghost f: seq<seq<byte>>)
    returns (write: nat, top: nat, level: byte)
    requires Represents(m[..], write0, top0, f) && write0 + Size(i) <= m.Length <= MESSAGE
    modifies m
    ensures forall k :: 0 <= k < HEADER && k < m.Length ==> m[k] == old(m[k])
    ensures level == 0 <==> Step(f, i).Some?
    ensures level == 0 ==> Represents(m[..], write, top, Step(f, i).value)
  {
    hide Represents, Step, Scalar, Join, Top;
    write, top, level := write0, top0, 0;
    RepresentsIs(m[..], write, top, f);
    match i {
      case Open =>
        OpenKeeps(m[..], write, top, f);
        m[write] := if top != 0 then write - top else 0;
        top := write;
        write := write + 1;
      case Close =>
        CloseKeeps(m[..], write, top, f);
        if top != 0 {
          level := m[top];
          m[top] := write - top - 1;
          top := if level != 0 then top - level else 0;
          level := 0;
        } else {
          level := 0xff;
        }
      case _ =>
        ScalarKeeps(m[..], write, top, f, i);
        WriteBytes(m, write, Scalar(i));
        write := write + |Scalar(i)|;
    }
  }

  lemma RepresentsIs(m: seq<byte>, write: nat, top: nat, f: seq<seq<byte>>)
    requires Represents(m, write, top, f)
    ensures f != [] && HEADER <= write <= |m| && (top != 0 ==> HEADER <= top < write)
    ensures top == 0 <==> |f| == 1
  {
  }

  // ------------------------------------------------------------------- sendf

  function WordBytes(v: word): (b: seq<byte>)
    ensures |b| == 2
  {
    [v % 0x100, v / 0x100]
  }

  /** The header of a message, before the controller is mapped. */
  function Header(length: word, applId: word, command: word, number: word, id: dword): (h: seq<byte>)
    ensures |h| == HEADER
  {
    WordBytes(length) + WordBytes(applId) + WordBytes(command) + WordBytes(number) + DwordBytes(id)
  }

  const DATA_B3_IND: word := 0x8286

  class Application {
    const id: word
    var number: word
    var lost: byte

    constructor (id: word)
      ensures this.id == id && number == 0 && lost == 0
    {
      this.id, number, lost := id, 0, 0;
    }

    /** sendf: the message, or null for a format with brackets that do not match.  Indications
        take the next number of the application. */
    method Sendf(command: word, id: dword, number0: word, items: seq<Item>) returns (message: array?<byte>)
      requires HEADER + Length(items) <= MESSAGE && command != DATA_B3_IND
      modifies this
      ensures message != null <==> Balanced(items)
      ensures message != null ==>
                && fresh(message) && message.Length == HEADER + Length(items)
                && message[..HEADER] == Header(message.Length, this.id, command,
                                               if command / 0x100 == 0x82 then old(number) else number0, id)
                && message[HEADER..] == Bytes(Parse(items).value[0])
      ensures number == if message != null && command / 0x100 == 0x82 then (old(number) + 1) % 0x1_0000 else old(number)
      ensures lost == if message == null then 2 else old(lost)
    {
      hide Length, Depth, Parse, Bytes, Header, Represents;
      var length, level := Measure(items);
      if level != 0 {
        lost := 2;
        return null;
      }
      message := new byte[length](_ => 0);
      var n := number0;
      if command / 0x100 == 0x82 {
        n := number;
        number := (number + 1) % 0x1_0000;
      }
      ghost var z := message[..];
      WriteBytes(message, 2, Header(0, this.id, command, n, id)[2..]);
      ghost var a := message[..];
      // the second run ends with level 0, so the source's second error return is not taken
      level := Body(message, items);
      ghost var b := message[..];
      WriteBytes(message, 0, WordBytes(length));
      HeaderDone(a, b, message[..], z, length, this.id, command, n, id);
    }
  }

  lemma HeaderDone(a: seq<byte>, b: seq<byte>, c: seq<byte>, z: seq<byte>, length: word, applId: word, command: word, n: word, id: dword)
    requires |z| == |b| >= HEADER && a == Overlay(z, 2, Header(0, applId, command, n, id)[2..])
    requires b[..HEADER] == a[..HEADER] && c == Overlay(b, 0, WordBytes(length))
    ensures c[..HEADER] == Header(length, applId, command, n, id) && c[HEADER..] == b[HEADER..]
  {
    var h, g := Header(0, applId, command, n, id), Header(length, applId, command, n, id);
    assert h[2..] == g[2..];
    assert b[..HEADER][2..] == g[2..];
    assert c[..HEADER] == WordBytes(length) + b[..HEADER][2..];
    assert g == WordBytes(length) + g[2..];
  }

  lemma {:induction false} JoinLength(items: seq<Item>)
    requires Depth(items).Some?
    ensures |Join(Frames(items).value)| == Length(items)
  {
    if items != [] {
      var before, i := items[..|items| - 1], items[|items| - 1];
      JoinLength(before);
      StepLength(Frames(before).value, i);
    }
  }

  lemma StepLength(f: seq<seq<byte>>, i: Item)
    requires f != [] && Step(f, i).Some?
    ensures |Join(Step(f, i).value)| == |Join(f)| + Size(i)
  {
    match i
    case Open => JoinOpen(f);
    case Close => JoinClose(f);
    case _ => JoinMore(f, Scalar(i));
  }

  /** One step of the second run. */
  lemma NextFrames(items: seq<Item>, i: nat)
    requires i < |items| && Balanced(items)
    ensures Depth(items[..i]).Some? && Depth(items[..i + 1]).Some?
    ensures Frames(items[..i + 1]) == Step(Frames(items[..i]).value, items[i])
    ensures |Join(Frames(items[..i]).value)| + Size(items[i]) <= Length(items)
  {
    hide Join, Size, Length, Step;
    Prefix(items, i);
    if Depth(items[..i + 1]).None? {
      DepthStaysNone(items, i + 1);
    }
    JoinLength(items[..i]);
  }

  lemma AllFrames(items: seq<Item>, m: seq<byte>, write: nat, top: nat)
    requires Balanced(items) && |m| == HEADER + Length(items) && Represents(m, write, top, Frames(items).value)
    ensures m[HEADER..] == Bytes(Parse(items).value[0])
  {
    JoinLength(items);
    FramesAreTrees(items);
    assert m[HEADER..write] == m[HEADER..];
  }

  lemma NoFrames(m: seq<byte>)
    requires HEADER <= |m|
    ensures Frames([]) == Some([[]]) && Represents(m, HEADER, 0, [[]])
  {
    assert m[HEADER..HEADER] == [];
  }

  // the second run: with matching brackets it ends without an error
  method Body(m: array<byte>, items: seq<Item>) returns (level: byte)
    requires Balanced(items) && m.Length == HEADER + Length(items) <= MESSAGE
    modifies m
    ensures level == 0 && m[..HEADER] == old(m[..HEADER]) && m[HEADER..] == Bytes(Parse(items).value[0])
  {
    hide Represents, Frames, Step, Size, Length, Balanced, Parse, Bytes, Depth, Join;
    NoFrames(m[..]);
    assert items[..0] == [];
    level := 0;
    var write: nat, top: nat := HEADER, 0;
    var i := 0;
    while i < |items| && level == 0
      invariant i <= |items| && level == 0
      invariant Frames(items[..i]).Some? && Represents(m[..], write, top, Frames(items[..i]).value)
      invariant forall k :: 0 <= k < HEADER ==> m[k] == old(m[k])
    {
      NextFrames(items, i);
      WriteIs(m[..], write, top, Frames(items[..i]).value);
      write, top, level := Put(m, write, top, items[i], Frames(items[..i]).value);
      i := i + 1;
    }
    assert items[..|items|] == items;
    AllFrames(items, m[..], write, top);
  }

  lemma WriteIs(m: seq<byte>, write: nat, top: nat, f: seq<seq<byte>>)
    requires Represents(m, write, top, f)
    ensures f != [] && write == HEADER + |Join(f)|
  {
  }
}
