/** The `More` byte of an entity (kernel/di.h, kernel/di.c): return codes are counted, and the
    application is called back once a request is complete. */
module IdiCompletion {
  import opened Machine

  // ------------------------------------------------------------- the bits

  /** XMOREC: return codes awaited. */
  function Count(more: byte): nat {
    more % 0x10
  }

  /** Whether the bit of value `bit` is set: XMOREP, XMOREF or XBUSY. */
  predicate Has(more: byte, bit: byte)
    requires bit > 0
  {
    more / bit % 2 == 1
  }

  const XMOREP: byte := 0x10 // a part of the request is still queued
  const XMOREF: byte := 0x20 // the final part has been sent
  const XBUSY: byte := 0x40

  predicate IsBit(bit: byte) {
    bit in {XMOREP, XMOREF, XBUSY}
  }

  function Set(more: byte, bit: byte): byte
    requires IsBit(bit)
  {
    if Has(more, bit) then more else SetBit(more, bit)
  }

  function SetBit(more: byte, bit: byte): byte
    requires IsBit(bit) && !Has(more, bit)
  {
    more + bit
  }

  function Clear(more: byte, bit: byte): byte
    requires IsBit(bit)
  {
    if Has(more, bit) then more - bit else more
  }

  function ClearCount(more: byte): byte {
    more - Count(more)
  }

  /** `More++` of a byte. */
  function Next(more: byte): byte {
    (more + 1) % 0x100
  }

  // ----------------------------------------------------------- the operations

  // a new request, kernel/io.c
  function Begun(more: byte): byte {
    Clear(Set(more, XBUSY), XMOREF)
  }

  // pr_out, for a request that is no assignment
  function Sent(more: byte, last: bool): byte {
    if last then Clear(Set(Next(more), XMOREF), XMOREP) else Set(Next(more), XMOREP)
  }

  function Counted(more: byte): byte {
    if Count(more) > 0 then more - 1 else more
  }

  /** The condition for the callback, with return codes canceled. */
  predicate Completes(more: byte) {
    Has(more, XMOREF) && Count(more) == 0 && !Has(more, XMOREP)
  }

  // isdn_rc, for a return code without flow control
  function Returned(more: byte): byte {
    if Completes(Counted(more)) then Clear(Counted(more), XBUSY) else Counted(more)
  }

  // -------------------------------------------------------------- whole runs

  /** A fragment is sent, or a return code arrives. */
  datatype Event = Send(last: bool) | Return

  function Sends(es: seq<Event>): nat {
    if es == [] then 0 else Sends(es[..|es| - 1]) + if es[|es| - 1].Send? then 1 else 0
  }

  function Returns(es: seq<Event>): nat {
    if es == [] then 0 else Returns(es[..|es| - 1]) + if es[|es| - 1].Return? then 1 else 0
  }

  /** An interleaving of a request's m fragments and their return codes. */
  predicate Orderly(es: seq<Event>, m: nat) {
    es == [] ||
    var before := es[..|es| - 1];
    && Orderly(before, m)
    && match es[|es| - 1]
       case Send(last) => Sends(before) < m && last == (Sends(before) + 1 == m)
       case Return => Returns(before) < Sends(before)
  }

  /** Never more than 15 return codes are awaited. */
  predicate Few(es: seq<Event>) {
    es == [] || (Few(es[..|es| - 1]) && Sends(es) - Returns(es) <= 15)
  }

  function More(more: byte, es: seq<Event>): byte {
    if es == [] then more
    else
      var before := More(more, es[..|es| - 1]);
      match es[|es| - 1]
      case Send(last) => Sent(before, last)
      case Return => Returned(before)
  }

  /** How many times the application is called back. */
  function Calls(more: byte, es: seq<Event>): nat {
    if es == [] then 0
    else
      var before := es[..|es| - 1];
      Calls(more, before) + if es[|es| - 1].Return? && Completes(Counted(More(more, before))) then 1 else 0
  }

  /** The fields of a byte. */
  predicate Fields(more: byte, c: nat, p: bool, f: bool, b: bool) {
    Count(more) == c && Has(more, XMOREP) == p && Has(more, XMOREF) == f && Has(more, XBUSY) == b
  }

  function Bit(b: bool): nat {
    if b then 1 else 0
  }

  lemma Compose(more: byte, c: nat, p: bool, f: bool, b: bool, r: nat)
    requires c < 0x10 && r < 2 && more == c + 0x10 * Bit(p) + 0x20 * Bit(f) + 0x40 * Bit(b) + 0x80 * r
    ensures Fields(more, c, p, f, b)
  {
    assert more / 0x10 == Bit(p) + 2 * (Bit(f) + 2 * Bit(b) + 4 * r);
    assert more / 0x20 == Bit(f) + 2 * (Bit(b) + 2 * r);
    assert more / 0x40 == Bit(b) + 2 * r;
  }

  lemma Decompose(more: byte, c: nat, p: bool, f: bool, b: bool) returns (r: nat)
    requires Fields(more, c, p, f, b)
    ensures c < 0x10 && r < 2 && more == c + 0x10 * Bit(p) + 0x20 * Bit(f) + 0x40 * Bit(b) + 0x80 * r
  {
    r := more / 0x80;
    assert more / 0x40 == Bit(b) + 2 * r;
    assert more / 0x20 == Bit(f) + 2 * (more / 0x40);
    assert more / 0x10 == Bit(p) + 2 * (more / 0x20);
  }

  /** What setting and clearing a bit does to the fields. */
  lemma SetFields(more: byte, c: nat, p: bool, f: bool, b: bool)
    requires Fields(more, c, p, f, b)
    ensures Fields(Set(more, XMOREP), c, true, f, b) && Fields(Set(more, XMOREF), c, p, true, b)
    ensures Fields(Set(more, XBUSY), c, p, f, true)
  {
    var r := Decompose(more, c, p, f, b);
    Compose(Set(more, XMOREP), c, true, f, b, r);
    Compose(Set(more, XMOREF), c, p, true, b, r);
    Compose(Set(more, XBUSY), c, p, f, true, r);
  }

  lemma ClearFields(more: byte, c: nat, p: bool, f: bool, b: bool)
    requires Fields(more, c, p, f, b)
    ensures Fields(Clear(more, XMOREP), c, false, f, b) && Fields(Clear(more, XMOREF), c, p, false, b)
    ensures Fields(Clear(more, XBUSY), c, p, f, false) && Fields(ClearCount(more), 0, p, f, b)
  {
    var r := Decompose(more, c, p, f, b);
    Compose(Clear(more, XMOREP), c, false, f, b, r);
    Compose(Clear(more, XMOREF), c, p, false, b, r);
    Compose(Clear(more, XBUSY), c, p, f, false, r);
    Compose(ClearCount(more), 0, p, f, b, r);
  }

  lemma CountFields(more: byte, c: nat, p: bool, f: bool, b: bool)
    requires Fields(more, c, p, f, b)
    ensures c < 15 ==> Fields(Next(more), c + 1, p, f, b)
    ensures c > 0 ==> Fields(Counted(more), c - 1, p, f, b)
    ensures c == 15 && p && !f ==> Fields(Next(more), 0, false, true, b)
  {
    var r := Decompose(more, c, p, f, b);
    if c < 15 {
      Compose(Next(more), c + 1, p, f, b, r);
    } else if p && !f {
      Compose(Next(more), 0, false, true, b, r);
    }
    if c > 0 {
      Compose(Counted(more), c - 1, p, f, b, r);
    }
  }

  // ------------------------------------------------------------ the theorems

  /** The byte in the middle of a request of m fragments, s sent and r returned. */
  predicate Midway(more: byte, m: nat, s: nat, r: nat) {
    && r <= s <= m && s - r <= 15
    && Fields(more, s - r, Has(more, XMOREP), 0 < s == m, 0 == m || r < m)
    && (0 < s ==> (Has(more, XMOREP) <==> s < m))
  }

  /** Through every interleaving of the m fragments and their return codes, the counter is the
      number of return codes awaited, and the application is called back exactly when the last
      of the m return codes arrives: before that no callback has happened, then exactly one. */
  lemma {:induction false} OneCompletion(more: byte, es: seq<Event>, m: nat)
    requires Count(more) == 0 && !Has(more, XMOREF) && Has(more, XBUSY)
    requires m > 0 && Orderly(es, m) && Few(es)
    ensures Midway(More(more, es), m, Sends(es), Returns(es))
    ensures Calls(more, es) == if Returns(es) == m then 1 else 0
  {
    if es != [] {
      var before := es[..|es| - 1];
      OneCompletion(more, before, m);
      var k, s, r := More(more, before), Sends(before), Returns(before);
      hide Has, Count, Set, Clear, Next;
      match es[|es| - 1]
      case Send(last) =>
        SendStep(k, m, s, r);
      case Return =>
        ReturnStep(k, m, s, r);
    }
  }

  lemma SendStep(k: byte, m: nat, s: nat, r: nat)
    requires Midway(k, m, s, r) && s < m && s + 1 - r <= 15
    ensures Midway(Sent(k, s + 1 == m), m, s + 1, r)
  {
    hide Has, Count, Set, Clear, Next;
    var p := Has(k, XMOREP);
    CountFields(k, s - r, p, false, true);
    var n := Next(k);
    if s + 1 == m {
      SetFields(n, s + 1 - r, p, false, true);
      ClearFields(Set(n, XMOREF), s + 1 - r, p, true, true);
    } else {
      SetFields(n, s + 1 - r, p, false, true);
    }
  }

  lemma ReturnStep(k: byte, m: nat, s: nat, r: nat)
    requires Midway(k, m, s, r) && r < s
    ensures Midway(Returned(k), m, s, r + 1) && (Completes(Counted(k)) <==> r + 1 == m)
  {
    hide Has, Count, Set, Clear, Next, Counted;
    var p := Has(k, XMOREP);
    CountFields(k, s - r, p, s == m, true);
    ClearFields(Counted(k), s - r - 1, p, s == m, true);
  }

  /** After its completion the entity is ready for the next request, whose run starts as this
      one did. */
  lemma NextRequest(more: byte, es: seq<Event>, m: nat)
    requires Count(more) == 0 && !Has(more, XMOREF) && Has(more, XBUSY)
    requires m > 0 && Orderly(es, m) && Few(es) && Returns(es) == m
    ensures var k := More(more, es);
            && !Has(k, XBUSY)
            && Count(Begun(k)) == 0 && !Has(Begun(k), XMOREF) && Has(Begun(k), XBUSY)
  {
    OneCompletion(more, es, m);
    var k := More(more, es);
    hide Has, Count, Set, Clear, Next, More;
    SetFields(k, 0, false, true, false);
    ClearFields(Set(k, XBUSY), 0, false, true, true);
  }

  /** The counter is the number of return codes awaited, at every point of a run, exactly when
      there are never more than 15. */
  predicate CountIsRight(more: byte, es: seq<Event>) {
    Count(More(more, es)) == Sends(es) - Returns(es) && (es == [] || CountIsRight(more, es[..|es| - 1]))
  }

  lemma {:induction false} RightIffFew(more: byte, es: seq<Event>, m: nat)
    requires Count(more) == 0 && !Has(more, XMOREF) && Has(more, XBUSY)
    requires m > 0 && Orderly(es, m)
    ensures CountIsRight(more, es) <==> Few(es)
  {
    hide More, Has;
    if Few(es) {
      OneCompletion(more, es, m);
    }
    if es != [] {
      RightIffFew(more, es[..|es| - 1], m);
    }
  }

  /** n fragments, each returned at once, and then k that are not: none of them the last. */
  function Early(n: nat, k: nat): (es: seq<Event>)
    decreases n + k
  {
    if k > 0 then Early(n, k - 1) + [Send(false)]
    else if n > 0 then Early(n - 1, 0) + [Send(false)] + [Return] else []
  }

  lemma {:induction false} EarlyIs(n: nat, k: nat, m: nat)
    requires n + k < m && k <= 15
    ensures Sends(Early(n, k)) == n + k && Returns(Early(n, k)) == n
    ensures Orderly(Early(n, k), m) && Few(Early(n, k))
    decreases n + k
  {
    hide Sends, Returns, Orderly, Few;
    if k > 0 {
      EarlyIs(n, k - 1, m);
      OneMore(Early(n, k - 1), Send(false), m);
    } else if n > 0 {
      EarlyIs(n - 1, 0, m);
      OneMore(Early(n - 1, 0), Send(false), m);
      OneMore(Early(n - 1, 0) + [Send(false)], Return, m);
    } else {
      NoEvents(m);
    }
  }

  lemma NoEvents(m: nat)
    ensures Sends([]) == 0 && Returns([]) == 0 && Orderly([], m) && Few([])
  {
  }

  lemma OneMore(c: seq<Event>, e: Event, m: nat)
    requires Orderly(c, m)
    ensures var es := c + [e];
            && Sends(es) == Sends(c) + (if e.Send? then 1 else 0) && Returns(es) == Returns(c) + (if e.Return? then 1 else 0)
            && (Orderly(es, m) <==> if e.Send? then Sends(c) < m && e.last == (Sends(c) + 1 == m) else Returns(c) < Sends(c))
            && (Few(es) <==> Few(c) && Sends(es) - Returns(es) <= 15)
  {
    assert (c + [e])[..|c|] == c;
  }

  lemma OneMoreCall(more: byte, c: seq<Event>, e: Event)
    ensures var es := c + [e]; var k := More(more, c);
            && More(more, es) == (if e.Send? then Sent(k, e.last) else Returned(k))
            && Calls(more, es) == Calls(more, c) + if e.Return? && Completes(Counted(k)) then 1 else 0
  {
    assert (c + [e])[..|c|] == c;
  }

  /** Sixteen outstanding fragments, the last of the request among them, overflow the counter: the
      first return code that comes then already completes the request. */
  lemma SixteenCompleteEarly(more: byte, m: nat)
    requires Count(more) == 0 && !Has(more, XMOREF) && Has(more, XBUSY) && m >= 16
    ensures var es := Early(m - 16, 15) + [Send(true)] + [Return];
            Orderly(es, m) && Returns(es) == m - 15 && Calls(more, es) == 1
  {
    hide Has, Count, Set, Clear, Next, Counted, Early, More, Calls, Orderly, Few, Sends, Returns;
    var c := Early(m - 16, 15);
    EarlyIs(m - 16, 15, m);
    OneCompletion(more, c, m);
    OneMore(c, Send(true), m);
    OneMore(c + [Send(true)], Return, m);
    OneMoreCall(more, c, Send(true));
    OneMoreCall(more, c + [Send(true)], Return);
    var k := More(more, c);
    CountFields(k, 15, true, false, true);
    SetFields(Next(k), 0, false, true, true);
    ClearFields(Set(Next(k), XMOREF), 0, false, true, true);
    NoneLeft(Sent(k, true));
  }

  lemma NoneLeft(more: byte)
    requires Count(more) == 0
    ensures Counted(more) == more
  {
  }

  lemma {:induction false} ShortIsFew(es: seq<Event>, m: nat)
    requires Orderly(es, m)
    ensures Sends(es) <= m && (m <= 15 ==> Few(es))
  {
    if es != [] {
      ShortIsFew(es[..|es| - 1], m);
    }
  }

  /** A request of m fragments is called back exactly once, on its last return code, however
      fragments and return codes interleave, exactly when it has at most 15 fragments. */
  lemma OneCompletionIffShort(more: byte, m: nat)
    requires Count(more) == 0 && !Has(more, XMOREF) && Has(more, XBUSY) && m > 0
    ensures (forall es :: Orderly(es, m) ==> Calls(more, es) == if Returns(es) == m then 1 else 0) <==> m <= 15
  {
    hide Has, Count, Orderly, Calls, Returns, Few;
    if m <= 15 {
      forall es | Orderly(es, m) ensures Calls(more, es) == if Returns(es) == m then 1 else 0 {
        ShortIsFew(es, m);
        OneCompletion(more, es, m);
      }
    } else {
      SixteenCompleteEarly(more, m);
    }
  }
}
