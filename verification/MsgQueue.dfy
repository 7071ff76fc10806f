/** The trace message ring of kernel/debug.c: variable-size messages in one byte
    buffer.  The queue may wrap around the end of the buffer, a message never does.
    Buffer pointers are modelled as offsets from Q->Base. */
module MsgQueue {
  import opened Machine

  const HEAD_SIZE := 4
  const MSG_INCOMPLETE := 0x8000

  /** Sizes that leave the MSG_INCOMPLETE bit of the header free. */
  type msgsize = x: int | 0 <= x < MSG_INCOMPLETE

  /** MSG_NEED: header plus payload, rounded up to whole dwords. */
  function MsgNeed(size: nat): (need: nat)
    ensures need % 4 == 0
    ensures size + HEAD_SIZE <= need < size + HEAD_SIZE + 4
  {
    (HEAD_SIZE + size + 3) / 4 * 4
  }

  /** size | MSG_INCOMPLETE, as stored by queueAllocMsg. */
  function IncompleteHeader(size: word): (h: word)
  {
    if size / MSG_INCOMPLETE == 1 then size else size + MSG_INCOMPLETE
  }

  predicate HasIncompleteFlag(h: dword) {
    h / MSG_INCOMPLETE % 2 == 1
  }

  /** h & ~MSG_INCOMPLETE. */
  function HeaderSize(h: dword): (size: msgsize)
  {
    h % MSG_INCOMPLETE
  }

  /** The flag shares the word with the size: a size survives exactly when it is below 0x8000. */
  lemma HeaderKeepsSizeIff(size: word)
    ensures HeaderSize(IncompleteHeader(size)) == size <==> size < MSG_INCOMPLETE
  {
    if size >= MSG_INCOMPLETE {
      assert IncompleteHeader(size) == size;
    }
  }

  datatype Entry = Entry(data: seq<byte>, complete: bool)

  ghost predicate Storable(e: Entry) {
    |e.data| < MSG_INCOMPLETE
  }

  ghost function HeaderOf(e: Entry): dword
    requires Storable(e)
  {
    |e.data| + if e.complete then 0 else MSG_INCOMPLETE
  }

  ghost function Span(es: seq<Entry>): nat {
    if es == [] then 0 else MsgNeed(|es[0].data|) + Span(es[1..])
  }

  ghost function Payload(es: seq<Entry>): nat {
    if es == [] then 0 else |es[0].data| + Payload(es[1..])
  }

  /** Message e, header and payload, is stored at offset lo. */
  ghost predicate Holds(b: seq<byte>, lo: nat, e: Entry) {
    && Storable(e)
    && lo + MsgNeed(|e.data|) <= |b|
    && DwordAt(b, lo) == HeaderOf(e)
    && b[lo + HEAD_SIZE..lo + HEAD_SIZE + |e.data|] == e.data
  }

  /** The messages es lie back to back in b[lo..hi]. */
  ghost predicate Tiles(b: seq<byte>, lo: nat, hi: nat, es: seq<Entry>)
    decreases |es|
  {
    if es == [] then lo == hi <= |b|
    else Holds(b, lo, es[0]) && Tiles(b, lo + MsgNeed(|es[0].data|), hi, es[1..])
  }

  lemma {:induction false} TilesBounds(b: seq<byte>, lo: nat, hi: nat, es: seq<Entry>)
    requires Tiles(b, lo, hi, es)
    ensures hi == lo + Span(es) && hi <= |b|
    decreases |es|
  {
    if es != [] {
      TilesBounds(b, lo + MsgNeed(|es[0].data|), hi, es[1..]);
    }
  }

  /** Tiling reads nothing outside [lo, hi). */
  lemma {:induction false} TilesFrame(b: seq<byte>, c: seq<byte>, lo: nat, hi: nat, es: seq<Entry>)
    requires Tiles(b, lo, hi, es)
    requires |b| == |c|
    requires forall k :: lo <= k < hi && k < |b| ==> b[k] == c[k]
    ensures Tiles(c, lo, hi, es)
    decreases |es|
  {
    if es != [] {
      var n := |es[0].data|;
      TilesBounds(b, lo + MsgNeed(n), hi, es[1..]);
      TilesFrame(b, c, lo + MsgNeed(n), hi, es[1..]);
      assert c[lo + HEAD_SIZE..lo + HEAD_SIZE + n] == b[lo + HEAD_SIZE..lo + HEAD_SIZE + n];
    }
  }

  lemma {:induction false} TilesAppend(b: seq<byte>, lo: nat, mid: nat, hi: nat, es: seq<Entry>, fs: seq<Entry>)
    requires Tiles(b, lo, mid, es) && Tiles(b, mid, hi, fs)
    ensures Tiles(b, lo, hi, es + fs)
    decreases |es|
  {
    hide Holds;
    if es == [] {
      assert es + fs == fs;
    } else {
      TilesAppend(b, lo + MsgNeed(|es[0].data|), mid, hi, es[1..], fs);
      assert (es + fs)[0] == es[0] && (es + fs)[1..] == es[1..] + fs;
    }
  }

  lemma {:induction false} TilesSplit(b: seq<byte>, lo: nat, hi: nat, es: seq<Entry>, k: nat)
    requires Tiles(b, lo, hi, es) && k <= |es|
    ensures Tiles(b, lo, lo + Span(es[..k]), es[..k])
    ensures Tiles(b, lo + Span(es[..k]), hi, es[k..])
    decreases k
  {
    hide Holds;
    if k == 0 {
      NothingTiles(b, lo, hi, es);
    } else {
      hide Tiles, Span;
      TilesHead(b, lo, hi, es);
      var at := lo + MsgNeed(|es[0].data|);
      TilesSplit(b, at, hi, es[1..], k - 1);
      TilesCons(b, lo, at + Span(es[1..][..k - 1]), es[0], es[1..][..k - 1]);
      assert [es[0]] + es[1..][..k - 1] == es[..k] && es[1..][k - 1..] == es[k..];
    }
  }

  lemma TilesHead(b: seq<byte>, lo: nat, hi: nat, es: seq<Entry>)
    requires Tiles(b, lo, hi, es) && es != []
    ensures Holds(b, lo, es[0]) && Tiles(b, lo + MsgNeed(|es[0].data|), hi, es[1..])
  {
  }

  lemma TilesCons(b: seq<byte>, lo: nat, hi: nat, e: Entry, es: seq<Entry>)
    requires Holds(b, lo, e) && Tiles(b, lo + MsgNeed(|e.data|), hi, es)
    ensures Tiles(b, lo, hi, [e] + es) && Span([e] + es) == MsgNeed(|e.data|) + Span(es)
  {
    hide Holds;
    assert ([e] + es)[1..] == es;
  }

  lemma NothingTiles(b: seq<byte>, lo: nat, hi: nat, es: seq<Entry>)
    requires Tiles(b, lo, hi, es)
    ensures es[..0] == [] && es[0..] == es && Span([]) == 0 && Tiles(b, lo, lo, [])
  {
    TilesBounds(b, lo, hi, es);
  }

  lemma {:induction false} SpanAppend(es: seq<Entry>, fs: seq<Entry>)
    ensures Span(es + fs) == Span(es) + Span(fs)
    ensures Payload(es + fs) == Payload(es) + Payload(fs)
  {
    if es == [] {
      assert es + fs == fs;
    } else {
      SpanAppend(es[1..], fs);
      assert (es + fs)[1..] == es[1..] + fs;
    }
  }

  // ---------------------------------------------------------------- layout

  /** Where the messages lie: `first` starts at head; once the queue has wrapped,
      `first` ends at the wrap position and `second` starts at the base. */
  datatype Layout = Layout(cap: nat, head: nat, tail: nat, wrap: Option<nat>,
                           first: seq<Entry>, second: seq<Entry>)
  {
    ghost function Contents(): seq<Entry> {
      first + second
    }

    /** End of the area the queue uses: the wrap position, or the end of the buffer. */
    ghost function Limit(): nat {
      if wrap.Some? then wrap.value else cap
    }

    ghost predicate Valid() {
      && tail <= cap
      && if wrap.None? then
           && second == []
           && tail == head + Span(first)
           && (first == [] ==> head == 0)
         else
           && first != [] && second != []
           && tail <= head
           && wrap.value <= cap
           && wrap.value == head + Span(first)
           && tail == Span(second)
    }

    /** [p, p + need) lies in the area in use and no byte of it belongs to a message. */
    ghost predicate Gap(p: nat, need: nat) {
      && p + need <= Limit()
      && if wrap.None? then p + need <= head || tail <= p
         else tail <= p && p + need <= head
    }

    // the four outcomes of queueAllocMsg
    ghost predicate CanAlloc(need: nat) {
      if tail == head then wrap.None? && need <= cap
      else if tail > head then tail + need <= cap || need <= head
      else tail + need <= head
    }

    ghost predicate Wraps(need: nat) {
      tail > head && tail + need > cap
    }

    ghost function AfterAlloc(e: Entry): Layout
      requires CanAlloc(MsgNeed(|e.data|))
    {
      var need := MsgNeed(|e.data|);
      if Wraps(need) then Layout(cap, head, need, Some(tail), first, [e])
      else if wrap.Some? then this.(tail := tail + need, second := second + [e])
      else this.(tail := tail + need, first := first + [e])
    }

    ghost function AfterFree(): Layout
      requires first != []
    {
      var h := head + MsgNeed(|first[0].data|);
      if |first| > 1 then this.(head := h, first := first[1..])
      else if wrap.Some? then Layout(cap, 0, tail, None, second, [])
      else Layout(cap, 0, 0, None, [], [])
    }
  }

  lemma {:induction false} SpanGrows(es: seq<Entry>)
    ensures Span(es) >= 4 * |es|
  {
    if es != [] {
      SpanGrows(es[1..]);
    }
  }

  /** An allocation succeeds exactly when some contiguous run of `need` bytes in the area in
      use is free, wherever it lies; Head = Tail on a wrapped queue means full. */
  lemma AllocIffGap(l: Layout, need: nat)
    requires l.Valid() && need > 0
    ensures l.CanAlloc(need) <==>
            exists p: nat :: l.Gap(p, need)
  {
    SpanGrows(l.first);
    if l.CanAlloc(need) {
      var p := if l.Wraps(need) then 0 else l.tail;
      assert l.Gap(p, need);
    }
  }

  /** The queue wraps exactly when the message does not fit behind Tail, and fits before Head then. */
  lemma WrapsIffNoGapBehind(l: Layout, need: nat)
    requires l.Valid() && need > 0 && l.CanAlloc(need)
    ensures l.Wraps(need) <==> !l.Gap(l.tail, need)
    ensures l.Wraps(need) ==> l.wrap.None? && l.Gap(0, need)
  {
    SpanGrows(l.first);
  }

  lemma RoomInBuffer(l: Layout, need: nat)
    requires l.Valid() && need > 0
    ensures l.CanAlloc(need) ==> (if l.Wraps(need) then 0 else l.tail) + need <= l.cap
    ensures l.wrap.Some? ==> l.tail <= l.head
    ensures l.tail == l.head && l.wrap.None? ==> l.tail == 0
  {
    SpanGrows(l.first);
  }

  lemma AllocAppends(l: Layout, e: Entry)
    requires l.Valid() && l.CanAlloc(MsgNeed(|e.data|))
    ensures l.AfterAlloc(e).Valid()
    ensures l.AfterAlloc(e).Contents() == l.Contents() + [e]
  {
    SpanGrows(l.first);
    SpanAppend(l.first, [e]);
    SpanAppend(l.second, [e]);
    assert Span([e]) == MsgNeed(|e.data|);
  }

  lemma FreeRemovesOldest(l: Layout)
    requires l.Valid() && l.Contents() != []
    ensures l.first != []
    ensures l.AfterFree().Valid()
    ensures l.AfterFree().Contents() == l.Contents()[1..]
    ensures l.AfterFree().cap == l.cap
  {
    SpanGrows(l.first);
    SpanGrows(l.second);
    if |l.first| == 1 {
      assert l.Contents()[1..] == l.second;
    }
  }

  // -------------------------------------------------------------- eviction

  /** The layout after freeing the k oldest messages. */
  ghost function Drop(l: Layout, k: nat): (r: Layout)
    requires l.Valid() && k <= |l.Contents()|
    ensures r.Valid() && r.Contents() == l.Contents()[k..] && r.cap == l.cap
    decreases k
  {
    if k == 0 then l
    else
      FreeRemovesOldest(l);
      Drop(l.AfterFree(), k - 1)
  }

  /** How many messages the allocate-or-evict loop frees. */
  ghost function Evictions(l: Layout, need: nat): (k: nat)
    requires l.Valid()
    ensures k <= |l.Contents()|
    decreases |l.Contents()|
  {
    if l.CanAlloc(need) || l.Contents() == [] then 0
    else
      FreeRemovesOldest(l);
      1 + Evictions(l.AfterFree(), need)
  }

  /** The loop frees the shortest prefix that makes room, and makes room exactly when the
      message fits an empty queue; otherwise it empties the queue. */
  lemma {:induction false} EvictsShortestPrefix(l: Layout, need: nat)
    requires l.Valid() && need > 0
    ensures var k := Evictions(l, need);
            && (Drop(l, k).CanAlloc(need) <==> need <= l.cap)
            && (need > l.cap ==> k == |l.Contents()|)
            && forall j: nat :: j < k ==> !Drop(l, j).CanAlloc(need)
    decreases |l.Contents()|
  {
    if !l.CanAlloc(need) && l.Contents() != [] {
      FreeRemovesOldest(l);
      EvictsShortestPrefix(l.AfterFree(), need);
      forall j: nat | j < Evictions(l, need)
        ensures !Drop(l, j).CanAlloc(need)
      {
        if j > 0 {
          assert Drop(l, j) == Drop(l.AfterFree(), j - 1);
        }
      }
    }
  }

  // ------------------------------------------------------------ the buffer

  /** The bytes b store the messages of layout l at their places. */
  ghost predicate Stored(b: seq<byte>, l: Layout) {
    && l.cap == |b|
    && if l.wrap.None? then Tiles(b, l.head, l.tail, l.first)
       else Tiles(b, l.head, l.wrap.value, l.first) && Tiles(b, 0, l.tail, l.second)
  }

  /** Start of the i-th queued message. */
  ghost function MsgAt(l: Layout, i: nat): nat
    requires i < |l.Contents()|
  {
    if i < |l.first| then l.head + Span(l.first[..i]) else Span(l.second[..i - |l.first|])
  }

  lemma SingleTile(b: seq<byte>, lo: nat, e: Entry)
    requires Holds(b, lo, e)
    ensures Tiles(b, lo, lo + MsgNeed(|e.data|), [e])
  {
    assert Tiles(b, lo + MsgNeed(|e.data|), lo + MsgNeed(|e.data|), []);
    assert [e][1..] == [];
  }

  lemma SpanHead(es: seq<Entry>)
    requires es != []
    ensures Span(es) == MsgNeed(|es[0].data|) + Span(es[1..])
    ensures Payload(es) == |es[0].data| + Payload(es[1..])
    ensures |es| > 1 <==> Span(es[1..]) > 0
  {
    SpanGrows(es[1..]);
  }

  lemma LastMsgAt(l: Layout, e: Entry)
    requires l.Valid() && l.CanAlloc(MsgNeed(|e.data|))
    ensures var r := l.AfterAlloc(e);
            |r.Contents()| > 0 && MsgAt(r, |r.Contents()| - 1) == if l.Wraps(MsgNeed(|e.data|)) then 0 else l.tail
  {
    var r := l.AfterAlloc(e);
    SpanGrows(l.first);
    if r.second != [] {
      assert r.second[..|r.second| - 1] == l.second || |r.second| == 1;
    } else {
      assert r.first[..|r.first| - 1] == l.first;
    }
  }

  lemma SinglePayload(e: Entry)
    ensures Payload([e]) == |e.data|
  {
    assert [e][1..] == [];
  }

  lemma HeaderHolds(b: seq<byte>, at: nat, e: Entry)
    requires Storable(e) && at + MsgNeed(|e.data|) <= |b|
    requires b[at..at + HEAD_SIZE] == DwordBytes(HeaderOf(e))
    requires b[at + HEAD_SIZE..at + HEAD_SIZE + |e.data|] == e.data
    ensures Holds(b, at, e)
  {
    var h := DwordBytes(HeaderOf(e));
    var c := b[at..at + HEAD_SIZE];
    assert c[0] == b[at] && c[1] == b[at + 1] && c[2] == b[at + 2] && c[3] == b[at + 3];
  }

  /** Filling in a payload keeps the header. */
  lemma FillHolds(b: seq<byte>, c: seq<byte>, at: nat, m: Entry, data: seq<byte>)
    requires Holds(b, at, m) && |data| == |m.data| && |b| == |c|
    requires c[at..at + HEAD_SIZE] == b[at..at + HEAD_SIZE]
    requires c[at + HEAD_SIZE..at + HEAD_SIZE + |data|] == data
    ensures Holds(c, at, Entry(data, m.complete))
  {
    var x, y := c[at..at + HEAD_SIZE], b[at..at + HEAD_SIZE];
    assert x[0] == c[at] && x[1] == c[at + 1] && x[2] == c[at + 2] && x[3] == c[at + 3];
    assert y[0] == b[at] && y[1] == b[at + 1] && y[2] == b[at + 2] && y[3] == b[at + 3];
  }

  lemma HeaderRead(b: seq<byte>, at: nat, e: Entry)
    requires Holds(b, at, e)
    ensures Storable(e) && at + MsgNeed(|e.data|) <= |b|
    ensures DwordAt(b, at) == HeaderOf(e) && HeaderSize(DwordAt(b, at)) == |e.data|
    ensures b[at + HEAD_SIZE..at + HEAD_SIZE + |e.data|] == e.data
  {
  }

  lemma AllocStores(b: seq<byte>, c: seq<byte>, l: Layout, e: Entry)
    requires l.Valid() && Stored(b, l) && l.CanAlloc(MsgNeed(|e.data|))
    requires |b| == |c|
    requires var at := if l.Wraps(MsgNeed(|e.data|)) then 0 else l.tail;
             && Holds(c, at, e)
             && forall k :: 0 <= k < |b| && !(at <= k < at + MsgNeed(|e.data|)) ==> b[k] == c[k]
    ensures Stored(c, l.AfterAlloc(e))
  {
    hide Tiles, Holds;
    var need := MsgNeed(|e.data|);
    SpanGrows(l.first);
    if l.Wraps(need) {
      SingleTile(c, 0, e);
      TilesFrame(b, c, l.head, l.tail, l.first);
    } else {
      SingleTile(c, l.tail, e);
      if l.wrap.Some? {
        TilesFrame(b, c, l.head, l.wrap.value, l.first);
        TilesFrame(b, c, 0, l.tail, l.second);
        TilesAppend(c, 0, l.tail, l.tail + need, l.second, [e]);
      } else {
        TilesFrame(b, c, l.head, l.tail, l.first);
        TilesAppend(c, l.head, l.tail, l.tail + need, l.first, [e]);
      }
    }
  }

  /** Writing only a header at the allocated place stores the new, incomplete message. */
  lemma PlacedMessage(b: seq<byte>, c: seq<byte>, l: Layout, size: msgsize, at: nat)
    requires l.Valid() && Stored(b, l) && l.CanAlloc(MsgNeed(size))
    requires at == (if l.Wraps(MsgNeed(size)) then 0 else l.tail) && at + MsgNeed(size) <= |b|
    requires c == b[..at] + DwordBytes(IncompleteHeader(size)) + b[at + HEAD_SIZE..]
    ensures |c| == |b| && Stored(c, l.AfterAlloc(Entry(c[at + HEAD_SIZE..at + HEAD_SIZE + size], false)))
  {
    hide Tiles, Holds, Span, Stored, Layout.Valid, Layout.AfterAlloc, Layout.Wraps, Layout.CanAlloc, DwordAt;
    var e := Entry(c[at + HEAD_SIZE..at + HEAD_SIZE + size], false);
    HeaderHolds(c, at, e);
    AllocStores(b, c, l, e);
  }

  lemma HeaderFlag(e: Entry)
    requires Storable(e)
    ensures HasIncompleteFlag(HeaderOf(e)) <==> !e.complete
    ensures HeaderSize(HeaderOf(e)) == |e.data|
  {
  }

  /** What the header at Head says, when there is a message. */
  lemma FrontMessage(b: seq<byte>, l: Layout)
    requires l.Valid() && Stored(b, l)
    ensures l.head == l.tail && l.wrap.None? <==> l.Contents() == []
    ensures l.Contents() != [] ==>
              var m := l.Contents()[0]; var n := |m.data|;
              && l.first != [] && l.first[0] == m && l.head + MsgNeed(n) <= |b|
              && (HasIncompleteFlag(DwordAt(b, l.head)) <==> !m.complete)
              && HeaderSize(DwordAt(b, l.head)) == n
              && (m.complete ==> DwordAt(b, l.head) == n)
              && b[l.head + HEAD_SIZE..l.head + HEAD_SIZE + n] == m.data
  {
    SpanGrows(l.first);
    hide DwordAt;
    if l.Contents() != [] {
      HeaderFlag(l.first[0]);
    }
  }

  lemma FreeStores(b: seq<byte>, l: Layout)
    requires l.Valid() && Stored(b, l) && l.Contents() != []
    ensures l.first != [] && Holds(b, l.head, l.first[0])
    ensures Stored(b, l.AfterFree())
  {
    SpanGrows(l.first);
  }

  lemma {:induction false} TilesReplace(b: seq<byte>, c: seq<byte>, lo: nat, hi: nat, es: seq<Entry>, i: nat, e: Entry)
    requires Tiles(b, lo, hi, es) && i < |es| && |e.data| == |es[i].data|
    requires |b| == |c|
    requires var at := lo + Span(es[..i]);
             && Holds(c, at, e)
             && forall k :: 0 <= k < |b| && !(at <= k < at + MsgNeed(|e.data|)) ==> b[k] == c[k]
    ensures Tiles(c, lo, hi, es[i := e])
    decreases i
  {
    hide Holds;
    var mid := lo + MsgNeed(|es[0].data|);
    TilesBounds(b, mid, hi, es[1..]);
    if i == 0 {
      TilesFrame(b, c, mid, hi, es[1..]);
      assert es[0 := e][1..] == es[1..];
    } else {
      assert es[..i][0] == es[0] && es[..i][1..] == es[1..][..i - 1];
      TilesReplace(b, c, mid, hi, es[1..], i - 1, e);
      assert es[i := e][0] == es[0] && es[i := e][1..] == es[1..][i - 1 := e];
      HoldsFrame(b, c, lo, es[0]);
    }
  }

  /** A message reads nothing outside its own bytes. */
  lemma HoldsFrame(b: seq<byte>, c: seq<byte>, lo: nat, e: Entry)
    requires Holds(b, lo, e) && |b| == |c|
    requires forall k :: lo <= k < lo + MsgNeed(|e.data|) && k < |b| ==> b[k] == c[k]
    ensures Holds(c, lo, e)
  {
    assert c[lo + HEAD_SIZE..lo + HEAD_SIZE + |e.data|] == b[lo + HEAD_SIZE..lo + HEAD_SIZE + |e.data|];
  }

  lemma {:induction false} SpanReplace(es: seq<Entry>, i: nat, e: Entry)
    requires i < |es| && |e.data| == |es[i].data|
    ensures Span(es[i := e]) == Span(es) && Payload(es[i := e]) == Payload(es)
  {
    assert es[i := e] == es[..i] + ([e] + es[i + 1..]) && es == es[..i] + ([es[i]] + es[i + 1..]);
    SpanAppend(es[..i], [e] + es[i + 1..]);
    SpanAppend(es[..i], [es[i]] + es[i + 1..]);
    SpanAppend([e], es[i + 1..]);
    SpanAppend([es[i]], es[i + 1..]);
  }

  /** The layout with the i-th message replaced by one of the same size. */
  ghost function Replace(l: Layout, i: nat, e: Entry): Layout
    requires i < |l.Contents()|
  {
    if i < |l.first| then l.(first := l.first[i := e]) else l.(second := l.second[i - |l.first| := e])
  }

  lemma ReplaceKeepsPlace(l: Layout, i: nat, e: Entry)
    requires i < |l.Contents()|
    ensures i < |Replace(l, i, e).Contents()| && MsgAt(Replace(l, i, e), i) == MsgAt(l, i)
  {
    if i < |l.first| {
      assert l.first[i := e][..i] == l.first[..i];
    } else {
      assert l.second[i - |l.first| := e][..i - |l.first|] == l.second[..i - |l.first|];
    }
  }

  lemma ReplaceStores(b: seq<byte>, c: seq<byte>, l: Layout, i: nat, e: Entry)
    requires l.Valid() && Stored(b, l) && i < |l.Contents()| && |e.data| == |l.Contents()[i].data|
    requires |b| == |c| && Holds(c, MsgAt(l, i), e)
    requires forall k :: 0 <= k < |b| && !(MsgAt(l, i) <= k < MsgAt(l, i) + MsgNeed(|e.data|)) ==> b[k] == c[k]
    ensures Replace(l, i, e).Valid() && Stored(c, Replace(l, i, e))
    ensures Replace(l, i, e).Contents() == l.Contents()[i := e]
    ensures Payload(Replace(l, i, e).Contents()) == Payload(l.Contents())
  {
    hide Tiles, Holds, Span, Payload;
    MsgInside(b, l, i);
    SpanReplace(l.Contents(), i, e);
    if i < |l.first| {
      SpanReplace(l.first, i, e);
      TilesReplace(b, c, l.head, if l.wrap.Some? then l.wrap.value else l.tail, l.first, i, e);
      if l.wrap.Some? {
        TilesFrame(b, c, 0, l.tail, l.second);
      }
    } else {
      SpanReplace(l.second, i - |l.first|, e);
      TilesReplace(b, c, 0, l.tail, l.second, i - |l.first|, e);
      TilesFrame(b, c, l.head, l.wrap.value, l.first);
    }
  }

  /** The i-th message is stored where MsgAt says, inside its part of the buffer. */
  lemma MsgInside(b: seq<byte>, l: Layout, i: nat)
    requires l.Valid() && Stored(b, l) && i < |l.Contents()|
    ensures Holds(b, MsgAt(l, i), l.Contents()[i])
    ensures i < |l.first| ==> l.head <= MsgAt(l, i) && MsgAt(l, i) + MsgNeed(|l.Contents()[i].data|) <= l.head + Span(l.first)
    ensures i >= |l.first| ==> MsgAt(l, i) + MsgNeed(|l.Contents()[i].data|) <= l.tail <= l.head
  {
    hide Tiles, Holds, Span;
    if i < |l.first| {
      TileInside(b, l.head, if l.wrap.Some? then l.wrap.value else l.tail, l.first, i);
    } else {
      TileInside(b, 0, l.tail, l.second, i - |l.first|);
    }
  }

  lemma TileInside(b: seq<byte>, lo: nat, hi: nat, es: seq<Entry>, k: nat)
    requires Tiles(b, lo, hi, es) && k < |es|
    ensures var at := lo + Span(es[..k]); Holds(b, at, es[k]) && at + MsgNeed(|es[k].data|) <= hi == lo + Span(es)
  {
    hide Tiles, Holds, Span;
    TilesSplit(b, lo, hi, es, k);
    var at := lo + Span(es[..k]);
    TilesHead(b, at, hi, es[k..]);
    TilesBounds(b, at + MsgNeed(|es[k].data|), hi, es[k..][1..]);
    TilesBounds(b, lo, hi, es);
  }

  class MsgQueue {
    const buffer: array<byte>
    var head: nat
    var tail: nat
    var wrap: Option<nat>
    var count: nat
    ghost var first: seq<Entry>
    ghost var second: seq<Entry>

    ghost function State(): Layout
      reads this
    {
      Layout(buffer.Length, head, tail, wrap, first, second)
    }

    ghost function Contents(): seq<Entry>
      reads this
    {
      State().Contents()
    }

    ghost predicate Valid()
      reads this, buffer
    {
      && State().Valid()
      && Stored(buffer[..], State())
      && count == Payload(Contents())
    }

    // queueInit
    constructor (buffer: array<byte>)
      ensures Valid() && this.buffer == buffer && Contents() == []
    {
      this.buffer := buffer;
      head, tail, wrap, count := 0, 0, None, 0;
      first, second := [], [];
    }

    method StoreHeader(at: nat, v: dword)
      requires at + HEAD_SIZE <= buffer.Length
      modifies buffer
      ensures buffer[..] == old(buffer[..])[..at] + DwordBytes(v) + old(buffer[..])[at + HEAD_SIZE..]
    {
      var b := DwordBytes(v);
      buffer[at], buffer[at + 1], buffer[at + 2], buffer[at + 3] := b[0], b[1], b[2], b[3];
    }

    /** What queueAllocMsg on layout l achieves: the new message is the last one of the
        queue and incomplete, p is its payload; without room nothing changes. */
    ghost predicate Placed(l: Layout, size: msgsize, p: Option<nat>)
      reads this, buffer
    {
      && (p.Some? <==> l.CanAlloc(MsgNeed(size)))
      && (p.None? ==> State() == l)
      && (p.Some? ==>
            && p.value + size <= buffer.Length
            && State() == l.AfterAlloc(Entry(buffer[p.value..p.value + size], false))
            && |Contents()| > 0
            && MsgAt(State(), |Contents()| - 1) + HEAD_SIZE == p.value)
    }

    // queueAllocMsg: the offset of the payload, or None
    method Alloc(size: msgsize) returns (r: Option<nat>)
      requires Valid()
      modifies this, buffer
      ensures Valid()
      ensures Placed(old(State()), size, r)
      ensures r.None? ==> buffer[..] == old(buffer[..])
    {
      RoomInBuffer(State(), MsgNeed(size));
      var ok, wraps := ChoosePlace(MsgNeed(size));
      if ok {
        r := Place(size, wraps);
      } else {
        r := None;
      }
    }

    /** The branches of queueAllocMsg up to its label alloc. */
    method ChoosePlace(need: nat) returns (ok: bool, wraps: bool)
      requires wrap.Some? ==> tail <= head
      ensures ok <==> State().CanAlloc(need)
      ensures ok ==> (wraps <==> State().Wraps(need))
    {
      if tail == head {
        return wrap.None? && need <= buffer.Length, false;
      }
      if tail > head {
        if tail + need <= buffer.Length {
          return true, false;
        }
        return need <= head, true;
      }
      return tail + need <= head, false;
    }

    /** queueAllocMsg from its label alloc on, after wrapping the queue if it must. */
    method Place(size: msgsize, wraps: bool) returns (r: Option<nat>)
      requires Valid() && State().CanAlloc(MsgNeed(size)) && (wraps <==> State().Wraps(MsgNeed(size)))
      modifies this, buffer
      ensures Valid() && r.Some? && Placed(old(State()), size, r)
    {
      ghost var l, b := State(), buffer[..];
      assert l.Valid() && Stored(b, l) && count == Payload(l.Contents());
      RoomInBuffer(l, MsgNeed(size));
      hide Stored, Payload, MsgAt, Layout.AfterAlloc, Layout.Valid, Layout.Contents, Layout.CanAlloc, Layout.Wraps;
      hide MsgQueue.Valid, DwordBytes, IncompleteHeader, MsgNeed, Tiles, Holds, Span, DwordAt;
      if wraps {
        wrap, tail := Some(tail), 0;
      }
      var at := tail;
      StoreHeader(at, IncompleteHeader(size));
      tail := tail + MsgNeed(size);
      count := count + size;
      Enqueue(l, b, at, size);
      return Some(at + HEAD_SIZE);
    }

    /** Records the message just placed at `at` in the ghost layout. */
    ghost method Enqueue(l: Layout, b: seq<byte>, at: nat, size: msgsize)
      requires l.Valid() && Stored(b, l) && l.CanAlloc(MsgNeed(size))
      requires l.cap == |b| == buffer.Length
      requires at == if l.Wraps(MsgNeed(size)) then 0 else l.tail
      requires buffer[..] == b[..at] + DwordBytes(IncompleteHeader(size)) + b[at + HEAD_SIZE..]
      requires head == l.head && tail == at + MsgNeed(size)
      requires wrap == if l.Wraps(MsgNeed(size)) then Some(l.tail) else l.wrap
      requires count == Payload(l.Contents()) + size
      modifies this`first, this`second
      ensures Valid()
      ensures at + HEAD_SIZE + size <= buffer.Length
      ensures State() == l.AfterAlloc(Entry(buffer[at + HEAD_SIZE..at + HEAD_SIZE + size], false))
      ensures |Contents()| > 0 && MsgAt(State(), |Contents()| - 1) == at
    {
      hide Tiles, Holds, Stored, Span, Payload, MsgAt, DwordBytes;
      RoomInBuffer(l, MsgNeed(size));
      PlacedMessage(b, buffer[..], l, size, at);
      var e := Entry(buffer[at + HEAD_SIZE..at + HEAD_SIZE + size], false);
      first, second := l.AfterAlloc(e).first, l.AfterAlloc(e).second;
      AllocAppends(l, e);
      LastMsgAt(l, e);
      SpanAppend(l.Contents(), [e]);
      SinglePayload(e);
    }

    // queueFreeMsg
    method Free()
      requires Valid() && Contents() != []
      modifies this
      ensures Valid()
      ensures State() == old(State()).AfterFree()
      ensures Contents() == old(Contents())[1..]
    {
      hide Tiles, Holds, Stored, Span, Payload, DwordAt, HeaderSize;
      ghost var l := State();
      FrontMessage(buffer[..], l);
      FreeStores(buffer[..], l);
      FreeRemovesOldest(l);
      SpanHead(l.first);
      SpanHead(l.Contents());
      var size := HeaderSize(DwordAt(buffer[..], head));
      head := head + MsgNeed(size);
      count := count - size;
      if wrap.Some? {
        if head >= wrap.value {
          head := 0;
          wrap := None;
        }
      } else if head >= tail {
        head, tail := 0, 0;
      }
      first, second := l.AfterFree().first, l.AfterFree().second;
    }

    // queuePeekMsg: offset and size of the first message's payload, or None
    method Peek() returns (r: Option<nat>, size: word)
      requires Valid()
      ensures r.Some? <==> Contents() != [] && Contents()[0].complete
      ensures r.Some? ==> r.value + size <= buffer.Length && buffer[..][r.value..r.value + size] == Contents()[0].data
    {
      FrontMessage(buffer[..], State());
      hide Tiles, Holds, Stored, Span, Payload, DwordAt, HasIncompleteFlag, Layout.Valid, MsgQueue.Valid;
      if (head == tail && wrap.None?) || HasIncompleteFlag(DwordAt(buffer[..], head)) {
        return None, 0;
      }
      return Some(head + HEAD_SIZE), DwordAt(buffer[..], head);
    }

    /** The caller's write of the whole payload of message i. */
    method Fill(p: nat, data: seq<byte>, ghost i: nat)
      requires Valid() && i < |Contents()| && |Contents()[i].data| == |data|
      requires p == MsgAt(State(), i) + HEAD_SIZE
      modifies this`first, this`second, buffer
      ensures Valid()
      ensures State() == Replace(old(State()), i, Entry(data, old(Contents())[i].complete))
      ensures Contents() == old(Contents())[i := Entry(data, old(Contents())[i].complete)]
      ensures MsgAt(State(), i) == old(MsgAt(State(), i))
    {
      hide Tiles, Holds, Stored, Span, Payload, MsgAt;
      ghost var b, l, at := buffer[..], State(), MsgAt(State(), i);
      MsgInside(b, l, i);
      HeaderRead(b, at, l.Contents()[i]);
      forall k | 0 <= k < |data| {
        buffer[p + k] := data[k];
      }
      ghost var e := Entry(data, l.Contents()[i].complete);
      assert buffer[..][at..at + HEAD_SIZE] == b[at..at + HEAD_SIZE];
      FillHolds(b, buffer[..], at, l.Contents()[i], data);
      ReplaceKeepsPlace(l, i, e);
      ReplaceStores(b, buffer[..], l, i, e);
      first, second := Replace(l, i, e).first, Replace(l, i, e).second;
    }

    // queueCompleteMsg
    method Complete(p: nat, ghost i: nat)
      requires Valid() && i < |Contents()|
      requires p == MsgAt(State(), i) + HEAD_SIZE
      modifies this`first, this`second, buffer
      ensures Valid()
      ensures State() == Replace(old(State()), i, Entry(old(Contents())[i].data, true))
      ensures Contents() == old(Contents())[i := Entry(old(Contents())[i].data, true)]
    {
      hide Tiles, Holds, Stored, Span, Payload, MsgAt, DwordAt, DwordBytes;
      ghost var b, l, at := buffer[..], State(), MsgAt(State(), i);
      ghost var m := l.Contents()[i];
      MsgInside(b, l, i);
      HeaderRead(b, at, m);
      StoreHeader(p - HEAD_SIZE, HeaderSize(DwordAt(buffer[..], p - HEAD_SIZE)));
      ghost var e := Entry(m.data, true);
      assert buffer[..][at + HEAD_SIZE..] == b[at + HEAD_SIZE..];
      assert buffer[..][at + HEAD_SIZE..at + HEAD_SIZE + |m.data|] == m.data;
      HeaderHolds(buffer[..], at, e);
      ReplaceStores(b, buffer[..], l, i, e);
      first, second := Replace(l, i, e).first, Replace(l, i, e).second;
    }
  }

  // ------------------------------------------------------------- the log

  /** The messages carry consecutive sequence numbers, the newest one before `next`. */
  ghost predicate Consecutive(es: seq<Entry>, next: dword) {
    forall i :: 0 <= i < |es| ==>
      |es[i].data| >= 4 && DwordAt(es[i].data, 0) == (next - |es| + i) % 0x1_0000_0000
  }

  ghost predicate AllComplete(es: seq<Entry>) {
    forall i :: 0 <= i < |es| ==> es[i].complete
  }

  function NextSequence(n: dword): dword {
    (n + 1) % 0x1_0000_0000
  }

  lemma LogKeepsConsecutive(es: seq<Entry>, next: dword, k: nat, rest: seq<byte>)
    requires Consecutive(es, next) && k <= |es|
    ensures Consecutive(es[k..], next)
    ensures Consecutive(es[k..] + [Entry(DwordBytes(next) + rest, true)], NextSequence(next))
  {
    var e := Entry(DwordBytes(next) + rest, true);
    DwordPrefix(DwordBytes(next), rest);
    hide DwordAt, DwordBytes;
    var fs := es[k..] + [e];
    forall i | 0 <= i < |fs|
      ensures |fs[i].data| >= 4 && DwordAt(fs[i].data, 0) == (NextSequence(next) - |fs| + i) % 0x1_0000_0000
    {
      SequenceBefore(next, i - |es| + k);
      if i < |es| - k {
        assert fs[i] == es[k + i];
      }
    }
  }

  lemma SequenceBefore(next: dword, j: int)
    ensures (NextSequence(next) - 1 + j) % 0x1_0000_0000 == (next + j) % 0x1_0000_0000
  {
  }

  lemma DwordPrefix(b: seq<byte>, c: seq<byte>)
    requires |b| == 4
    ensures DwordAt(b + c, 0) == DwordAt(b, 0)
  {
  }

  /** The debug queue together with dbg_sequence, used under its spin lock: messages are
      allocated, filled and completed in one step, as in DI_register and DI_format. */
  class TraceLog {
    const queue: MsgQueue
    var sequence: dword
    var busy: bool // dbg_q_busy: the first message is being read, under the lock

    ghost predicate Valid()
      reads this, queue, queue.buffer
    {
      && queue.Valid()
      && AllComplete(queue.Contents())
      && Consecutive(queue.Contents(), sequence)
      && (busy ==> queue.Contents() != [])
    }

    constructor (buffer: array<byte>)
      ensures Valid() && queue.Contents() == [] && sequence == 0 && !busy
      ensures queue.buffer == buffer && fresh(queue)
    {
      queue := new MsgQueue(buffer);
      sequence, busy := 0, false;
    }

    /** Logs one message: its sequence number followed by the rest of the header and the data.  While
        a message is being read the lock is held, so nothing is logged. */
    method Log(rest: seq<byte>) returns (ok: bool)
      requires Valid() && !busy && 4 + |rest| < MSG_INCOMPLETE
      modifies this, queue, queue.buffer
      ensures Valid() && !busy
      ensures ok <==> MsgNeed(4 + |rest|) <= queue.buffer.Length
      ensures ok ==>
                && sequence == NextSequence(old(sequence))
                && queue.Contents() ==
                     old(queue.Contents())[Evictions(old(queue.State()), MsgNeed(4 + |rest|))..]
                     + [Entry(DwordBytes(old(sequence)) + rest, true)]
      ensures !ok ==> sequence == old(sequence) && queue.Contents() == []
    {
      hide Tiles, Holds, Stored, Span, Payload, MsgAt, DwordAt, DwordBytes, Consecutive, Layout.Valid;
      ghost var l, need := queue.State(), MsgNeed(4 + |rest|);
      EvictsShortestPrefix(l, need);
      LogKeepsConsecutive(l.Contents(), sequence, Evictions(l, need), rest);
      var p := EvictUntilRoom(4 + |rest|);
      if p.None? {
        return false;
      }
      Commit(p.value, Drop(l, Evictions(l, need)), rest);
      return true;
    }

    /** Fills and completes the message just allocated, and counts it. */
    method Commit(p: nat, ghost l: Layout, rest: seq<byte>)
      requires queue.Valid() && l.Valid() && AllComplete(l.Contents())
      requires 4 + |rest| < MSG_INCOMPLETE && queue.Placed(l, 4 + |rest|, Some(p))
      modifies this`sequence, queue`first, queue`second, queue.buffer
      ensures queue.Valid()
      ensures queue.Contents() == l.Contents() + [Entry(DwordBytes(old(sequence)) + rest, true)]
      ensures sequence == NextSequence(old(sequence))
    {
      hide Tiles, Holds, Stored, Span, Payload, MsgAt, DwordAt, DwordBytes, Layout.Valid, Layout.AfterAlloc;
      AllocAppends(l, Entry(queue.buffer[p..p + 4 + |rest|], false));
      ghost var i := |queue.Contents()| - 1;
      queue.Fill(p, DwordBytes(sequence) + rest, i);
      queue.Complete(p, i);
      sequence := NextSequence(sequence);
    }

    /** The loop around queueAllocMsg: frees the oldest message until there is room. */
    method EvictUntilRoom(size: msgsize) returns (p: Option<nat>)
      requires queue.Valid() && AllComplete(queue.Contents())
      modifies queue, queue.buffer
      ensures queue.Valid()
      ensures var l := old(queue.State()); var d := Drop(l, Evictions(l, MsgNeed(size)));
              queue.Placed(d, size, p) && (p.None? ==> d.Contents() == [])
    {
      hide Tiles, Holds, Stored, Span, Payload, MsgAt, DwordAt, DwordBytes, Layout.AfterAlloc, Layout.AfterFree, Layout.CanAlloc;
      hide Evictions;
      ghost var l, need := queue.State(), MsgNeed(size);
      ghost var k := 0;
      p := queue.Alloc(size);
      while p.None?
        invariant queue.Valid()
        invariant k <= |l.Contents()|
        invariant Evictions(l, need) == k + Evictions(Drop(l, k), need)
        invariant queue.Placed(Drop(l, k), size, p)
        decreases |l.Contents()| - k, p.None?
      {
        var m, _ := queue.Peek();
        if m.None? {
          break;
        }
        DropStep(l, k);
        EvictionsStep(Drop(l, k), need);
        queue.Free();
        k := k + 1;
        p := queue.Alloc(size);
      }
      EvictionsStep(Drop(l, k), need);
    }

    // diva_maint_get_message: the first message, which stays in the queue, and the lock with it
    method GetMessage() returns (r: Option<nat>, size: word)
      requires Valid()
      modifies this`busy
      ensures Valid()
      ensures r.Some? <==> !old(busy) && queue.Contents() != []
      ensures r.Some? ==> r.value + size <= queue.buffer.Length
                          && queue.buffer[..][r.value..r.value + size] == queue.Contents()[0].data
      ensures busy <==> old(busy) || r.Some?
    {
      hide Tiles, Holds, Stored, Span, Payload, MsgAt, DwordAt, DwordBytes, Consecutive;
      if busy {
        return None, 0;
      }
      r, size := queue.Peek();
      busy := r.Some?;
    }

    // diva_maint_ack_message: the message is taken out, or left for the next reader
    method AckMessage(release: bool)
      requires Valid()
      modifies this`busy, queue
      ensures Valid() && !busy && sequence == old(sequence)
      ensures queue.Contents() == if old(busy) && release then old(queue.Contents())[1..] else old(queue.Contents())
    {
      hide Tiles, Holds, Stored, Span, Payload, MsgAt, DwordAt, DwordBytes, Consecutive;
      if !busy {
        return;
      }
      if release {
        LogKeepsConsecutive(queue.Contents(), sequence, 1, []);
        queue.Free();
      }
      busy := false;
    }
  }

  lemma {:induction false} DropStep(l: Layout, k: nat)
    requires l.Valid() && k < |l.Contents()|
    ensures Drop(l, k).first != []
    ensures Drop(l, k + 1) == Drop(l, k).AfterFree()
    decreases k
  {
    FreeRemovesOldest(l);
    if k > 0 {
      DropStep(l.AfterFree(), k - 1);
    }
  }

  lemma EvictionsStep(l: Layout, need: nat)
    requires l.Valid()
    ensures l.CanAlloc(need) || l.Contents() == [] ==> Evictions(l, need) == 0
    ensures !l.CanAlloc(need) && l.Contents() != [] ==>
              l.first != [] && l.AfterFree().Valid() && Evictions(l, need) == 1 + Evictions(l.AfterFree(), need)
  {
    hide Layout.CanAlloc;
    if l.Contents() != [] {
      FreeRemovesOldest(l);
    }
    hide Layout.AfterFree, Layout.Valid, Layout.Contents;
  }
}
