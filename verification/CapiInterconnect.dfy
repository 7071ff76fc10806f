/** The line-interconnect table of kernel/capifunc.c: a square matrix with a row and a column for
    every channel.  Adding an adapter inserts a band of rows and columns, removing it deletes
    the band. */
module CapiInterconnect {
  import opened Machine

  /** A row: the adapter that owns the channel, the other fields of LI_CONFIG, and the entries. */
  datatype Row = Row(owner: nat, fields: seq<byte>, flags: seq<byte>, coefs: seq<byte>)

  /** An adapter slot; it is active when it has a request function. */
  datatype Slot = Slot(active: bool, base: int, channels: nat)

  const FREE_SLOT := Slot(false, 0, 0)

  function Zero(n: nat): (z: seq<byte>)
    ensures |z| == n
  {
    seq(n, _ => 0)
  }

  // ------------------------------------------------------------- the matrix

  function InsertIn(s: seq<byte>, base: nat, n: nat): (r: seq<byte>)
    requires base <= |s|
    ensures |r| == |s| + n
  {
    s[..base] + Zero(n) + s[base..]
  }

  function DeleteIn(s: seq<byte>, base: nat, n: nat): (r: seq<byte>)
    requires base + n <= |s|
    ensures |r| == |s| - n
  {
    s[..base] + s[base + n..]
  }

  function Widened(r: Row, base: nat, n: nat): Row
    requires base <= |r.flags| && base <= |r.coefs|
  {
    r.(flags := InsertIn(r.flags, base, n), coefs := InsertIn(r.coefs, base, n))
  }

  function Narrowed(r: Row, base: nat, n: nat): Row
    requires base + n <= |r.flags| && base + n <= |r.coefs|
  {
    r.(flags := DeleteIn(r.flags, base, n), coefs := DeleteIn(r.coefs, base, n))
  }

  predicate Square(t: seq<Row>) {
    forall i :: 0 <= i < |t| ==> |t[i].flags| == |t[i].coefs| == |t|
  }

  function NewRow(owner: nat, k: nat): Row {
    Row(owner, [], Zero(k), Zero(k))
  }

  /** Row i after a band of n rows and columns of zeros is inserted at base. */
  function InsertedRow(t: seq<Row>, base: nat, n: nat, owner: nat, i: nat): Row
    requires Square(t) && base <= |t| && i < |t| + n
  {
    if base <= i < base + n then NewRow(owner, |t| + n) else Widened(t[if i < base then i else i - n], base, n)
  }

  function InsertBand(t: seq<Row>, base: nat, n: nat, owner: nat): (u: seq<Row>)
    requires Square(t) && base <= |t|
    ensures |u| == |t| + n && forall i :: 0 <= i < |u| ==> u[i] == InsertedRow(t, base, n, owner, i)
  {
    seq(|t| + n, i requires 0 <= i < |t| + n => InsertedRow(t, base, n, owner, i))
  }

  /** Row i after the band of n rows and columns at base is deleted. */
  function DeletedRow(t: seq<Row>, base: nat, n: nat, i: nat): Row
    requires Square(t) && base + n <= |t| && i + n < |t|
  {
    Narrowed(t[if i < base then i else i + n], base, n)
  }

  function DeleteBand(t: seq<Row>, base: nat, n: nat): (u: seq<Row>)
    requires Square(t) && base + n <= |t|
    ensures |u| == |t| - n && forall i :: 0 <= i < |u| ==> u[i] == DeletedRow(t, base, n, i)
  {
    seq(|t| - n, i requires 0 <= i < |t| - n => DeletedRow(t, base, n, i))
  }

  lemma InsertIsSquare(t: seq<Row>, base: nat, n: nat, owner: nat)
    requires Square(t) && base <= |t|
    ensures Square(InsertBand(t, base, n, owner))
  {
  }

  lemma DeleteIsSquare(t: seq<Row>, base: nat, n: nat)
    requires Square(t) && base + n <= |t|
    ensures Square(DeleteBand(t, base, n))
  {
  }

  /** To insert a band and delete it restores the table. */
  lemma DeleteUndoesInsert(t: seq<Row>, base: nat, n: nat, owner: nat)
    requires Square(t) && base <= |t|
    ensures Square(InsertBand(t, base, n, owner))
    ensures DeleteBand(InsertBand(t, base, n, owner), base, n) == t
  {
    var u := InsertBand(t, base, n, owner);
    InsertIsSquare(t, base, n, owner);
    forall i | 0 <= i < |t| ensures DeleteBand(u, base, n)[i] == t[i] {
      NarrowUndoesWiden(t[i], base, n);
    }
  }

  lemma NarrowUndoesWiden(r: Row, base: nat, n: nat)
    requires base <= |r.flags| && base <= |r.coefs|
    ensures Narrowed(Widened(r, base, n), base, n) == r
  {
    assert DeleteIn(InsertIn(r.flags, base, n), base, n) == r.flags;
    assert DeleteIn(InsertIn(r.coefs, base, n), base, n) == r.coefs;
  }

  /** Where row or column i is after the insertion. */
  function Moved(i: nat, base: nat, n: nat): nat {
    if i < base then i else i + n
  }

  /** Entries between old channels keep their values; all entries of the band are zero. */
  lemma InsertKeepsEntries(t: seq<Row>, base: nat, n: nat, owner: nat, i: nat, j: nat)
    requires Square(t) && base <= |t| && i < |t| && j < |t|
    ensures Square(InsertBand(t, base, n, owner))
    ensures var u := InsertBand(t, base, n, owner); var (k, l) := (Moved(i, base, n), Moved(j, base, n));
            u[k].flags[l] == t[i].flags[j] && u[k].coefs[l] == t[i].coefs[j] && u[k].owner == t[i].owner && u[k].fields == t[i].fields
  {
    InsertIsSquare(t, base, n, owner);
    InsertedAt(t[i].flags, base, n, j);
    InsertedAt(t[i].coefs, base, n, j);
  }

  lemma InsertedAt(s: seq<byte>, base: nat, n: nat, j: nat)
    requires base <= |s|
    ensures j < |s| ==> InsertIn(s, base, n)[Moved(j, base, n)] == s[j]
    ensures base <= j < base + n ==> InsertIn(s, base, n)[j] == 0
  {
  }

  lemma InsertedEntriesAreZero(t: seq<Row>, base: nat, n: nat, owner: nat, k: nat, l: nat)
    requires Square(t) && base <= |t| && k < |t| + n && l < |t| + n
    requires base <= k < base + n || base <= l < base + n
    ensures Square(InsertBand(t, base, n, owner))
    ensures var u := InsertBand(t, base, n, owner); u[k].flags[l] == 0 && u[k].coefs[l] == 0
  {
    InsertIsSquare(t, base, n, owner);
    if !(base <= k < base + n) {
      var r := t[if k < base then k else k - n];
      InsertedAt(r.flags, base, n, l);
      InsertedAt(r.coefs, base, n, l);
    }
  }

  // ------------------------------------------------------------- the slots

  /** Channels of the active adapters before slot i. */
  function Before(s: seq<Slot>, i: nat): nat
    requires i <= |s|
  {
    if i == 0 then 0 else Before(s, i - 1) + if s[i - 1].active then s[i - 1].channels else 0
  }

  /** The ranges of the active adapters tile the channels in slot order. */
  ghost predicate Tiled(s: seq<Slot>, total: nat) {
    && total == Before(s, |s|)
    && forall i :: 0 <= i < |s| && s[i].active ==> s[i].base == Before(s, i)
  }

  /** Every row is owned by the active adapter whose range it is in. */
  ghost predicate Owned(t: seq<Row>, s: seq<Slot>) {
    forall r :: 0 <= r < |t| ==> OwnedRow(t[r], r, s)
  }

  ghost predicate OwnedRow(row: Row, r: nat, s: seq<Slot>) {
    row.owner < |s| && s[row.owner].active && s[row.owner].base <= r < s[row.owner].base + s[row.owner].channels
  }

  lemma {:induction false} BeforeGrows(s: seq<Slot>, i: nat, j: nat)
    requires i <= j <= |s|
    ensures Before(s, i) <= Before(s, j)
    decreases j
  {
    if i < j {
      BeforeGrows(s, i, j - 1);
    }
  }

  lemma {:induction false} SameBefore(s: seq<Slot>, u: seq<Slot>, i: nat)
    requires i <= |s| && i <= |u|
    requires forall k :: 0 <= k < i ==> s[k].active == u[k].active && (s[k].active ==> s[k].channels == u[k].channels)
    ensures Before(s, i) == Before(u, i)
  {
    if i > 0 {
      SameBefore(s, u, i - 1);
    }
  }

  /** The slots after adapter id has been added with n channels at base. */
  function SlotsWith(s: seq<Slot>, id: nat, base: nat, n: nat): (u: seq<Slot>)
    requires id < |s|
    ensures |u| == |s|
  {
    seq(|s|, i requires 0 <= i < |s| =>
      if i == id then Slot(true, base, n)
      else if i > id && s[i].active then s[i].(base := s[i].base + n) else s[i])
  }

  /** The slots after adapter id has been removed. */
  function SlotsWithout(s: seq<Slot>, id: nat): (u: seq<Slot>)
    requires id < |s|
    ensures |u| == |s|
  {
    seq(|s|, i requires 0 <= i < |s| =>
      if i == id then FREE_SLOT
      else if i > id && s[i].active then s[i].(base := s[i].base - s[id].channels) else s[i])
  }

  lemma {:induction false} AddedBefore(s: seq<Slot>, id: nat, base: nat, n: nat, i: nat)
    requires id < |s| && !s[id].active && i <= |s|
    ensures Before(SlotsWith(s, id, base, n), i) == Before(s, i) + if i > id then n else 0
  {
    if i > 0 {
      AddedBefore(s, id, base, n, i - 1);
    }
  }

  lemma {:induction false} RemovedBefore(s: seq<Slot>, id: nat, i: nat)
    requires id < |s| && s[id].active && i <= |s|
    ensures Before(SlotsWithout(s, id), i) == Before(s, i) - if i > id then s[id].channels else 0
  {
    if i > 0 {
      RemovedBefore(s, id, i - 1);
    }
  }

  /** Adding an adapter keeps the tiling and the ownership. */
  lemma {:induction false} AddKeeps(t: seq<Row>, s: seq<Slot>, id: nat, n: nat)
    requires Square(t) && Tiled(s, |t|) && Owned(t, s) && id < |s| && !s[id].active
    ensures Before(s, id) <= |t|
    ensures var base := Before(s, id); var (t', s') := (InsertBand(t, base, n, id), SlotsWith(s, id, base, n));
            Square(t') && Tiled(s', |t'|) && Owned(t', s')
  {
    BeforeGrows(s, id, |s|);
    var base := Before(s, id);
    var s' := SlotsWith(s, id, base, n);
    InsertIsSquare(t, base, n, id);
    forall i | 0 <= i <= |s| ensures Before(s', i) == Before(s, i) + if i > id then n else 0 {
      AddedBefore(s, id, base, n, i);
    }
    hide Before, Square, Widened, NewRow;
    forall r | 0 <= r < |t| + n ensures OwnedRow(InsertBand(t, base, n, id)[r], r, s') {
      InsertedOwner(t, base, n, id, r);
      if !(base <= r < base + n) {
        var q := if r < base then r else r - n;
        assert OwnedRow(t[q], q, s);
        RangeSide(s, id, t[q].owner);
      }
    }
  }

  lemma InsertedOwner(t: seq<Row>, base: nat, n: nat, id: nat, r: nat)
    requires Square(t) && base <= |t| && r < |t| + n
    ensures InsertBand(t, base, n, id)[r].owner
            == if base <= r < base + n then id else t[if r < base then r else r - n].owner
  {
  }

  /** The range of an adapter lies on the side of slot id where the adapter is. */
  lemma RangeSide(s: seq<Slot>, id: nat, o: nat)
    requires id < |s| && o < |s| && Tiled(s, Before(s, |s|)) && s[o].active && o != id
    ensures o < id ==> s[o].base + s[o].channels <= Before(s, id)
    ensures o > id ==> s[o].base >= Before(s, id) + if s[id].active then s[id].channels else 0
  {
    BeforeNext(s, o);
    BeforeNext(s, id);
    hide Before;
    if o < id {
      BeforeGrows(s, o + 1, id);
    } else {
      BeforeGrows(s, id + 1, o);
    }
  }

  lemma BeforeNext(s: seq<Slot>, i: nat)
    requires i < |s|
    ensures Before(s, i + 1) == Before(s, i) + if s[i].active then s[i].channels else 0
  {
  }

  /** Removing an adapter keeps the tiling and the ownership. */
  lemma {:induction false} RemoveKeeps(t: seq<Row>, s: seq<Slot>, id: nat)
    requires Square(t) && Tiled(s, |t|) && Owned(t, s) && id < |s| && s[id].active
    ensures s[id].base >= 0 && s[id].base + s[id].channels <= |t|
    ensures var (t', s') := (DeleteBand(t, s[id].base, s[id].channels), SlotsWithout(s, id));
            Square(t') && Tiled(s', |t'|) && Owned(t', s')
  {
    BeforeNext(s, id);
    BeforeGrows(s, id + 1, |s|);
    var base, n := s[id].base, s[id].channels;
    var s' := SlotsWithout(s, id);
    DeleteIsSquare(t, base, n);
    forall i | 0 <= i <= |s| ensures Before(s', i) == Before(s, i) - if i > id then n else 0 {
      RemovedBefore(s, id, i);
    }
    hide Before, Square, Narrowed;
    forall r | 0 <= r < |t| - n ensures OwnedRow(DeleteBand(t, base, n)[r], r, s') {
      var q := if r < base then r else r + n;
      DeletedOwner(t, base, n, r);
      assert OwnedRow(t[q], q, s);
      if t[q].owner != id {
        RangeSide(s, id, t[q].owner);
      }
    }
  }

  lemma DeletedOwner(t: seq<Row>, base: nat, n: nat, r: nat)
    requires Square(t) && base + n <= |t| && r < |t| - n
    ensures DeleteBand(t, base, n)[r].owner == t[if r < base then r else r + n].owner
  {
  }

  /** Adding an adapter to a free slot and removing it restores table and slots. */
  lemma RemoveUndoesAdd(t: seq<Row>, s: seq<Slot>, id: nat, n: nat)
    requires Square(t) && Tiled(s, |t|) && id < |s| && s[id] == FREE_SLOT
    ensures var base := Before(s, id);
            && base <= |t| && Square(InsertBand(t, base, n, id))
            && DeleteBand(InsertBand(t, base, n, id), base, n) == t
            && SlotsWithout(SlotsWith(s, id, base, n), id) == s
  {
    BeforeGrows(s, id, |s|);
    DeleteUndoesInsert(t, Before(s, id), n, id);
  }

  // -------------------------------------------------------------- in memory

  /** A row of n entries; what its memory holds behind them is stale. */
  function Trim(r: Row, n: nat): Row
    requires n <= |r.flags| && n <= |r.coefs|
  {
    r.(flags := r.flags[..n], coefs := r.coefs[..n])
  }

  ghost predicate Wide(rows: seq<Row>, n: nat) {
    n <= |rows| && forall i :: 0 <= i < n ==> n <= |rows[i].flags| && n <= |rows[i].coefs|
  }

  /** The matrix of the first n rows and columns. */
  ghost function Matrix(rows: seq<Row>, n: nat): (t: seq<Row>)
    requires Wide(rows, n)
    ensures |t| == n && Square(t) && forall i :: 0 <= i < n ==> t[i] == Trim(rows[i], n)
  {
    seq(n, i requires 0 <= i < n => Trim(rows[i], n))
  }

  /** The entries of a row, copied around the new band. */
  method CopyEntries(old_: seq<byte>, base: nat, n: nat, k: nat) returns (r: seq<byte>)
    requires base + n <= k <= |old_| + n
    ensures r == InsertIn(old_[..k - n], base, n)
  {
    var first := if base != 0 then old_[..base] else [];
    var last := if base + n < k then old_[base..base + (k - (base + n))] else [];
    r := first + Zero(n) + last;
  }

  /** The entries of a row after the memmove over the band; k are left. */
  method MoveEntries(f: seq<byte>, base: nat, n: nat, k: nat) returns (r: seq<byte>)
    requires base <= k && k + n <= |f|
    ensures |r| == |f| && r[..k] == DeleteIn(f[..k + n], base, n)
  {
    r := f[..base] + f[base + n..base + n + (k - base)] + f[k..];
  }

  class LineInterconnect {
    const slots: array<Slot>
    var maxAdapter: nat
    var rows: array<Row>
    var total: nat

    ghost predicate Shape()
      reads this, slots, rows
    {
      && maxAdapter <= slots.Length && Wide(rows[..], total)
      && forall i :: 0 <= i < slots.Length && (!slots[i].active || i >= maxAdapter) ==> slots[i] == FREE_SLOT
    }

    ghost function Table(): (t: seq<Row>)
      requires Wide(rows[..], total)
      reads this, rows
      ensures |t| == total && Square(t)
    {
      Matrix(rows[..], total)
    }

    ghost predicate Valid()
      reads this, slots, rows
    {
      Shape() && Tiled(slots[..], total) && Owned(Table(), slots[..])
    }

    constructor (max: nat)
      ensures Valid() && Table() == [] && slots.Length == max && forall i :: 0 <= i < max ==> slots[i] == FREE_SLOT
    {
      slots := new Slot[max](_ => FREE_SLOT);
      rows := new Row[0];
      maxAdapter, total := 0, 0;
      new;
      NoChannels(slots[..], max);
    }

    // the line-interconnect part of diva_add_card
    method Add(id: nat, n: nat)
      requires Valid() && id <= maxAdapter && id < slots.Length && !slots[id].active
      modifies this, slots
      ensures Valid() && fresh(rows)
      ensures var base := Before(old(slots[..]), id);
              && base <= old(total) && total == old(total) + n
              && Table() == InsertBand(old(Table()), base, n, id)
              && slots[..] == SlotsWith(old(slots[..]), id, base, n)
    {
      AddKeeps(Table(), slots[..], id, n);
      hide Tiled, Owned, InsertBand, SlotsWith, Square;
      var base := BaseFor(id);
      ghost var t := Table();
      var k := total + n;
      rows := NewTable(base, n, id);
      total := k;
      ShiftSlots(id + 1, n);
      slots[id] := Slot(true, base, n);
      if id == maxAdapter {
        maxAdapter := maxAdapter + 1;
      }
      assert slots[..] == SlotsWith(old(slots[..]), id, base, n) by {
        SlotsWithIs(old(slots[..]), slots[..], id, base, n);
      }
    }

    /** The base of a new adapter: the end of the last active one before it. */
    method BaseFor(id: nat) returns (base: nat)
      requires id <= slots.Length && Tiled(slots[..], total)
      ensures base == Before(slots[..], id)
    {
      base := 0;
      for i := 0 to id
        invariant base == Before(slots[..], i)
      {
        BeforeNext(slots[..], i);
        if slots[i].active {
          base := slots[i].base + slots[i].channels;
        }
      }
    }

    /** The loop that fills the new table. */
    method NewTable(base: nat, n: nat, id: nat) returns (t: array<Row>)
      requires Wide(rows[..], total) && base <= total
      ensures fresh(t) && t.Length == total + n && Wide(t[..], total + n)
      ensures Matrix(t[..], total + n) == InsertBand(Table(), base, n, id)
    {
      hide InsertIn, Matrix;
      var k := total + n;
      ghost var m := InsertBand(Table(), base, n, id);
      t := new Row[k](_ => Row(0, [], [], []));
      var j := 0;
      for i := 0 to k
        invariant j == if i <= base then i else if i < base + n then base else i - n
        invariant forall r :: 0 <= r < i ==> t[r] == m[r]
      {
        if base <= i < base + n {
          t[i] := NewRow(id, k);
        } else {
          var flags := CopyEntries(rows[j].flags, base, n, k);
          var coefs := CopyEntries(rows[j].coefs, base, n, k);
          t[i] := rows[j].(flags := flags, coefs := coefs);
          j := j + 1;
        }
      }
      InsertIsSquare(Table(), base, n, id);
      WholeMatrix(t[..], m);
    }

    /** Active adapters from slot `from` on move by d channels. */
    method ShiftSlots(from: nat, d: int)
      requires maxAdapter <= slots.Length
      modifies slots
      ensures forall i :: 0 <= i < slots.Length ==>
                slots[i] == if from <= i < maxAdapter && old(slots[i]).active
                            then old(slots[i]).(base := old(slots[i]).base + d) else old(slots[i])
    {
      var i := from;
      while i < maxAdapter
        invariant from <= i
        invariant forall k :: 0 <= k < slots.Length ==>
                    slots[k] == if from <= k < maxAdapter && k < i && old(slots[k]).active
                                then old(slots[k]).(base := old(slots[k]).base + d) else old(slots[k])
      {
        if slots[i].active {
          slots[i] := slots[i].(base := slots[i].base + d);
        }
        i := i + 1;
      }
    }

    // the line-interconnect part of clean_adapter
    method Clean(id: nat)
      requires Valid() && id < slots.Length && slots[id].active
      modifies this, slots, rows
      ensures Valid()
      ensures var s := old(slots[id]);
              && s.base >= 0 && s.base + s.channels <= old(total) && total == old(total) - s.channels
              && Table() == DeleteBand(old(Table()), s.base, s.channels)
              && slots[..] == SlotsWithout(old(slots[..]), id)
      ensures maxAdapter == 0 || slots[maxAdapter - 1].active
    {
      RemoveKeeps(Table(), slots[..], id);
      hide Tiled, Owned, DeleteBand, SlotsWithout, Square, Matrix;
      var base, n := slots[id].base, slots[id].channels;
      var k := total - n;
      ghost var m := DeleteBand(Table(), base, n);
      if k == 0 {
        rows := new Row[0];
        assert m == Matrix(rows[..], 0);
      } else {
        DeleteRows(base, n, k);
      }
      total := k;
      ShiftSlots(id, 0 - n as int);
      slots[id] := FREE_SLOT;
      SlotsWithoutIs(old(slots[..]), slots[..], id);
      TrimAdapters();
    }

    /** max_adapter falls to the last active slot. */
    method TrimAdapters()
      requires maxAdapter <= slots.Length
      requires forall i :: 0 <= i < slots.Length && (!slots[i].active || i >= maxAdapter) ==> slots[i] == FREE_SLOT
      modifies this`maxAdapter
      ensures maxAdapter <= old(maxAdapter) && (maxAdapter == 0 || slots[maxAdapter - 1].active)
      ensures forall i :: 0 <= i < slots.Length && (!slots[i].active || i >= maxAdapter) ==> slots[i] == FREE_SLOT
    {
      while maxAdapter != 0 && !slots[maxAdapter - 1].active
        invariant maxAdapter <= old(maxAdapter)
        invariant forall i :: 0 <= i < slots.Length && (!slots[i].active || i >= maxAdapter) ==> slots[i] == FREE_SLOT
      {
        maxAdapter := maxAdapter - 1;
      }
    }

    /** The memmoves over the rows and over the entries of each row. */
    method DeleteRows(base: nat, n: nat, k: nat)
      requires Wide(rows[..], total) && base <= k && total == k + n
      modifies rows
      ensures Wide(rows[..], k) && Matrix(rows[..], k) == DeleteBand(old(Table()), base, n)
    {
      hide DeleteIn, Matrix, DeleteBand;
      ghost var t := Table();
      ghost var m := DeleteBand(t, base, n);
      DeleteIsSquare(t, base, n);
      if base < k {
        MoveRows(base, n, k);
        NarrowRows(base, n, k, t);
      } else {
        forall r | 0 <= r < k ensures Trim(rows[r], k) == m[r] {
          LastBand(rows[r].flags, k, n);
          LastBand(rows[r].coefs, k, n);
        }
      }
      assert Matrix(rows[..], k) == m;
    }

    /** The memmove over the rows. */
    method MoveRows(base: nat, n: nat, k: nat)
      requires base < k && k + n <= rows.Length
      modifies rows
      ensures forall r :: 0 <= r < k ==> rows[r] == if base <= r then old(rows[r + n]) else old(rows[r])
    {
      ghost var b := rows[..];
      for i := base to k
        invariant forall r :: 0 <= r < base ==> rows[r] == b[r]
        invariant forall r :: base <= r < i ==> rows[r] == b[n..][r]
        invariant forall r :: i <= r < rows.Length ==> rows[r] == b[r]
      {
        rows[i] := rows[i + n];
      }
    }

    /** The memmoves over the entries of each row. */
    method NarrowRows(base: nat, n: nat, k: nat, ghost t: seq<Row>)
      requires base < k <= rows.Length && |t| == k + n && Square(t)
      requires forall r :: 0 <= r < k ==> |rows[r].flags| >= k + n && |rows[r].coefs| >= k + n
      requires forall r :: 0 <= r < k ==> Trim(rows[r], k + n) == t[if r < base then r else r + n]
      modifies rows
      ensures Wide(rows[..], k)
      ensures forall r :: 0 <= r < k ==> Trim(rows[r], k) == DeletedRow(t, base, n, r)
    {
      hide DeleteIn;
      for i := 0 to k
        invariant forall r :: i <= r < k ==> rows[r] == old(rows[r])
        invariant forall r :: 0 <= r < i ==> k <= |rows[r].flags| && k <= |rows[r].coefs|
        invariant forall r :: 0 <= r < i ==> Trim(rows[r], k) == DeletedRow(t, base, n, r)
      {
        var flags := MoveEntries(rows[i].flags, base, n, k);
        var coefs := MoveEntries(rows[i].coefs, base, n, k);
        rows[i] := rows[i].(flags := flags, coefs := coefs);
      }
    }
  }

  lemma LastBand(f: seq<byte>, k: nat, n: nat)
    requires k + n <= |f|
    ensures DeleteIn(f[..k + n], k, n) == f[..k]
  {
  }

  lemma WholeMatrix(rows: seq<Row>, m: seq<Row>)
    requires rows == m && Square(m)
    ensures Wide(rows, |m|) && Matrix(rows, |m|) == m
  {
    forall i | 0 <= i < |m| ensures Trim(rows[i], |m|) == m[i] {
      assert m[i].flags[..|m|] == m[i].flags && m[i].coefs[..|m|] == m[i].coefs;
    }
  }

  lemma {:induction false} NoChannels(s: seq<Slot>, i: nat)
    requires i <= |s| && forall k :: 0 <= k < |s| ==> s[k] == FREE_SLOT
    ensures Before(s, i) == 0
  {
    if i > 0 {
      NoChannels(s, i - 1);
    }
  }

  lemma SlotsWithIs(s: seq<Slot>, u: seq<Slot>, id: nat, base: nat, n: nat)
    requires id < |s| == |u| && u[id] == Slot(true, base, n)
    requires forall i :: 0 <= i < |s| && i != id ==>
               u[i] == if i > id && s[i].active then s[i].(base := s[i].base + n) else s[i]
    ensures u == SlotsWith(s, id, base, n)
  {
  }

  lemma SlotsWithoutIs(s: seq<Slot>, u: seq<Slot>, id: nat)
    requires id < |s| == |u| && u[id] == FREE_SLOT
    requires forall i :: 0 <= i < |s| && i != id ==>
               u[i] == if i > id && s[i].active then s[i].(base := s[i].base - s[id].channels) else s[i]
    ensures u == SlotsWithout(s, id)
  {
  }
}
