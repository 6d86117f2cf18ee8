/**
 * The table from code addresses to assembly text in A5/src/assembly.c: linear probing over
 * four slots, and rehashing into ever larger tables until every entry finds a slot. The
 * table is a finite map, and the retrying always ends.
 */
module AssemblyTable {
  import opened Arithmetic

  const NOT_FOUND := -1
  const PROBES := 4
  const FIRST_SIZE := 4

  datatype Entry = Entry(valid: bool, addr: int, text: string)

  const EMPTY := Entry(false, 0, "")

  /** The k-th slot to look at for addr in a table of size n. */
  function Probe(addr: int, n: int, k: int): int
    requires n > 0
  {
    Wrap(addr % n + k, n)
  }

  lemma ProbeIs(addr: int, n: int, k: int)
    requires 0 <= k < n
    ensures Probe(addr, n, k) == (addr + k) % n
  {
    ModRange(addr, n);
    var q, r := addr / n, addr % n;
    assert addr == n * q + r;
    assert n * (q + 1) == n * q + n;
    if r + k < n { ModUnique(addr + k, n, q, r + k); } else { ModUnique(addr + k, n, q + 1, r + k - n); }
  }

  /** Four slots in a row, from the remainder of the address on, around the end of the table. */
  lemma ProbesInTurn(addr: int, n: int, i: int)
    requires n >= 4
    ensures Near(addr, n, i) <==> i in [addr % n, (addr + 1) % n, (addr + 2) % n, (addr + 3) % n]
  {
    hide Probe;
    ProbeIs(addr, n, 0);
    ProbeIs(addr, n, 1);
    ProbeIs(addr, n, 2);
    ProbeIs(addr, n, 3);
  }

  predicate Near(addr: int, n: int, i: int)
    requires n > 0
  {
    exists k :: 0 <= k < PROBES && i == Probe(addr, n, k)
  }

  /** Every entry lies within four probes of its home slot, and no address is stored twice. */
  predicate Placed(t: seq<Entry>) {
    && |t| >= PROBES
    && (forall i :: 0 <= i < |t| && t[i].valid ==> t[i].addr >= 0 && Near(t[i].addr, |t|, i))
    && (forall i, j :: 0 <= i < j < |t| && t[i].valid && t[j].valid ==> t[i].addr != t[j].addr)
  }

  /** In a table larger than all of its addresses every entry is at home. */
  predicate HomeIfLarge(t: seq<Entry>) {
    (forall i :: 0 <= i < |t| && t[i].valid ==> t[i].addr < |t|) ==>
      forall i :: 0 <= i < |t| && t[i].valid ==> t[i].addr == i
  }

  predicate Occurs(t: seq<Entry>, addr: int) {
    exists i :: 0 <= i < |t| && t[i].valid && t[i].addr == addr
  }

  /** The table as a map. */
  predicate Represents(t: seq<Entry>, view: map<int, string>) {
    && (forall i :: 0 <= i < |t| && t[i].valid ==> t[i].addr in view && view[t[i].addr] == t[i].text)
    && (forall a :: a in view ==> Occurs(t, a))
  }

  predicate Below(view: map<int, string>, bound: int) {
    forall a :: a in view ==> 0 <= a < bound
  }

  /** Storing a new address in a free probed slot keeps the table well placed. */
  lemma StoreNew(t: seq<Entry>, view: map<int, string>, i: int, addr: int, text: string)
    requires Placed(t) && Represents(t, view) && addr !in view && addr >= 0
    requires 0 <= i < |t| && !t[i].valid && Near(addr, |t|, i)
    ensures Placed(t[i := Entry(true, addr, text)])
    ensures Represents(t[i := Entry(true, addr, text)], view[addr := text])
  {
    var t' := t[i := Entry(true, addr, text)];
    hide Near;
    forall a | a in view[addr := text] ensures Occurs(t', a) {
      if a == addr {
        assert t'[i].addr == a;
      } else {
        assert Occurs(t, a);
        var j :| 0 <= j < |t| && t[j].valid && t[j].addr == a;
        assert t'[j].valid && t'[j].addr == a;
      }
    }
  }

  /** If the slot is the first free one probed, a large table still has every entry at home. */
  lemma StoreNewHome(t: seq<Entry>, view: map<int, string>, i: int, addr: int, text: string)
    requires Placed(t) && HomeIfLarge(t) && Represents(t, view) && addr !in view && addr >= 0
    requires 0 <= i < |t| && !t[i].valid && (i == addr % |t| || t[addr % |t|].valid)
    ensures HomeIfLarge(t[i := Entry(true, addr, text)])
  {
    var t' := t[i := Entry(true, addr, text)];
    hide Near;
    if forall j :: 0 <= j < |t'| && t'[j].valid ==> t'[j].addr < |t'| {
      assert t'[i].addr == addr < |t|;
      ModWrap(addr, |t|);
      forall j | 0 <= j < |t| && t[j].valid ensures t[j].addr < |t| { assert t'[j] == t[j]; }
      if t[addr].valid { assert false; }
    }
  }

  /** Changing the text of an entry moves nothing. */
  lemma Overwrite(t: seq<Entry>, view: map<int, string>, i: int, text: string)
    requires Placed(t) && HomeIfLarge(t) && Represents(t, view)
    requires 0 <= i < |t| && t[i].valid
    ensures var t' := t[i := Entry(true, t[i].addr, text)];
      Placed(t') && HomeIfLarge(t') && Represents(t', view[t[i].addr := text])
  {
    OverwriteRepresents(t, view, i, text);
    OverwritePlaced(t, i, text);
    OverwriteHome(t, i, text);
  }

  lemma OverwritePlaced(t: seq<Entry>, i: int, text: string)
    requires Placed(t) && 0 <= i < |t| && t[i].valid
    ensures Placed(t[i := Entry(true, t[i].addr, text)])
  {
    hide Near;
  }

  lemma OverwriteHome(t: seq<Entry>, i: int, text: string)
    requires HomeIfLarge(t) && 0 <= i < |t| && t[i].valid
    ensures HomeIfLarge(t[i := Entry(true, t[i].addr, text)])
  {
    var t' := t[i := Entry(true, t[i].addr, text)];
    if forall j :: 0 <= j < |t'| && t'[j].valid ==> t'[j].addr < |t'| {
      forall j | 0 <= j < |t| && t[j].valid ensures t[j].addr < |t| {
        assert t'[j].valid && t'[j].addr == t[j].addr;
      }
    }
  }

  lemma OverwriteRepresents(t: seq<Entry>, view: map<int, string>, i: int, text: string)
    requires Placed(t) && Represents(t, view) && 0 <= i < |t| && t[i].valid
    ensures Represents(t[i := Entry(true, t[i].addr, text)], view[t[i].addr := text])
  {
    hide Near;
    var t' := t[i := Entry(true, t[i].addr, text)];
    forall a | a in view[t[i].addr := text] ensures Occurs(t', a) {
      assert t'[i].valid && t'[i].addr == t[i].addr;
      if a != t[i].addr {
        assert Occurs(t, a);
        var j :| 0 <= j < |t| && t[j].valid && t[j].addr == a;
        assert t'[j].addr == a;
      }
    }
  }

  /** Four occupied probe slots and a missing address mean the table is not larger than all addresses. */
  lemma FullMeansSmall(t: seq<Entry>, view: map<int, string>, addr: int, bound: int)
    requires Placed(t) && HomeIfLarge(t) && Represents(t, view) && addr !in view
    requires Below(view, bound) && 0 <= addr < bound
    requires t[addr % |t|].valid
    ensures |t| < bound
  {
    hide Near;
    if |t| >= bound {
      ModWrap(addr, |t|);
      assert false;
    }
  }

  predicate Taken(t: seq<Entry>, i: int) { 0 <= i < |t| && t[i].valid }

  /** All slots probed for addr before the k-th are taken. */
  predicate TakenBefore(t: seq<Entry>, addr: int, k: int)
    requires |t| > 0
  {
    forall j :: 0 <= j < k ==> Taken(t, Probe(addr, |t|, j))
  }

  /** The first free one of the four probed slots. */
  predicate FirstFree(t: seq<Entry>, addr: int, i: int) {
    && |t| >= PROBES && 0 <= i < |t| && !t[i].valid
    && exists k :: 0 <= k < PROBES && i == Probe(addr, |t|, k) && TakenBefore(t, addr, k)
  }

  lemma FirstFreeNear(t: seq<Entry>, addr: int, i: int)
    requires FirstFree(t, addr, i)
    ensures Near(addr, |t|, i) && (i == addr % |t| || t[addr % |t|].valid)
  {
    ModRange(addr, |t|);
    var k :| 0 <= k < PROBES && i == Probe(addr, |t|, k) && TakenBefore(t, addr, k);
    if k > 0 { assert Taken(t, Probe(addr, |t|, 0)); }
  }

  lemma NotFoundAbsent(t: seq<Entry>, view: map<int, string>, addr: int)
    requires Placed(t) && Represents(t, view)
    requires forall k :: 0 <= k < PROBES ==> var i := Probe(addr, |t|, k);
      0 <= i < |t| ==> !(t[i].valid && t[i].addr == addr)
    ensures addr !in view
  {}

  /** sub is the part of view that the first n slots of t hold. */
  predicate PartOf(sub: map<int, string>, view: map<int, string>, t: seq<Entry>, n: nat)
    requires n <= |t|
  {
    && (forall a :: a in sub ==> a in view && sub[a] == view[a] && Occurs(t[..n], a))
    && (forall j :: 0 <= j < n && t[j].valid ==> t[j].addr in sub)
  }

  lemma PartGrows(sub: map<int, string>, view: map<int, string>, t: seq<Entry>, n: nat)
    requires Placed(t) && Represents(t, view) && n < |t| && PartOf(sub, view, t, n)
    ensures t[n].valid ==> t[n].addr !in sub && t[n].addr in view && view[t[n].addr] == t[n].text
    ensures PartOf(if t[n].valid then sub[t[n].addr := t[n].text] else sub, view, t, n + 1)
  {
    hide Near;
    var sub' := if t[n].valid then sub[t[n].addr := t[n].text] else sub;
    forall a | a in sub' ensures Occurs(t[..n + 1], a) {
      if t[n].valid && a == t[n].addr {
        assert t[..n + 1][n] == t[n];
      } else {
        assert Occurs(t[..n], a);
        var j :| 0 <= j < n && t[..n][j].valid && t[..n][j].addr == a;
        assert t[..n + 1][j] == t[j];
      }
    }
  }

  lemma PartIsAll(sub: map<int, string>, view: map<int, string>, t: seq<Entry>)
    requires Represents(t, view) && PartOf(sub, view, t, |t|)
    ensures sub == view
  {
    forall a | a in view ensures a in sub {
      assert Occurs(t, a);
      var j :| 0 <= j < |t| && t[j].valid && t[j].addr == a;
      assert t[j].addr in sub;
    }
    forall a | a in sub ensures a in view && sub[a] == view[a] {
      assert Occurs(t[..|t|], a);
    }
  }

  class Assembly {
    var table: array<Entry>
    ghost var view: map<int, string>

    ghost predicate Valid()
      reads this, table
    {
      Placed(table[..]) && HomeIfLarge(table[..]) && Represents(table[..], view)
    }

    constructor ()
      ensures Valid() && fresh(table) && view == map[] && table.Length == 4
    {
      table := new Entry[FIRST_SIZE](_ => EMPTY);
      view := map[];
    }

    /** The slot of addr among its four probes, or NOT_FOUND when addr is nowhere in the table. */
    method FindEntry(addr: int) returns (r: int)
      requires Valid() && addr >= 0
      ensures if r == NOT_FOUND then addr !in view
              else 0 <= r < table.Length && table[r].valid && table[r].addr == addr && addr in view
    {
      hide HomeIfLarge, Near;
      ModRange(addr, table.Length);
      var idx := addr % table.Length;
      for offset := 0 to PROBES
        invariant 0 <= idx < table.Length && (idx == Probe(addr, table.Length, offset) || offset == PROBES)
        invariant forall k :: 0 <= k < offset ==> var i := Probe(addr, table.Length, k);
          0 <= i < table.Length ==> !(table[i].valid && table[i].addr == addr)
      {
        if table[idx].valid && table[idx].addr == addr { return idx; }
        idx := idx + 1;
        if idx == table.Length { idx := 0; }
      }
      NotFoundAbsent(table[..], view, addr);
      r := NOT_FOUND;
    }

    /** The first free slot among the four probes of addr, or NOT_FOUND when all are taken. */
    method FindEmpty(addr: int) returns (r: int)
      requires table.Length >= PROBES && addr >= 0
      ensures if r == NOT_FOUND then TakenBefore(table[..], addr, PROBES) && table[addr % table.Length].valid
              else FirstFree(table[..], addr, r)
    {
      ModRange(addr, table.Length);
      var idx := addr % table.Length;
      for offset := 0 to PROBES
        invariant 0 <= idx < table.Length && (idx == Probe(addr, table.Length, offset) || offset == PROBES)
        invariant TakenBefore(table[..], addr, offset)
      {
        if !table[idx].valid { return idx; }
        idx := idx + 1;
        if idx == table.Length { idx := 0; }
      }
      assert Taken(table[..], Probe(addr, table.Length, 0));
      r := NOT_FOUND;
    }

    /**
     * Moves all entries into a table at least twice as large, trying ever larger ones until
     * every entry finds a slot. A table beyond all addresses always suffices.
     */
    method GrowAndRehash(ghost bound: int)
      requires Valid() && Below(view, bound)
      modifies this
      ensures Valid() && fresh(table) && view == old(view)
      ensures old(table.Length) < table.Length <= Max(1 + 2 * old(table.Length), 2 * bound - 1)
    {
      hide Placed, HomeIfLarge, Represents, Near, PartOf, FirstFree;
      var oldTable := table;
      ghost var oldEntries := oldTable[..];
      assert oldTable.Length >= PROBES by { PlacedLength(oldEntries); }
      var newSize := 1 + 2 * oldTable.Length;
      var done := false;
      while !done
        invariant !done ==> oldEntries == oldTable[..]
        invariant oldTable.Length < newSize <= Max(1 + 2 * oldTable.Length, 2 * bound - 1)
        invariant view == old(view)
        invariant done ==> Valid() && fresh(table) && table.Length == newSize
        decreases if done then 0 else 1 + Max(0, bound - newSize)
      {
        done := true;
        table := new Entry[newSize](_ => EMPTY);
        ghost var sub: map<int, string> := map[];
        EmptyTable(table[..], view, oldEntries);
        var i := 0;
        while i < oldTable.Length
          invariant 0 <= i <= oldTable.Length && done && fresh(table) && table.Length == newSize && table != oldTable
          invariant oldEntries == oldTable[..] && view == old(view)
          invariant Placed(table[..]) && HomeIfLarge(table[..]) && Represents(table[..], sub)
          invariant PartOf(sub, view, oldEntries, i)
        {
          PartGrows(sub, view, oldEntries, i);
          if oldTable[i].valid {
            EntryAddr(oldEntries, view, i, bound);
            var newIdx := FindEmpty(oldTable[i].addr);
            if newIdx == NOT_FOUND {
              PartBelow(sub, view, oldEntries, i, bound);
              FullMeansSmall(table[..], sub, oldTable[i].addr, bound);
              done := false;
              newSize := 1 + newSize * 2;
              break;
            }
            Rehashed(table[..], sub, newIdx, oldEntries[i]);
            ghost var before := table[..];
            table[newIdx] := oldTable[i];
            assert table[..] == before[newIdx := oldEntries[i]];
            sub := sub[oldEntries[i].addr := oldEntries[i].text];
          }
          i := i + 1;
        }
        if done { PartIsAll(sub, view, oldEntries); }
      }
    }

    /**
     * Sets the text of addr, growing as often as needed. A table only grows while it is not
     * larger than every address, so with addresses below 2^30 its size stays an int.
     */
    method Set(addr: int, text: string, ghost bound: int)
      requires Valid() && 0 <= addr < bound && Below(view, bound)
      modifies this, table
      ensures Valid() && (table == old(table) || fresh(table)) && view == old(view)[addr := text]
      ensures old(table.Length) <= table.Length <= Max(old(table.Length), 2 * bound - 1)
    {
      hide Placed, HomeIfLarge, Represents, Near, FirstFree;
      PlacedLength(table[..]);
      var idx := FindEntry(addr);
      if idx == NOT_FOUND {
        idx := FindEmpty(addr);
        while idx == NOT_FOUND
          invariant Valid() && table.Length >= PROBES && view == old(view) && (table == old(table) || fresh(table))
          invariant table == old(table) ==> table[..] == old(table[..])
          invariant old(table.Length) <= table.Length <= Max(old(table.Length), 2 * bound - 1)
          invariant if idx == NOT_FOUND then table[addr % table.Length].valid else FirstFree(table[..], addr, idx)
          decreases bound - table.Length, idx == NOT_FOUND
        {
          FullMeansSmall(table[..], view, addr, bound);
          GrowAndRehash(bound);
          PlacedLength(table[..]);
          idx := FindEmpty(addr);
        }
        Rehashed(table[..], view, idx, Entry(true, addr, text));
      } else {
        Overwrite(table[..], view, idx, text);
      }
      ghost var before := table[..];
      table[idx] := Entry(true, addr, text);
      assert table[..] == before[idx := Entry(true, addr, text)];
      view := view[addr := text];
    }

    /** The text last set for addr, or the empty string. */
    method Get(addr: int) returns (text: string)
      requires Valid() && addr >= 0
      ensures text == if addr in view then view[addr] else ""
    {
      var idx := FindEntry(addr);
      if idx == NOT_FOUND { return ""; }
      text := table[idx].text;
    }
  }

  lemma PlacedLength(t: seq<Entry>)
    requires Placed(t)
    ensures |t| >= PROBES
  {}

  lemma EmptyTable(t: seq<Entry>, view: map<int, string>, oldEntries: seq<Entry>)
    requires |t| >= PROBES && forall i :: 0 <= i < |t| ==> t[i] == EMPTY
    ensures Placed(t) && HomeIfLarge(t) && Represents(t, map[]) && PartOf(map[], view, oldEntries, 0)
  {}

  lemma EntryAddr(t: seq<Entry>, view: map<int, string>, i: int, bound: int)
    requires Placed(t) && Represents(t, view) && Below(view, bound) && 0 <= i < |t| && t[i].valid
    ensures 0 <= t[i].addr < bound
  {}

  lemma PartBelow(sub: map<int, string>, view: map<int, string>, t: seq<Entry>, n: nat, bound: int)
    requires n <= |t| && PartOf(sub, view, t, n) && Below(view, bound)
    ensures Below(sub, bound)
  {}

  lemma Rehashed(t: seq<Entry>, sub: map<int, string>, i: int, e: Entry)
    requires Placed(t) && HomeIfLarge(t) && Represents(t, sub) && e.valid && e.addr !in sub && e.addr >= 0
    requires FirstFree(t, e.addr, i)
    ensures Placed(t[i := e]) && HomeIfLarge(t[i := e]) && Represents(t[i := e], sub[e.addr := e.text])
    ensures 0 <= i < |t|
  {
    FirstFreeNear(t, e.addr, i);
    StoreNew(t, sub, i, e.addr, e.text);
    StoreNewHome(t, sub, i, e.addr, e.text);
  }
}
