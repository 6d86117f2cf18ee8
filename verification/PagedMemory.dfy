/**
 * The simulator memory of A5/src/memory.c: 65536 pages of 16384 words, allocated when first
 * touched. It behaves as a flat array of 2^32 bytes that starts out all zero.
 */
module PagedMemory {
  const PAGES := 0x1_0000
  const PAGE_WORDS := 0x4000
  const SPAN := 0x1_0000_0000

  // ----- Bytes of a word, lowest address first

  function Lane(w: bv32, lane: nat): bv32
    requires lane < 4
  {
    match lane
    case 0 => w & 0xff
    case 1 => (w >> 8) & 0xff
    case 2 => (w >> 16) & 0xff
    case _ => (w >> 24) & 0xff
  }

  function WithByte(w: bv32, lane: nat, data: bv32): bv32
    requires lane < 4
  {
    match lane
    case 0 => (w & 0xffffff00) | (data & 0xff)
    case 1 => (w & 0xffff00ff) | ((data & 0xff) << 8)
    case 2 => (w & 0xff00ffff) | ((data & 0xff) << 16)
    case _ => (w & 0x00ffffff) | ((data & 0xff) << 24)
  }

  function WithHalf(w: bv32, high: bool, data: bv32): bv32 {
    if high then (w & 0x0000ffff) | (data << 16) else (w & 0xffff0000) | (data & 0x0000ffff)
  }

  function HalfOf(w: bv32, high: bool): bv32 {
    if high then (w >> 16) & 0xffff else w & 0xffff
  }

  lemma ByteInto0(w: bv32, d: bv32)
    ensures var r := (w & 0xffffff00) | (d & 0xff);
      r & 0xff == d & 0xff && (r >> 8) & 0xff == (w >> 8) & 0xff
      && (r >> 16) & 0xff == (w >> 16) & 0xff && (r >> 24) & 0xff == (w >> 24) & 0xff
  {}

  lemma ByteInto1(w: bv32, d: bv32)
    ensures var r := (w & 0xffff00ff) | ((d & 0xff) << 8);
      r & 0xff == w & 0xff && (r >> 8) & 0xff == d & 0xff
      && (r >> 16) & 0xff == (w >> 16) & 0xff && (r >> 24) & 0xff == (w >> 24) & 0xff
  {}

  lemma ByteInto2(w: bv32, d: bv32)
    ensures var r := (w & 0xff00ffff) | ((d & 0xff) << 16);
      r & 0xff == w & 0xff && (r >> 8) & 0xff == (w >> 8) & 0xff
      && (r >> 16) & 0xff == d & 0xff && (r >> 24) & 0xff == (w >> 24) & 0xff
  {}

  lemma ByteInto3(w: bv32, d: bv32)
    ensures var r := (w & 0x00ffffff) | ((d & 0xff) << 24);
      r & 0xff == w & 0xff && (r >> 8) & 0xff == (w >> 8) & 0xff
      && (r >> 16) & 0xff == (w >> 16) & 0xff && (r >> 24) & 0xff == d & 0xff
  {}

  /** Storing a byte changes its own lane and no other. */
  lemma WithByteLanes(w: bv32, lane: nat, data: bv32, k: nat)
    requires lane < 4 && k < 4
    ensures Lane(WithByte(w, lane, data), k) == if k == lane then data & 0xff else Lane(w, k)
  {
    match lane
    case 0 => ByteInto0(w, data);
    case 1 => ByteInto1(w, data);
    case 2 => ByteInto2(w, data);
    case _ => ByteInto3(w, data);
  }

  lemma HalfIntoLow(w: bv32, d: bv32)
    ensures var r := (w & 0xffff0000) | (d & 0x0000ffff);
      r & 0xff == d & 0xff && (r >> 8) & 0xff == (d >> 8) & 0xff
      && (r >> 16) & 0xff == (w >> 16) & 0xff && (r >> 24) & 0xff == (w >> 24) & 0xff
  {}

  lemma HalfIntoHigh(w: bv32, d: bv32)
    ensures var r := (w & 0x0000ffff) | (d << 16);
      r & 0xff == w & 0xff && (r >> 8) & 0xff == (w >> 8) & 0xff
      && (r >> 16) & 0xff == d & 0xff && (r >> 24) & 0xff == (d >> 8) & 0xff
  {}

  /** Storing a halfword puts its low byte at the lower address. */
  lemma WithHalfLanes(w: bv32, high: bool, data: bv32, k: nat)
    requires k < 4
    ensures Lane(WithHalf(w, high, data), k) == if (k >= 2) == high then Lane(data, k % 2) else Lane(w, k)
  {
    if high { HalfIntoHigh(w, data); } else { HalfIntoLow(w, data); }
  }

  /** Two bytes as a zero-extended halfword, the first one lowest. */
  function Bytes2(b0: bv32, b1: bv32): bv32 { b0 | (b1 << 8) }

  /** Four bytes as a word, the first one lowest. */
  function Bytes4(b0: bv32, b1: bv32, b2: bv32, b3: bv32): bv32 { b0 | (b1 << 8) | (b2 << 16) | (b3 << 24) }

  lemma LanesAre(w: bv32)
    ensures Lane(w, 0) == w & 0xff && Lane(w, 1) == (w >> 8) & 0xff
    ensures Lane(w, 2) == (w >> 16) & 0xff && Lane(w, 3) == (w >> 24) & 0xff
  {}

  lemma LowHalf(w: bv32)
    ensures HalfOf(w, false) == Bytes2(w & 0xff, (w >> 8) & 0xff)
  {}

  lemma HighHalf(w: bv32)
    ensures HalfOf(w, true) == Bytes2((w >> 16) & 0xff, (w >> 24) & 0xff)
  {}

  predicate Bit(w: bv32, i: bv32)
    requires i < 32
  {
    (w >> i) & 1 != 0
  }

  lemma Lane0Bits(w: bv32, i: bv32)
    requires i < 8
    ensures Bit(w & 0xff, i) <==> Bit(w, i)
  {}

  lemma Lane1Bits(w: bv32, i: bv32)
    requires i < 8
    ensures Bit((w >> 8) & 0xff, i) <==> Bit(w, 8 + i)
  {}

  lemma Lane2Bits(w: bv32, i: bv32)
    requires i < 8
    ensures Bit((w >> 16) & 0xff, i) <==> Bit(w, 16 + i)
  {}

  lemma Lane3Bits(w: bv32, i: bv32)
    requires i < 8
    ensures Bit((w >> 24) & 0xff, i) <==> Bit(w, 24 + i)
  {}

  /** Byte k of a word holds its bits from 8 * k on, and is a byte. */
  lemma LaneBits(w: bv32, i: bv32)
    requires i < 8
    ensures Bit(Lane(w, 0), i) <==> Bit(w, i)
    ensures Bit(Lane(w, 1), i) <==> Bit(w, 8 + i)
    ensures Bit(Lane(w, 2), i) <==> Bit(w, 16 + i)
    ensures Bit(Lane(w, 3), i) <==> Bit(w, 24 + i)
  {
    hide *;
    LanesAre(w);
    Lane0Bits(w, i);
    Lane1Bits(w, i);
    Lane2Bits(w, i);
    Lane3Bits(w, i);
  }

  lemma LaneIsByte(w: bv32, k: nat)
    requires k < 4
    ensures Lane(w, k) <= 0xff
  {}

  /** A halfword read back is the low half of what was written. */
  lemma HalfBack(d: bv32)
    ensures Bytes2(Lane(d, 0), Lane(d, 1)) == d & 0xffff
  {
    hide *;
    LanesAre(d);
    LowHalf(d);
    LowHalfIs(d);
  }

  lemma LowHalfIs(d: bv32)
    ensures HalfOf(d, false) == d & 0xffff
  {}

  /** A word is its lower halfword and, 16 bits up, its upper one. */
  lemma WordOfHalves(b0: bv32, b1: bv32, b2: bv32, b3: bv32)
    ensures Bytes4(b0, b1, b2, b3) == Bytes2(b0, b1) | (Bytes2(b2, b3) << 16)
  {}

  lemma HalfOfLanes(w: bv32, high: bool)
    ensures HalfOf(w, high) == Bytes2(Lane(w, if high then 2 else 0), Lane(w, if high then 3 else 1))
  {
    hide *;
    LanesAre(w);
    if high { HighHalf(w); } else { LowHalf(w); }
  }

  lemma WordOfLanes(w: bv32)
    ensures w == Bytes4(Lane(w, 0), Lane(w, 1), Lane(w, 2), Lane(w, 3))
  {}

  /** None stands for the program exit on an unaligned access. */
  datatype Access = Ok(value: bv32) | Unaligned

  function PageOf(addr: nat): nat { addr / 0x1_0000 % PAGES }

  function IndexOf(addr: nat): nat { addr / 4 % PAGE_WORDS }

  /** Page and index together are the word address, so different words never share a cell. */
  lemma CellsDistinct(a: nat, b: nat)
    requires a < SPAN && b < SPAN
    ensures PageOf(a) == PageOf(b) && IndexOf(a) == IndexOf(b) <==> a / 4 == b / 4
  {
    assert a / 4 == 0x4000 * PageOf(a) + IndexOf(a) && b / 4 == 0x4000 * PageOf(b) + IndexOf(b);
  }

  class Memory {
    const pages: array<array?<bv32>>
    ghost var repr: set<array<bv32>>

    ghost predicate Valid()
      reads this, pages, repr
    {
      && pages.Length == PAGES
      && (forall p :: 0 <= p < PAGES && pages[p] != null ==> pages[p] in repr && pages[p].Length == PAGE_WORDS)
      && (forall p, q :: 0 <= p < q < PAGES && pages[p] != null ==> pages[p] != pages[q])
    }

    /** The word at an address: zero as long as its page does not exist. */
    ghost function WordAt(addr: nat): bv32
      requires Valid()
      reads this, pages, repr
    {
      var page := pages[PageOf(addr)];
      if page == null then 0 else page[IndexOf(addr)]
    }

    /** The memory as a flat array of bytes. */
    ghost function ByteAt(addr: nat): bv32
      requires Valid()
      reads this, pages, repr
    {
      Lane(WordAt(addr), addr % 4)
    }

    constructor ()
      ensures Valid() && fresh(pages) && repr == {}
      ensures forall a :: 0 <= a < SPAN ==> ByteAt(a) == 0
    {
      pages := new array?<bv32>[PAGES](_ => null);
      repr := {};
    }

    /** The page of an address, allocated if need be, which no read can tell. */
    method GetPage(addr: nat) returns (page: array<bv32>)
      requires Valid() && addr < SPAN
      modifies this, pages
      ensures Valid() && page == pages[PageOf(addr)] && page in repr
      ensures fresh(repr - old(repr)) && old(repr) <= repr
      ensures forall a :: 0 <= a < SPAN ==> WordAt(a) == old(WordAt(a))
    {
      var pageNumber := PageOf(addr);
      if pages[pageNumber] == null {
        var newPage := new bv32[PAGE_WORDS](_ => 0);
        pages[pageNumber] := newPage;
        repr := repr + {newPage};
      }
      page := pages[pageNumber];
    }

    /** Storing one word changes the four bytes of its address and nothing else. */
    method StoreWord(addr: nat, word: bv32, page: array<bv32>)
      requires Valid() && addr < SPAN && page == pages[PageOf(addr)] && page in repr
      modifies page
      ensures Valid()
      ensures forall a :: 0 <= a < SPAN ==> WordAt(a) == if a / 4 == addr / 4 then word else old(WordAt(a))
    {
      page[IndexOf(addr)] := word;
      forall a | 0 <= a < SPAN ensures WordAt(a) == if a / 4 == addr / 4 then word else old(WordAt(a)) {
        CellsDistinct(a, addr);
      }
    }

    method WriteWord(addr: nat, data: bv32) returns (r: Access)
      requires Valid() && addr < SPAN
      modifies this, pages, repr
      ensures Valid() && fresh(repr - old(repr)) && r.Unaligned? == (addr % 4 != 0)
      ensures forall a :: 0 <= a < SPAN ==>
        ByteAt(a) == if r.Ok? && addr <= a < addr + 4 then Lane(data, a - addr) else old(ByteAt(a))
    {
      hide Lane;
      if addr % 4 != 0 { return Unaligned; }
      var page := GetPage(addr);
      StoreWord(addr, data, page);
      r := Ok(data);
    }

    method WriteHalf(addr: nat, data: bv32) returns (r: Access)
      requires Valid() && addr < SPAN
      modifies this, pages, repr
      ensures Valid() && fresh(repr - old(repr)) && r.Unaligned? == (addr % 2 != 0)
      ensures forall a :: 0 <= a < SPAN ==>
        ByteAt(a) == if r.Ok? && addr <= a < addr + 2 then Lane(data, a - addr) else old(ByteAt(a))
    {
      hide Lane, WithHalf;
      if addr % 2 != 0 { return Unaligned; }
      var page := GetPage(addr);
      var index := IndexOf(addr);
      ghost var w := WordAt(addr);
      var word := if addr / 2 % 2 == 0 then WithHalf(page[index], false, data) else WithHalf(page[index], true, data);
      StoreWord(addr, word, page);
      forall a | 0 <= a < SPAN
        ensures ByteAt(a) == if addr <= a < addr + 2 then Lane(data, a - addr) else old(ByteAt(a))
      {
        HalfPlace(addr, a);
        WithHalfLanes(w, addr / 2 % 2 != 0, data, a % 4);
        if a / 4 == addr / 4 { assert old(WordAt(a)) == w by { CellsDistinct(a, addr); } }
      }
      r := Ok(data);
    }

    method WriteByte(addr: nat, data: bv32)
      requires Valid() && addr < SPAN
      modifies this, pages, repr
      ensures Valid() && fresh(repr - old(repr))
      ensures forall a :: 0 <= a < SPAN ==> ByteAt(a) == if a == addr then data & 0xff else old(ByteAt(a))
    {
      hide Lane, WithByte;
      var page := GetPage(addr);
      var index := IndexOf(addr);
      ghost var w := WordAt(addr);
      var word;
      match addr % 4 {
        case 0 => word := WithByte(page[index], 0, data);
        case 1 => word := WithByte(page[index], 1, data);
        case 2 => word := WithByte(page[index], 2, data);
        case _ => word := WithByte(page[index], 3, data);
      }
      StoreWord(addr, word, page);
      forall a | 0 <= a < SPAN ensures ByteAt(a) == if a == addr then data & 0xff else old(ByteAt(a)) {
        WithByteLanes(w, addr % 4, data, a % 4);
        if a / 4 == addr / 4 { assert old(WordAt(a)) == w by { CellsDistinct(a, addr); } }
      }
    }

    method ReadWord(addr: nat) returns (r: Access)
      requires Valid() && addr < SPAN
      modifies this, pages
      ensures Valid() && fresh(repr - old(repr)) && forall a :: 0 <= a < SPAN ==> ByteAt(a) == old(ByteAt(a))
      ensures r == if addr % 4 != 0 then Unaligned
                   else Ok(Bytes4(ByteAt(addr), ByteAt(addr + 1), ByteAt(addr + 2), ByteAt(addr + 3)))
    {
      hide Lane, Bytes4;
      var page := GetPage(addr);
      if addr % 4 != 0 { return Unaligned; }
      WordBytes(addr);
      r := Ok(page[IndexOf(addr)]);
    }

    method ReadHalf(addr: nat) returns (r: Access)
      requires Valid() && addr < SPAN
      modifies this, pages
      ensures Valid() && fresh(repr - old(repr)) && forall a :: 0 <= a < SPAN ==> ByteAt(a) == old(ByteAt(a))
      ensures r == if addr % 2 != 0 then Unaligned else Ok(Bytes2(ByteAt(addr), ByteAt(addr + 1)))
    {
      hide Lane, HalfOf, Bytes2;
      var page := GetPage(addr);
      var index := IndexOf(addr);
      if addr % 2 != 0 { return Unaligned; }
      HalfBytes(addr);
      r := Ok(if addr / 2 % 2 == 0 then HalfOf(page[index], false) else HalfOf(page[index], true));
    }

    method ReadByte(addr: nat) returns (value: bv32)
      requires Valid() && addr < SPAN
      modifies this, pages
      ensures Valid() && fresh(repr - old(repr)) && forall a :: 0 <= a < SPAN ==> ByteAt(a) == old(ByteAt(a))
      ensures value == ByteAt(addr)
    {
      var page := GetPage(addr);
      var index := IndexOf(addr);
      match addr % 4 {
        case 0 => value := page[index] & 0xff;
        case 1 => value := (page[index] >> 8) & 0xff;
        case 2 => value := (page[index] >> 16) & 0xff;
        case _ => value := (page[index] >> 24) & 0xff;
      }
    }

    lemma WordBytes(addr: nat)
      requires Valid() && addr < SPAN && addr % 4 == 0
      ensures WordAt(addr) == Bytes4(ByteAt(addr), ByteAt(addr + 1), ByteAt(addr + 2), ByteAt(addr + 3))
    {
      hide Lane, Bytes4;
      WordOfLanes(WordAt(addr));
      SameWord(addr);
    }

    lemma HalfBytes(addr: nat)
      requires Valid() && addr < SPAN && addr % 2 == 0
      ensures HalfOf(WordAt(addr), addr / 2 % 2 != 0) == Bytes2(ByteAt(addr), ByteAt(addr + 1))
    {
      hide Lane, HalfOf, Bytes2;
      HalfLanes(addr);
      CellsDistinct(addr, addr + 1);
      HalfOfLanes(WordAt(addr), addr / 2 % 2 != 0);
    }

    /** Addresses of one word have one word. */
    lemma SameWord(addr: nat)
      requires Valid() && addr < SPAN
      ensures forall a :: 0 <= a < SPAN && a / 4 == addr / 4 ==> WordAt(a) == WordAt(addr)
    {
      forall a | 0 <= a < SPAN && a / 4 == addr / 4 ensures WordAt(a) == WordAt(addr) { CellsDistinct(a, addr); }
    }
  }

  lemma HalfLanes(addr: nat)
    requires addr % 2 == 0 && addr < SPAN
    ensures addr + 1 < SPAN && (addr + 1) / 4 == addr / 4
    ensures addr % 4 == (if addr / 2 % 2 != 0 then 2 else 0) && (addr + 1) % 4 == (if addr / 2 % 2 != 0 then 3 else 1)
  {}

  /** Where a halfword lies within its word. */
  lemma HalfPlace(addr: nat, a: nat)
    requires addr % 2 == 0
    ensures addr <= a < addr + 2 <==> a / 4 == addr / 4 && (a % 4 >= 2) == (addr / 2 % 2 != 0)
    ensures addr <= a < addr + 2 ==> a % 4 % 2 == a - addr
  {}

  // ----- Reading what was written

  method WriteThenReadWord(m: Memory, addr: nat, data: bv32) returns (r: Access)
    requires m.Valid() && addr < SPAN
    modifies m, m.pages, m.repr
    ensures r == if addr % 4 != 0 then Unaligned else Ok(data)
  {
    hide Memory.Valid, Memory.ByteAt, Lane, Bytes4;
    var w := m.WriteWord(addr, data);
    r := m.ReadWord(addr);
    WordOfLanes(data);
  }

  method WriteThenReadHalf(m: Memory, addr: nat, data: bv32) returns (r: Access)
    requires m.Valid() && addr < SPAN
    modifies m, m.pages, m.repr
    ensures r == if addr % 2 != 0 then Unaligned else Ok(data & 0xffff)
  {
    hide Memory.Valid, Memory.ByteAt, Lane, Bytes2;
    var w := m.WriteHalf(addr, data);
    r := m.ReadHalf(addr);
    HalfBack(data);
  }

  method WriteThenReadByte(m: Memory, addr: nat, data: bv32) returns (value: bv32)
    requires m.Valid() && addr < SPAN
    modifies m, m.pages, m.repr
    ensures value == data & 0xff
  {
    m.WriteByte(addr, data);
    value := m.ReadByte(addr);
  }
}
