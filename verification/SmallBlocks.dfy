/**
 * The small-block heap of A6/lib.c as a value: one free list per size class, the blocks
 * carved so far in address order, and the pointers handed out. What allocating and
 * releasing do to it, and why the blocks always tile the used part of memory.
 */
module SmallBlocks {
  import opened Options

  const SMALL_BLOCK_LIMIT := 4096
  const MIN_ALLOCATION := 100
  const STEP := 8
  const NUM_SIZES := SMALL_BLOCK_LIMIT / STEP
  const HEADER := 4

  datatype Block = Block(addr: int, size: int)

  /**
   * lists[c] are the free blocks of class c from the header on; order are all blocks by
   * address, sizes the same as a map (header words included); live are the pointers handed out,
   * each one header word into its block; the next chunk starts at free.
   */
  datatype Heap = Heap(lists: seq<seq<int>>, order: seq<Block>, sizes: map<int, int>, live: set<int>, free: int)

  // ----- Sizes and chunks

  function RoundUp(size: int): int {
    var s := size + HEADER;
    var offset := s % STEP;
    if offset != 0 then s - offset + STEP else s
  }

  /** Requests answered with a block; the others get the null pointer. */
  predicate Served(size: int) {
    1 <= size && RoundUp(size) / STEP < NUM_SIZES
  }

  function ClassOf(size: int): int {
    RoundUp(size) / STEP
  }

  function ChunkSize(s: int): int
    requires s > 0
  {
    if s * 10 < MIN_ALLOCATION then MIN_ALLOCATION / s * s else s * 10
  }

  function BlocksPerChunk(s: int): nat
    requires s > 0
  {
    if s * 10 < MIN_ALLOCATION then MIN_ALLOCATION / s else 10
  }

  /** count blocks of size s from start on. */
  function Blocks(start: int, s: int, count: nat): (r: seq<int>)
    ensures |r| == count
    ensures forall i :: 0 <= i < count ==> r[i] == start + i * s
  {
    seq(count, i => start + i * s)
  }

  function ToBlocks(start: int, s: int, count: nat): (r: seq<Block>)
    ensures |r| == count
    ensures forall i :: 0 <= i < count ==> r[i] == Block(start + i * s, s)
  {
    seq(count, i => Block(start + i * s, s))
  }

  // ----- Operations

  function Carve(h: Heap, s: int): Heap
    requires s > 0 && s / STEP < |h.lists|
  {
    var blocks := Blocks(h.free, s, BlocksPerChunk(s));
    Heap(h.lists[s / STEP := blocks], h.order + ToBlocks(h.free, s, |blocks|), h.sizes + (map b | b in blocks :: s),
         h.live, h.free + ChunkSize(s))
  }

  function Take(h: Heap, c: int): (Heap, int)
    requires 0 <= c < |h.lists| && h.lists[c] != []
  {
    var p := h.lists[c][0] + HEADER;
    (h.(lists := h.lists[c := h.lists[c][1..]], live := h.live + {p}), p)
  }

  function Allocate(h: Heap, size: int): (Heap, int)
    requires |h.lists| == NUM_SIZES
  {
    if !Served(size) then (h, 0)
    else
      var c := ClassOf(size);
      Take(if h.lists[c] == [] then Carve(h, RoundUp(size)) else h, c)
  }

  function Release(h: Heap, p: int): Heap
    requires p - HEADER in h.sizes && 0 <= h.sizes[p - HEADER] / STEP < |h.lists|
  {
    var b := p - HEADER;
    var c := h.sizes[b] / STEP;
    h.(lists := h.lists[c := [b] + h.lists[c]], live := h.live - {p})
  }

  // ----- The invariant

  /** Whole steps, below the largest class. */
  predicate SizeOk(s: int) {
    s % STEP == 0 && STEP <= s && s / STEP < NUM_SIZES
  }

  /** Each block starts where the one before it ends; together they fill [start, end). */
  predicate Tiles(order: seq<Block>, start: int, end: int) {
    && (forall i :: 0 <= i < |order| ==> order[i].size > 0)
    && (if order == [] then start == end
        else order[0].addr == start && order[|order| - 1].addr + order[|order| - 1].size == end)
    && forall i :: 1 <= i < |order| ==> Adjacent(order, i)
  }

  predicate Adjacent(order: seq<Block>, i: int)
    requires 1 <= i < |order|
  {
    order[i].addr == order[i - 1].addr + order[i - 1].size
  }

  /** order and sizes describe the same blocks. */
  predicate SameBlocks(order: seq<Block>, sizes: map<int, int>) {
    && (forall k :: k in order ==> k.addr in sizes && sizes[k.addr] == k.size)
    && (forall b :: b in sizes ==> Block(b, sizes[b]) in order)
  }

  predicate Distinct(s: seq<int>) {
    forall i, j :: 0 <= i < j < |s| ==> s[i] != s[j]
  }

  /** Every block is either live or once in the free list of its own class, and nothing else is. */
  predicate Classified(h: Heap)
    requires |h.lists| == NUM_SIZES
  {
    && (forall b :: b in h.sizes ==> SizeOk(h.sizes[b]) && (b + HEADER in h.live <==> b !in h.lists[h.sizes[b] / STEP]))
    && (forall p :: p in h.live ==> p - HEADER in h.sizes)
    && (forall c, b :: 0 <= c < NUM_SIZES && b in h.lists[c] ==> b in h.sizes && h.sizes[b] / STEP == c)
    && (forall c :: 0 <= c < NUM_SIZES ==> Distinct(h.lists[c]))
  }

  predicate Inv(h: Heap, start: int) {
    && |h.lists| == NUM_SIZES
    && 0 < start && start % STEP == 0
    && Tiles(h.order, start, h.free)
    && SameBlocks(h.order, h.sizes)
    && Classified(h)
  }

  // ----- What tiling means

  /** Later blocks lie above earlier ones. */
  lemma {:induction false} TilesOrdered(order: seq<Block>, start: int, end: int, i: int, j: int)
    requires Tiles(order, start, end) && 0 <= i < j < |order|
    ensures order[i].addr + order[i].size <= order[j].addr
    decreases j - i
  {
    assert Adjacent(order, j);
    if i < j - 1 { TilesOrdered(order, start, end, i, j - 1); }
  }

  lemma {:induction false} TilesAbove(order: seq<Block>, start: int, end: int, i: int)
    requires Tiles(order, start, end) && 0 <= i < |order|
    ensures start <= order[i].addr && order[i].addr + order[i].size <= end
  {
    if 0 < i { TilesOrdered(order, start, end, 0, i); }
    if i < |order| - 1 { TilesOrdered(order, start, end, i, |order| - 1); }
  }

  lemma {:induction false} TilesAligned(order: seq<Block>, start: int, end: int, i: int)
    requires Tiles(order, start, end) && 0 <= i < |order| && start % STEP == 0
    requires forall k :: 0 <= k < |order| ==> order[k].size % STEP == 0
    ensures order[i].addr % STEP == 0
  {
    if 0 < i {
      assert Adjacent(order, i);
      TilesAligned(order, start, end, i - 1);
    }
  }

  lemma BlockPlace(h: Heap, start: int, b: int) returns (i: int)
    requires Inv(h, start) && b in h.sizes
    ensures 0 <= i < |h.order| && h.order[i] == Block(b, h.sizes[b])
    ensures start <= b && b + h.sizes[b] <= h.free && b % STEP == 0
  {
    i :| 0 <= i < |h.order| && h.order[i] == Block(b, h.sizes[b]);
    TilesAbove(h.order, start, h.free, i);
    forall k | 0 <= k < |h.order| ensures h.order[k].size % STEP == 0 {
      assert h.order[k] in h.order;
    }
    TilesAligned(h.order, start, h.free, i);
  }

  predicate Covers(h: Heap, b: int, x: int) {
    b in h.sizes && b <= x < b + h.sizes[b]
  }

  /** Two blocks with a common address are one block. */
  lemma BlocksDisjoint(h: Heap, start: int, b: int, d: int, x: int)
    requires Inv(h, start) && Covers(h, b, x) && Covers(h, d, x)
    ensures b == d
  {
    hide Classified;
    var i :| 0 <= i < |h.order| && h.order[i] == Block(b, h.sizes[b]);
    var j :| 0 <= j < |h.order| && h.order[j] == Block(d, h.sizes[d]);
    if i < j {
      TilesOrdered(h.order, start, h.free, i, j);
    } else if j < i {
      TilesOrdered(h.order, start, h.free, j, i);
    }
  }

  /** Blocks, free and live together, cover every used address exactly once and nothing else. */
  lemma UsedExactlyOnce(h: Heap, start: int, x: int)
    requires Inv(h, start)
    ensures start <= x < h.free <==> exists b :: Covers(h, b, x)
    ensures forall b, d :: Covers(h, b, x) && Covers(h, d, x) ==> b == d
  {
    hide Classified, Tiles;
    forall b | Covers(h, b, x) ensures start <= x < h.free {
      var i := BlockPlace(h, start, b);
    }
    forall b, d | Covers(h, b, x) && Covers(h, d, x) ensures b == d {
      BlocksDisjoint(h, start, b, d, x);
    }
    if start <= x < h.free {
      var k := FindBlock(h.order, start, h.free, x);
      assert Covers(h, k.addr, x);
    }
  }

  lemma {:induction false} FindBlock(order: seq<Block>, start: int, end: int, x: int) returns (k: Block)
    requires Tiles(order, start, end) && start <= x < end
    ensures k in order && k.addr <= x < k.addr + k.size
    decreases |order|
  {
    var n := |order| - 1;
    if order[n].addr <= x {
      k := order[n];
    } else {
      assert Adjacent(order, n);
      forall i | 1 <= i < n ensures Adjacent(order[..n], i) {
        assert Adjacent(order, i);
      }
      k := FindBlock(order[..n], start, order[n].addr, x);
    }
  }

  // ----- What every operation keeps

  lemma RoundUpOk(size: int)
    requires Served(size)
    ensures SizeOk(RoundUp(size)) && size + HEADER <= RoundUp(size) < size + HEADER + STEP
  {}

  lemma ChunkExact(s: int)
    requires SizeOk(s)
    ensures BlocksPerChunk(s) > 0 && ChunkSize(s) == BlocksPerChunk(s) * s
  {
    if s == 8 {} else { assert s >= 16; }
  }

  lemma CarveTiles(h: Heap, start: int, s: int)
    requires Inv(h, start) && SizeOk(s)
    ensures Tiles(Carve(h, s).order, start, Carve(h, s).free)
  {
    hide Classified, SameBlocks;
    ChunkExact(s);
    var n, count := |h.order|, BlocksPerChunk(s);
    var order := Carve(h, s).order;
    assert order[n].addr == h.free + 0 * s;
    assert order[n + count - 1].addr == h.free + (count - 1) * s;
    assert (count - 1) * s + s == count * s;
    forall i | 1 <= i < |order| ensures Adjacent(order, i) {
      if i < n {
        assert Adjacent(h.order, i);
      } else if n < i {
        assert order[i].addr == h.free + (i - n) * s && order[i - 1].addr == h.free + (i - 1 - n) * s;
        assert (i - n) * s == (i - 1 - n) * s + s;
      }
    }
  }

  /** New blocks lie above all old ones and apart from each other. */
  lemma CarveFresh(h: Heap, start: int, s: int)
    requires Inv(h, start) && SizeOk(s)
    ensures forall b :: b in Blocks(h.free, s, BlocksPerChunk(s)) ==> b !in h.sizes
    ensures Distinct(Blocks(h.free, s, BlocksPerChunk(s)))
  {
    hide Classified, Tiles, SameBlocks;
    var blocks := Blocks(h.free, s, BlocksPerChunk(s));
    forall i | 0 <= i < |blocks| ensures blocks[i] !in h.sizes {
      if blocks[i] in h.sizes {
        var k := BlockPlace(h, start, blocks[i]);
        assert i * s >= 0;
        SizePositive(h, start, blocks[i]);
        assert false;
      }
    }
    forall i, j | 0 <= i < j < |blocks| ensures blocks[i] != blocks[j] {
      assert j * s == i * s + (j - i) * s;
      assert (j - i) * s > 0;
    }
  }

  lemma SizePositive(h: Heap, start: int, b: int)
    requires Inv(h, start) && b in h.sizes
    ensures h.sizes[b] > 0
  {}

  lemma CarveSameBlocks(h: Heap, start: int, s: int)
    requires Inv(h, start) && SizeOk(s)
    ensures SameBlocks(Carve(h, s).order, Carve(h, s).sizes)
  {
    hide Tiles, Classified, SizeOk;
    SizeOkPositive(s);
    CarveFresh(h, start, s);
    var r, blocks := Carve(h, s), Blocks(h.free, s, BlocksPerChunk(s));
    var added := ToBlocks(h.free, s, |blocks|);
    forall k | k in r.order ensures k.addr in r.sizes && r.sizes[k.addr] == k.size {
      if k !in h.order {
        var i :| 0 <= i < |blocks| && added[i] == k;
        assert blocks[i] == k.addr;
      }
    }
    forall b | b in r.sizes ensures Block(b, r.sizes[b]) in r.order {
      if b in blocks {
        var i :| 0 <= i < |blocks| && blocks[i] == b;
        assert added[i] == Block(b, s);
      } else {
        assert Block(b, h.sizes[b]) in h.order;
      }
    }
  }

  lemma SizeOkPositive(s: int)
    requires SizeOk(s)
    ensures s > 0 && 0 <= s / STEP < NUM_SIZES
  {}

  lemma CarveClassified(h: Heap, start: int, s: int)
    requires Inv(h, start) && SizeOk(s) && h.lists[s / STEP] == []
    ensures Classified(Carve(h, s))
  {
    hide Tiles, SameBlocks, SizeOk;
    SizeOkPositive(s);
    CarveFresh(h, start, s);
    var r, blocks := Carve(h, s), Blocks(h.free, s, BlocksPerChunk(s));
    forall b | b in blocks ensures b + HEADER !in h.live {
      if b + HEADER in h.live {
        assert false;
      }
    }
    forall b | b in h.sizes
      ensures r.sizes[b] == h.sizes[b] && SizeOk(r.sizes[b]) && 0 <= r.sizes[b] / STEP < NUM_SIZES
    {
      SizeOkPositive(r.sizes[b]);
    }
  }

  lemma CarveInv(h: Heap, start: int, s: int)
    requires Inv(h, start) && SizeOk(s) && h.lists[s / STEP] == []
    ensures Inv(Carve(h, s), start) && Carve(h, s).lists[s / STEP] != []
  {
    ChunkExact(s);
    CarveTiles(h, start, s);
    CarveSameBlocks(h, start, s);
    CarveClassified(h, start, s);
  }

  lemma TakeInv(h: Heap, start: int, c: int)
    requires Inv(h, start) && 0 <= c < NUM_SIZES && h.lists[c] != []
    ensures var r := Take(h, c);
      Inv(r.0, start) && r.1 !in h.live && r.1 - HEADER in h.sizes
      && SizeOk(h.sizes[r.1 - HEADER]) && h.sizes[r.1 - HEADER] / STEP == c
  {
    hide Tiles, SameBlocks;
    var r, b, rest := Take(h, c).0, h.lists[c][0], h.lists[c][1..];
    assert b in h.lists[c];
    assert forall d :: d in h.lists[c] <==> d == b || d in rest;
    assert b !in rest;
    assert Distinct(rest);
  }

  /**
   * A served request gets a pointer that was not in use, into a block of its own class with
   * room for the request; the others get the null pointer and change nothing.
   */
  lemma AllocateInv(h: Heap, start: int, size: int)
    requires Inv(h, start)
    ensures var (r, p) := Allocate(h, size);
      && Inv(r, start)
      && (Served(size) ==>
        && p > 0 && p !in h.live && r.live == h.live + {p} && (p - HEADER) % STEP == 0
        && p - HEADER in r.sizes && r.sizes[p - HEADER] == RoundUp(size)
        && start + HEADER <= p && p + size <= p - HEADER + r.sizes[p - HEADER] <= r.free)
      && (!Served(size) ==> r == h && p == 0)
  {
    hide Inv, SizeOk, Carve, RoundUp;
    if Served(size) {
      var s, c := RoundUp(size), ClassOf(size);
      RoundUpOk(size);
      SizeOkPositive(s);
      assert |h.lists| == NUM_SIZES by { HeaderCount(h, start); }
      if h.lists[c] == [] { CarveInv(h, start, s); }
      var g := if h.lists[c] == [] then Carve(h, s) else h;
      CarveKeepsLive(h, s);
      HeaderCount(g, start);
      TakeInv(g, start, c);
      var (r, p) := Take(g, c);
      var i := BlockPlace(r, start, p - HEADER);
      SameClassSameSize(r.sizes[p - HEADER], s);
    }
  }

  /** Of all requests exactly those from 1 to 4084 bytes get a block. */
  lemma ServedExactly(h: Heap, start: int, size: int)
    requires Inv(h, start)
    ensures |h.lists| == 512
    ensures Allocate(h, size).1 != 0 <==> 1 <= size <= 4084
  {
    hide Inv, Allocate, RoundUp;
    HeaderCount(h, start);
    AllocateInv(h, start, size);
    ServedRange(size);
  }

  lemma ServedRange(size: int)
    ensures Served(size) <==> 1 <= size <= 4084
  {}

  lemma RoundedNumber(size: int)
    ensures RoundUp(size) == 8 * ((size + 11) / 8)
  {}

  /**
   * Which block: the first free one of the class, or else the first of a new chunk, which is 96 bytes of
   * 8-byte blocks or ten larger ones. A block has the least multiple of eight bytes with room for the header.
   */
  lemma WhichBlock(h: Heap, start: int, size: int)
    requires Inv(h, start) && 1 <= size <= 4084
    ensures |h.lists| == 512
    ensures var c := (size + 11) / 8; var (r, p) := Allocate(h, size);
      && p - 4 in r.sizes && r.sizes[p - 4] == 8 * c
      && (if h.lists[c] == [] then p == h.free + 4 && r.free == h.free + (if c == 1 then 96 else 80 * c)
          else p == h.lists[c][0] + 4 && r.free == h.free)
  {
    hide Inv, RoundUp, Served, SizeOk, ClassOf, Allocate;
    HeaderCount(h, start);
    ClassNumber(size);
    AllocatedSize(h, start, size);
    BlockOfClass(h, size, (size + 11) / 8);
  }

  lemma AllocatedSize(h: Heap, start: int, size: int)
    requires Inv(h, start) && Served(size)
    ensures |h.lists| == 512 && var (r, p) := Allocate(h, size); p - 4 in r.sizes && r.sizes[p - 4] == RoundUp(size)
  {
    hide Inv, RoundUp, Served, Allocate;
    HeaderCount(h, start);
    AllocateInv(h, start, size);
  }

  lemma BlockOfClass(h: Heap, size: int, c: int)
    requires |h.lists| == 512 && Served(size) && 1 <= c < 512 && SizeOk(RoundUp(size))
    requires ClassOf(size) == c && RoundUp(size) == 8 * c
    ensures var (r, p) := Allocate(h, size);
      if h.lists[c] == [] then p == h.free + 4 && r.free == h.free + (if c == 1 then 96 else 80 * c)
      else p == h.lists[c][0] + 4 && r.free == h.free
  {
    hide RoundUp, Served, SizeOk, ClassOf, Carve, Take, Allocate, ChunkSize, BlocksPerChunk;
    AllocateTakes(h, size);
    CarvedFirst(h, RoundUp(size));
    ChunkNumber(RoundUp(size));
    Taken(if h.lists[c] == [] then Carve(h, RoundUp(size)) else h, c);
  }

  lemma ClassNumber(size: int)
    requires 1 <= size <= 4084
    ensures Served(size) && RoundUp(size) == 8 * ((size + 11) / 8) && ClassOf(size) == (size + 11) / 8
    ensures SizeOk(RoundUp(size)) && 1 <= (size + 11) / 8 < 512
  {
    hide RoundUp, Served;
    ServedRange(size);
    RoundedNumber(size);
  }

  lemma AllocateTakes(h: Heap, size: int)
    requires |h.lists| == 512 && Served(size) && 1 <= ClassOf(size) < 512 && RoundUp(size) > 0
    requires RoundUp(size) == 8 * ClassOf(size) && SizeOk(RoundUp(size))
    ensures var c := ClassOf(size); var g := if h.lists[c] == [] then Carve(h, RoundUp(size)) else h;
      c < |g.lists| && g.lists[c] != [] && Allocate(h, size) == Take(g, c)
  {
    hide RoundUp, Served, ClassOf, Carve, Take;
    CarvedFirst(h, RoundUp(size));
  }

  lemma CarvedFirst(h: Heap, s: int)
    requires SizeOk(s) && |h.lists| == NUM_SIZES
    ensures var g := Carve(h, s);
      |g.lists| == NUM_SIZES && g.lists[s / 8] != [] && g.lists[s / 8][0] == h.free && g.free == h.free + ChunkSize(s)
  {
    hide ChunkSize, BlocksPerChunk;
    ChunkNumber(s);
  }

  lemma Taken(h: Heap, c: int)
    requires 0 <= c < |h.lists| && h.lists[c] != []
    ensures var (r, p) := Take(h, c); p == h.lists[c][0] + 4 && r.free == h.free
  {}

  lemma ChunkNumber(s: int)
    requires SizeOk(s)
    ensures ChunkSize(s) == if s == 8 then 96 else 10 * s
    ensures BlocksPerChunk(s) == if s == 8 then 12 else 10
  {
    assert s == 8 || s >= 16;
  }

  lemma HeaderCount(h: Heap, start: int)
    requires Inv(h, start)
    ensures |h.lists| == NUM_SIZES && 0 < start
  {}

  lemma LiveSized(h: Heap, start: int, p: int)
    requires Inv(h, start) && p in h.live
    ensures p - HEADER in h.sizes && SizeOk(h.sizes[p - HEADER])
  {}

  lemma CarveKeepsLive(h: Heap, s: int)
    requires s > 0 && s / STEP < |h.lists|
    ensures Carve(h, s).live == h.live
  {}

  lemma SameClassSameSize(s: int, t: int)
    requires SizeOk(s) && SizeOk(t) && s / STEP == t / STEP
    ensures s == t
  {}

  lemma ReleaseInv(h: Heap, start: int, p: int)
    requires Inv(h, start) && p in h.live
    ensures SizeOk(h.sizes[p - HEADER])
    ensures Inv(Release(h, p), start)
  {
    hide Tiles, SameBlocks;
    var b := p - HEADER;
    var c := h.sizes[b] / STEP;
    assert b + HEADER in h.live;
    var list := h.lists[c];
    assert b !in list;
    assert forall d :: d in [b] + list <==> d == b || d in list;
    assert Distinct([b] + list);
  }

  /** Last in, first out: allocating in the class just released undoes the release. */
  lemma ReleaseThenAllocate(h: Heap, start: int, p: int, size: int)
    requires Inv(h, start) && p in h.live
    requires Served(size) && RoundUp(size) == h.sizes[p - HEADER]
    ensures SizeOk(h.sizes[p - HEADER]) && Allocate(Release(h, p), size) == (h, p)
  {
    hide Tiles, SameBlocks, RoundUp, Served, Distinct;
    ReleaseInv(h, start, p);
    var c := ClassOf(size);
    var r := Release(h, p);
    assert r.lists[c][1..] == h.lists[c];
    assert r.lists[c := h.lists[c]] == h.lists;
    assert r.live + {p} == h.live;
  }

  // ----- Whole runs

  datatype Op = Alloc(size: int) | Free(p: int)

  predicate Legal(h: Heap, op: Op) {
    op.Free? ==> op.p in h.live
  }

  function Step(h: Heap, start: int, op: Op): (r: Heap)
    requires Inv(h, start) && Legal(h, op)
    ensures Inv(r, start)
  {
    match op
    case Alloc(size) => AllocateInv(h, start, size); Allocate(h, size).0
    case Free(p) => ReleaseInv(h, start, p); Release(h, p)
  }

  function Empty(start: int): Heap {
    Heap(seq(NUM_SIZES, _ => []), [], map[], {}, start)
  }

  lemma EmptyInv(start: int)
    requires 0 < start && start % STEP == 0
    ensures Inv(Empty(start), start)
  {}

  /** The heap after any run of requests and releases of live pointers; None for other runs. */
  function Run(start: int, ops: seq<Op>): (r: Option<Heap>)
    requires 0 < start && start % STEP == 0
    ensures r.Some? ==> Inv(r.value, start)
  {
    if ops == [] then
      Some(Empty(start))
    else
      match Run(start, ops[..|ops| - 1])
      case None => None
      case Some(h) =>
        var op := ops[|ops| - 1];
        if Legal(h, op) then Some(Step(h, start, op)) else None
  }
}
