/**
 * The allocator of A6/lib.c over a word-addressed memory: free lists are linked through the
 * first word of every free block, and the same word holds the size of a live block. Each
 * method is proved to do to memory what module SmallBlocks says it does to the heap.
 */
module AllocatorCode {
  import opened SmallBlocks
  import opened Arithmetic

  /** The largest request for which adding the header and rounding up stays a 32-bit int. */
  const MAX_REQUEST := 0x7fff_fff4

  /** Up to there, and no further, the rounded size with its header is a 32-bit int. */
  lemma RequestsThatFit(request: int)
    ensures request <= MAX_REQUEST <==> RoundUp(request) <= 0x7fff_ffff
  {
    RoundedNumber(request);
    hide RoundUp;
  }

  /** Words by byte address. Only addresses that have been written are present. */
  type Memory = map<int, int>

  /** The blocks of list, linked from head on through their first words and ended by null. */
  predicate Chain(mem: Memory, head: int, list: seq<int>)
    decreases |list|
  {
    if list == [] then head == 0
    else head == list[0] && head != 0 && head in mem && Chain(mem, mem[head], list[1..])
  }

  /** Every word below limit is what it was, if it has been written at all. */
  ghost predicate SameBelow(mem: Memory, mem': Memory, limit: int) {
    forall a :: a < limit ==> (a in mem <==> a in mem') && (a in mem ==> mem'[a] == mem[a])
  }

  predicate SameOn(mem: Memory, mem': Memory, list: seq<int>) {
    forall b :: b in list && b in mem ==> b in mem' && mem'[b] == mem[b]
  }

  lemma {:induction false} ChainFrame(mem: Memory, mem': Memory, head: int, list: seq<int>)
    requires Chain(mem, head, list) && SameOn(mem, mem', list)
    ensures Chain(mem', head, list)
    decreases |list|
  {
    if list != [] {
      assert list[0] in list;
      ChainFrame(mem, mem', mem[head], list[1..]);
    }
  }

  predicate Chains(mem: Memory, headers: seq<int>, lists: seq<seq<int>>)
    requires |headers| == |lists|
  {
    forall c :: 0 <= c < |lists| ==> Chain(mem, headers[c], lists[c])
  }

  /** The size word in front of every live pointer. */
  predicate HeaderWords(mem: Memory, h: Heap) {
    forall p :: p in h.live ==> p - HEADER in h.sizes && p - HEADER in mem && mem[p - HEADER] == h.sizes[p - HEADER]
  }

  /** Word address a is in the part of a live block its owner may use. */
  predicate Payload(h: Heap, p: int, a: int) {
    a % 4 == 0 && p in h.live && p - HEADER in h.sizes && p <= a < p - HEADER + h.sizes[p - HEADER]
  }

  /** Payload words of h are what they were, if they have been written at all. */
  ghost predicate SamePayloads(h: Heap, mem: Memory, mem': Memory) {
    forall q, a :: Payload(h, q, a) ==> (a in mem <==> a in mem') && (a in mem ==> mem'[a] == mem[a])
  }

  ghost predicate PayloadsStay(h: Heap, h': Heap) {
    forall q, a :: Payload(h, q, a) ==> Payload(h', q, a)
  }

  /** Payload addresses are used, and none of them is the first word of any block. */
  lemma PayloadApart(h: Heap, start: int, p: int, a: int)
    requires Inv(h, start) && Payload(h, p, a)
    ensures a < h.free && a !in h.sizes
  {
    hide Inv;
    var i := BlockPlace(h, start, p - HEADER);
    if a in h.sizes {
      SizePositive(h, start, a);
      BlocksDisjoint(h, start, p - HEADER, a, a);
    }
  }

  /** Memory that keeps every word below the new chunk keeps all chains and headers. */
  lemma ChainsBelow(mem: Memory, mem': Memory, headers: seq<int>, h: Heap, start: int)
    requires Inv(h, start) && |headers| == NUM_SIZES && Chains(mem, headers, h.lists) && HeaderWords(mem, h)
    requires SameBelow(mem, mem', h.free)
    ensures Chains(mem', headers, h.lists) && HeaderWords(mem', h)
  {
    hide Chain;
    forall d | 0 <= d < NUM_SIZES ensures Chain(mem', headers[d], h.lists[d]) {
      forall b | b in h.lists[d] ensures b < h.free { InListBelow(h, start, d, b); }
      ChainFrame(mem, mem', headers[d], h.lists[d]);
    }
    forall p | p in h.live ensures p - HEADER < h.free { LiveBelow(h, start, p); }
  }

  lemma InListBelow(h: Heap, start: int, d: int, b: int)
    requires Inv(h, start) && 0 <= d < NUM_SIZES && b in h.lists[d]
    ensures b in h.sizes && 0 < b < h.free && b + HEADER !in h.live
  {
    SizePositive(h, start, b);
    var i := BlockPlace(h, start, b);
  }

  lemma LiveBelow(h: Heap, start: int, p: int)
    requires Inv(h, start) && p in h.live
    ensures p - HEADER in h.sizes && 0 < p - HEADER < h.free
  {
    SizePositive(h, start, p - HEADER);
    var i := BlockPlace(h, start, p - HEADER);
  }

  /** Writing a word no free list is linked through keeps every chain. */
  lemma ChainsApart(mem: Memory, headers: seq<int>, lists: seq<seq<int>>, a: int, v: int)
    requires |headers| == |lists| && Chains(mem, headers, lists)
    requires forall c :: 0 <= c < |lists| ==> a !in lists[c]
    ensures Chains(mem[a := v], headers, lists)
  {
    hide Chain;
    forall c | 0 <= c < |lists| ensures Chain(mem[a := v], headers[c], lists[c]) {
      ChainFrame(mem, mem[a := v], headers[c], lists[c]);
    }
  }

  class Allocator {
    const headers: array<int>
    var freeSpace: int
    var initialized: bool
    var mem: Memory
    ghost var start: int
    ghost var heap: Heap

    ghost predicate Valid()
      reads this, headers
    {
      && headers.Length == NUM_SIZES
      && Inv(heap, start)
      && freeSpace == heap.free
      && HeaderWords(mem, heap)
      && (initialized ==> Chains(mem, headers[..], heap.lists))
      && (!initialized ==> heap == Empty(start))
    }

    /** The heap area must lie above null and be aligned, as 0x2000000 is. */
    constructor (heapStart: int)
      requires 0 < heapStart && heapStart % STEP == 0
      ensures Valid() && fresh(headers) && heap == Empty(heapStart) && start == heapStart
    {
      headers := new int[NUM_SIZES];
      freeSpace := heapStart;
      initialized := false;
      mem := map[];
      start := heapStart;
      heap := Empty(heapStart);
      new;
      EmptyInv(heapStart);
    }

    /** The one-time clearing of the headers at the first request. */
    method Initialize()
      requires Valid()
      modifies headers, `initialized
      ensures Valid() && initialized
    {
      if !initialized {
        initialized := true;
        for j := 0 to NUM_SIZES
          invariant initialized && forall i :: 0 <= i < j ==> headers[i] == 0
        {
          headers[j] := 0;
        }
      }
    }

    /** Splits a chunk into n blocks, linked from its last block down so that addresses ascend. */
    method SplitChunk(c: int, chunk: int, allocation: int, size: int, ghost n: nat)
      requires 0 <= c < headers.Length && headers[c] == 0
      requires 0 < chunk && 0 < size && allocation == n * size
      modifies headers, `mem
      ensures headers[..] == old(headers[..])[c := headers[c]]
      ensures Chain(mem, headers[c], Blocks(chunk, size, n))
      ensures SameBelow(old(mem), mem, chunk)
    {
      var endChunk := chunk + allocation;
      endChunk := endChunk - size;
      ghost var blocks, i := Blocks(chunk, size, n), n;
      assert (n - 1) * size == n * size - size;
      assert blocks[n..] == [];
      while endChunk >= chunk
        invariant 0 <= i <= n && endChunk == chunk + (i - 1) * size
        invariant headers[..] == old(headers[..])[c := headers[c]]
        invariant Chain(mem, headers[c], blocks[i..])
        invariant SameBelow(old(mem), mem, chunk)
        decreases i
      {
        i := Backwards(i, n, size, chunk, endChunk);
        LinkBlock(mem, headers[c], blocks, i, chunk, size);
        mem := mem[endChunk := headers[c]];
        headers[c] := endChunk;
        endChunk := endChunk - size;
      }
      assert i == 0 by { if i > 0 { MulNonNegative(i - 1, size); } }
      assert blocks[0..] == blocks;
    }

    /** Refills an empty free list with a chunk carved off the free space. */
    method AllocateChunk(size: int)
      requires Valid() && initialized && SizeOk(size) && heap.lists[size / STEP] == []
      modifies headers, `mem, `freeSpace, `heap
      ensures Valid() && heap == Carve(old(heap), size)
      ensures SameBelow(old(mem), mem, old(freeSpace))
    {
      hide Inv, Chain, SizeOk, HeaderWords;
      SizeOkPositive(size);
      HeaderCount(heap, start);
      var c := size / STEP;
      EmptyList(mem, headers[..], heap.lists, c);
      var allocation := size * 10;
      if allocation < MIN_ALLOCATION {
        var numChunks := MIN_ALLOCATION / size;
        allocation := numChunks * size;
      }
      ghost var n := BlocksPerChunk(size);
      ChunkExact(size);
      SpaceAboveNull(heap, start);
      ghost var mem0, headers0 := mem, headers[..];
      var chunk := freeSpace;
      freeSpace := chunk + allocation;
      SplitChunk(c, chunk, allocation, size, n);
      ChainsBelow(mem0, mem, headers0, heap, start);
      CarveInv(heap, start, size);
      CarveHeaders(heap, start, size, mem);
      CarveChains(mem, headers0, headers[..], heap, size);
      heap := Carve(heap, size);
    }

    /** Unlinks the first free block of class c and stores its size in its first word. */
    method TakeBlock(c: int, size: int) returns (p: int)
      requires Valid() && initialized && SizeOk(size) && c == size / STEP
      requires |heap.lists| == NUM_SIZES && heap.lists[c] != []
      modifies headers, `mem, `heap
      ensures Valid() && (heap, p) == Take(old(heap), c)
      ensures SamePayloads(old(heap), old(mem), mem) && PayloadsStay(old(heap), heap)
    {
      hide Inv, Chain, Chains, SizeOk, HeaderWords;
      SizeOkPositive(size);
      PayloadsBelow(heap, start);
      FirstBlock(mem, headers[..], heap, start, c);
      var block := headers[c];
      TakeKeeps(mem, headers[..], heap, start, c, size);
      headers[c] := mem[block];
      mem := mem[block := size];
      TakeInv(heap, start, c);
      heap := Take(heap, c).0;
      p := block + HEADER;
    }

    /**
     * Answers a request with a pointer one header word into a free block of the right class,
     * or with null. Payload words of live blocks keep their values.
     */
    method Allocate(request: int) returns (p: int)
      requires Valid() && request <= MAX_REQUEST
      modifies this, headers
      ensures Valid() && start == old(start)
      ensures (heap, p) == SmallBlocks.Allocate(old(heap), request)
      ensures SamePayloads(old(heap), old(mem), mem) && PayloadsStay(old(heap), heap)
    {
      hide Inv, Chain, Chains, HeaderWords, Carve, SizeOk;
      ghost var heap0, mem0 := heap, mem;
      Initialize();
      HeaderCount(heap, start);
      if request < 1 { return 0; }
      var size := request + HEADER;
      var offset := size % STEP;
      if offset != 0 {
        size := (size - offset) + STEP;
      }
      var numSize := size / STEP;
      if numSize >= NUM_SIZES { return 0; }
      RoundUpOk(request);
      SizeOkPositive(size);
      ghost var h := if heap.lists[numSize] == [] then Carve(heap, size) else heap;
      HeadOrNull(mem, headers[..], heap.lists, numSize, heap, start);
      if headers[numSize] == 0 {
        AllocateChunk(size);
        CarveInv(heap0, start, size);
      }
      PayloadsBelow(heap0, start);
      CarvePayload(heap0, start, size);
      p := TakeBlock(numSize, size);
    }

    /** Gives a live block back to the head of its class, found by the size word in front of it. */
    method Release(p: int)
      requires Valid() && p in heap.live
      modifies this, headers
      ensures Valid() && start == old(start) && SizeOk(old(heap).sizes[p - HEADER])
      ensures heap == SmallBlocks.Release(old(heap), p)
      ensures SamePayloads(heap, old(mem), mem)
    {
      hide Inv, Chain, Chains, SizeOk;
      LiveInitialized(heap, start);
      ReleaseInv(heap, start, p);
      HeaderCount(heap, start);
      var chunk := p - HEADER;
      var size := mem[chunk];
      SizeOkPositive(size);
      var numSize := size / STEP;
      ReleaseKeeps(mem, headers[..], heap, start, p);
      mem := mem[chunk := headers[numSize]];
      headers[numSize] := chunk;
      heap := SmallBlocks.Release(heap, p);
      PayloadsBelow(heap, start);
    }

    /** What the owner of a live pointer may do: no write inside its payload disturbs the heap. */
    method Store(p: int, a: int, value: int)
      requires Valid() && Payload(heap, p, a)
      modifies `mem
      ensures Valid() && mem == old(mem)[a := value]
    {
      hide Inv, Chain, Chains;
      LiveInitialized(heap, start);
      StoreKeeps(mem, headers[..], heap, start, p, a, value);
      mem := mem[a := value];
    }
  }

  lemma EmptyList(mem: Memory, headers: seq<int>, lists: seq<seq<int>>, c: int)
    requires |headers| == |lists| && Chains(mem, headers, lists) && 0 <= c < |lists| && lists[c] == []
    ensures headers[c] == 0
  {
    assert Chain(mem, headers[c], lists[c]);
  }

  lemma SpaceAboveNull(h: Heap, start: int)
    requires Inv(h, start)
    ensures 0 < h.free
  {
    if h.order != [] { TilesAbove(h.order, start, h.free, 0); }
  }

  lemma Backwards(i: int, n: nat, size: int, chunk: int, endChunk: int) returns (j: int)
    requires 0 <= i <= n && size > 0 && endChunk == chunk + (i - 1) * size && endChunk >= chunk
    ensures j == i - 1 && 0 <= j && endChunk - size == chunk + (j - 1) * size
  {
    j := i - 1;
    if i == 0 {
      assert false;
    }
    assert (j - 1) * size == j * size - size;
  }

  /** Writing the link of the next lower block extends the chain by that block. */
  lemma LinkBlock(mem: Memory, head: int, blocks: seq<int>, i: nat, chunk: int, size: int)
    requires i < |blocks| && 0 < chunk && 0 < size
    requires blocks == Blocks(chunk, size, |blocks|)
    requires Chain(mem, head, blocks[i + 1..])
    ensures Chain(mem[blocks[i] := head], blocks[i], blocks[i..])
  {
    var mem' := mem[blocks[i] := head];
    hide Chain;
    if blocks[i] in blocks[i + 1..] {
      var k :| i < k < |blocks| && blocks[k] == blocks[i];
      StepsApart(i, k, size);
    }
    ChainFrame(mem, mem', head, blocks[i + 1..]);
    MulNonNegative(i, size);
    assert blocks[i..] == [blocks[i]] + blocks[i + 1..];
    ChainPush(mem', blocks[i], head, blocks[i + 1..]);
  }

  lemma StepsApart(i: int, k: int, size: int)
    requires i < k && 0 < size
    ensures i * size < k * size
  {
    assert k * size == i * size + (k - i) * size;
    MulAtLeast(size, k - i);
  }

  lemma CarveHeaders(h: Heap, start: int, size: int, mem: Memory)
    requires Inv(h, start) && SizeOk(size) && HeaderWords(mem, h)
    ensures HeaderWords(mem, Carve(h, size))
  {
    CarveFresh(h, start, size);
  }

  lemma CarveChains(mem: Memory, headers: seq<int>, headers': seq<int>, h: Heap, size: int)
    requires 0 < size && size / STEP < |h.lists| == |headers| == |headers'|
    requires headers' == headers[size / STEP := headers'[size / STEP]]
    requires Chains(mem, headers, h.lists)
    requires Chain(mem, headers'[size / STEP], Blocks(h.free, size, BlocksPerChunk(size)))
    ensures Chains(mem, headers', Carve(h, size).lists)
  {
    hide Chain;
    forall d | 0 <= d < |headers| ensures Chain(mem, headers'[d], Carve(h, size).lists[d]) {
      assert Chain(mem, headers[d], h.lists[d]);
    }
  }

  /** The header of a class is null exactly when its free list is empty. */
  lemma HeadOrNull(mem: Memory, headers: seq<int>, lists: seq<seq<int>>, c: int, h: Heap, start: int)
    requires |headers| == |lists| && Chains(mem, headers, lists) && 0 <= c < |lists|
    ensures headers[c] == 0 <==> lists[c] == []
  {
    assert Chain(mem, headers[c], lists[c]);
  }

  lemma FirstBlock(mem: Memory, headers: seq<int>, h: Heap, start: int, c: int)
    requires Inv(h, start) && 0 <= c < |headers| == NUM_SIZES && Chains(mem, headers, h.lists) && h.lists[c] != []
    ensures headers[c] == h.lists[c][0] && headers[c] in mem && headers[c] in h.sizes
    ensures Chain(mem, mem[headers[c]], h.lists[c][1..])
  {
    assert Chain(mem, headers[c], h.lists[c]);
    assert headers[c] in h.lists[c];
  }

  /** Old payloads lie below the space a chunk is carved from. */
  lemma PayloadsBelow(h: Heap, start: int)
    requires Inv(h, start)
    ensures forall q, a :: Payload(h, q, a) ==> a < h.free && a !in h.sizes
  {
    forall q, a | Payload(h, q, a) ensures a < h.free && a !in h.sizes { PayloadApart(h, start, q, a); }
  }

  /** Carving leaves every payload a payload. */
  lemma CarvePayload(h: Heap, start: int, size: int)
    requires Inv(h, start) && SizeOk(size)
    ensures forall q, a :: Payload(h, q, a) ==> Payload(Carve(h, size), q, a)
  {
    hide Tiles, SameBlocks, Classified;
    CarveFresh(h, start, size);
  }

  /** Unlinking the first block of class c and storing its size keeps chains and headers. */
  lemma TakeKeeps(mem: Memory, headers: seq<int>, h: Heap, start: int, c: int, size: int)
    requires Inv(h, start) && 0 <= c < |headers| == NUM_SIZES && Chains(mem, headers, h.lists) && HeaderWords(mem, h)
    requires h.lists[c] != [] && SizeOk(size) && size / STEP == c
    ensures headers[c] in mem
    ensures Chains(mem[headers[c] := size], headers[c := mem[headers[c]]], Take(h, c).0.lists)
    ensures HeaderWords(mem[headers[c] := size], Take(h, c).0)
  {
    hide Chain;
    FirstBlock(mem, headers, h, start, c);
    var b, mem' := headers[c], mem[headers[c] := size];
    var lists' := Take(h, c).0.lists;
    forall d | 0 <= d < NUM_SIZES ensures Chain(mem', headers[c := mem[b]][d], lists'[d]) {
      assert b !in lists'[d];
      assert d != c ==> Chain(mem, headers[d], h.lists[d]);
      ChainFrame(mem, mem', headers[c := mem[b]][d], lists'[d]);
    }
    SameClassSameSize(h.sizes[b], size);
    forall p | p in h.live ensures p - HEADER != b {
      assert b + HEADER !in h.live;
    }
  }

  lemma LiveInitialized(h: Heap, start: int)
    requires Inv(h, start)
    ensures h.live != {} ==> h != Empty(start)
  {}

  lemma LiveInNoList(h: Heap, start: int, p: int, d: int)
    requires Inv(h, start) && p in h.live && 0 <= d < NUM_SIZES
    ensures p - HEADER !in h.lists[d]
  {
    hide Tiles, SameBlocks, Distinct;
    assert p - HEADER + HEADER in h.live;
  }

  /** Linking a released block in front of its class keeps chains and the remaining headers. */
  lemma ReleaseKeeps(mem: Memory, headers: seq<int>, h: Heap, start: int, p: int)
    requires Inv(h, start) && |headers| == NUM_SIZES && Chains(mem, headers, h.lists) && HeaderWords(mem, h)
    requires p in h.live && SizeOk(h.sizes[p - HEADER])
    ensures var b := p - HEADER; var c := h.sizes[b] / STEP; var r := SmallBlocks.Release(h, p);
      Chains(mem[b := headers[c]], headers[c := b], r.lists) && HeaderWords(mem[b := headers[c]], r)
  {
    hide Chain, Tiles, SameBlocks, Classified;
    var b := p - HEADER;
    var c := h.sizes[b] / STEP;
    LiveBelow(h, start, p);
    forall d | 0 <= d < NUM_SIZES ensures Chain(mem[b := headers[c]], headers[d], h.lists[d]) {
      LiveInNoList(h, start, p, d);
      assert Chain(mem, headers[d], h.lists[d]);
      ChainFrame(mem, mem[b := headers[c]], headers[d], h.lists[d]);
    }
    ChainPush(mem[b := headers[c]], b, headers[c], h.lists[c]);
  }

  lemma ChainPush(mem: Memory, b: int, head: int, list: seq<int>)
    requires b != 0 && b in mem && mem[b] == head && Chain(mem, head, list)
    ensures Chain(mem, b, [b] + list)
  {
    assert ([b] + list)[1..] == list;
  }

  lemma StoreKeeps(mem: Memory, headers: seq<int>, h: Heap, start: int, p: int, a: int, value: int)
    requires Inv(h, start) && |headers| == NUM_SIZES && Chains(mem, headers, h.lists) && HeaderWords(mem, h)
    requires Payload(h, p, a)
    ensures Chains(mem[a := value], headers, h.lists) && HeaderWords(mem[a := value], h)
  {
    hide Chain, Chains, Tiles, SameBlocks;
    PayloadApart(h, start, p, a);
    ChainsApart(mem, headers, h.lists, a, value);
  }
}
