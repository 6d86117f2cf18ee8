/**
 * Nodes of A6/radix.c in the words the allocator of A6/lib.c hands out: position, number and
 * the two words of the union, one after the other in the payload of the node's block.
 */
module NodeWords {
  import opened Arithmetic
  import opened Words
  import opened TreeMemory
  import opened AllocatorCode
  import SmallBlocks

  /** sizeof(struct node) on the 32-bit target. */
  const NODE_SIZE := 16

  const BIT_POS := 0
  const NUMBER := 4
  const ZERO_WORD := 8
  const ONE_WORD := 12

  const TWO32 := 0x1_0000_0000

  /** A bit pattern as the value of a memory word, and back. */
  function Code(w: Word): int { w.bits as int }

  function Decode(i: int): Word { Word((i % TWO32) as bv32) }

  lemma BitsInRange(b: bv32)
    ensures 0 <= b as int < TWO32
  {}

  lemma BitsBack(b: bv32)
    ensures (b as int) as bv32 == b
  {}

  lemma InRange(i: int)
    requires 0 <= i < TWO32
    ensures i % TWO32 == i
  {}

  lemma DecodeCode(w: Word)
    ensures Decode(Code(w)) == w
  {
    BitsInRange(w.bits);
    InRange(w.bits as int);
    BitsBack(w.bits);
  }

  /** What a load finds. That a word never written reads as zero is nowhere relied on. */
  function Fetch(mem: Memory, a: int): int {
    if a in mem then mem[a] else 0
  }

  function NodeIn(mem: Memory, p: int): Node {
    Node(Decode(Fetch(mem, p + BIT_POS)), Decode(Fetch(mem, p + NUMBER)),
         Fetch(mem, p + ZERO_WORD), Fetch(mem, p + ONE_WORD))
  }

  predicate Field(k: int) { k == BIT_POS || k == NUMBER || k == ZERO_WORD || k == ONE_WORD }

  /** The four words of a node at p are its owner's to use. */
  predicate Fits(h: SmallBlocks.Heap, p: int) {
    && Payload(h, p, p + BIT_POS) && Payload(h, p, p + NUMBER)
    && Payload(h, p, p + ZERO_WORD) && Payload(h, p, p + ONE_WORD)
  }

  /** The nodes are exactly the live blocks, and each is what the words of its block say. */
  predicate InMemory(h: SmallBlocks.Heap, mem: Memory, nodes: Nodes) {
    nodes.Keys == h.live && forall p :: p in nodes ==> Fits(h, p) && nodes[p] == NodeIn(mem, p)
  }

  /** A word belongs to one live block at most. */
  lemma PayloadOfOne(h: SmallBlocks.Heap, start: int, p: int, q: int, a: int)
    requires SmallBlocks.Inv(h, start) && Payload(h, p, a) && Payload(h, q, a)
    ensures p == q
  {
    SmallBlocks.BlocksDisjoint(h, start, p - SmallBlocks.HEADER, q - SmallBlocks.HEADER, a);
  }

  lemma SameWordsSameNode(h: SmallBlocks.Heap, mem: Memory, mem': Memory, p: int)
    requires SamePayloads(h, mem, mem') && Fits(h, p)
    ensures NodeIn(mem', p) == NodeIn(mem, p)
  {
    hide Payload, Decode;
  }

  /** Writing one word of a node leaves all other nodes alone. */
  lemma StoreInMemory(h: SmallBlocks.Heap, start: int, mem: Memory, nodes: Nodes, p: int, k: int, v: int)
    requires SmallBlocks.Inv(h, start) && InMemory(h, mem, nodes) && p in nodes && Field(k)
    ensures Payload(h, p, p + k)
    ensures InMemory(h, mem[p + k := v], nodes[p := NodeIn(mem[p + k := v], p)])
  {
    hide SmallBlocks.Inv, Payload, Decode;
    var mem' := mem[p + k := v];
    forall q | q in nodes && q != p ensures NodeIn(mem', q) == NodeIn(mem, q) {
      forall j | Field(j) ensures Fetch(mem', q + j) == Fetch(mem, q + j) {
        if q + j == p + k { PayloadOfOne(h, start, p, q, p + k); }
      }
      assert Field(BIT_POS) && Field(NUMBER) && Field(ZERO_WORD) && Field(ONE_WORD);
    }
  }

  /** What the word just written changes in its node. */
  lemma FieldStored(mem: Memory, p: int, k: int, v: int)
    requires Field(k)
    ensures NodeIn(mem[p + k := v], p)
         == if k == BIT_POS then NodeIn(mem, p).(bitPos := Decode(v))
            else if k == NUMBER then NodeIn(mem, p).(number := Decode(v))
            else if k == ZERO_WORD then NodeIn(mem, p).(zero := v)
            else NodeIn(mem, p).(one := v)
  {
    hide Decode;
  }

  lemma NewNodeFits(h: SmallBlocks.Heap, start: int)
    requires SmallBlocks.Inv(h, start) && |h.lists| == SmallBlocks.NUM_SIZES
    ensures var (r, p) := SmallBlocks.Allocate(h, NODE_SIZE);
      p > 0 && p !in h.live && r.live == h.live + {p} && Fits(r, p)
  {
    hide SmallBlocks.Inv, SmallBlocks.Allocate;
    NodeRounded();
    hide SmallBlocks.RoundUp, SmallBlocks.Served;
    SmallBlocks.AllocateInv(h, start, NODE_SIZE);
    WordsAligned(SmallBlocks.Allocate(h, NODE_SIZE).1);
  }

  lemma NodeRounded()
    ensures SmallBlocks.RoundUp(NODE_SIZE) == 24 && SmallBlocks.Served(NODE_SIZE)
  {}

  lemma WordsAligned(p: int)
    requires (p - SmallBlocks.HEADER) % SmallBlocks.STEP == 0
    ensures (p + BIT_POS) % 4 == 0 && (p + NUMBER) % 4 == 0 && (p + ZERO_WORD) % 4 == 0 && (p + ONE_WORD) % 4 == 0
  {
    var q := (p - SmallBlocks.HEADER) / SmallBlocks.STEP;
    assert p == 8 * q + 4;
    MultipleOf4(2 * q + 1);
    MultipleOf4(2 * q + 2);
    MultipleOf4(2 * q + 3);
    MultipleOf4(2 * q + 4);
  }

  lemma MultipleOf4(k: int)
    ensures (4 * k) % 4 == 0
  {
    ModUnique(4 * k, 4, k, 0);
  }

  /** Allocating for a node gives a new block with room for it. */
  lemma AllocatedInMemory(h: SmallBlocks.Heap, start: int, mem: Memory, mem': Memory, nodes: Nodes)
    requires SmallBlocks.Inv(h, start) && |h.lists| == SmallBlocks.NUM_SIZES && InMemory(h, mem, nodes)
    requires SamePayloads(h, mem, mem') && PayloadsStay(h, SmallBlocks.Allocate(h, NODE_SIZE).0)
    ensures var (r, p) := SmallBlocks.Allocate(h, NODE_SIZE);
      p > 0 && p !in nodes && InMemory(r, mem', nodes[p := NodeIn(mem', p)])
  {
    hide SmallBlocks.Inv, SmallBlocks.Allocate, Decode, NodeIn, Payload;
    NewNodeFits(h, start);
    forall q | q in nodes ensures NodeIn(mem', q) == NodeIn(mem, q) {
      SameWordsSameNode(h, mem, mem', q);
    }
  }

  lemma ReleasedInMemory(h: SmallBlocks.Heap, mem: Memory, mem': Memory, nodes: Nodes, p: int)
    requires InMemory(h, mem, nodes) && p in nodes
    requires p - SmallBlocks.HEADER in h.sizes && SmallBlocks.SizeOk(h.sizes[p - SmallBlocks.HEADER])
    requires |h.lists| == SmallBlocks.NUM_SIZES && SamePayloads(SmallBlocks.Release(h, p), mem, mem')
    ensures InMemory(SmallBlocks.Release(h, p), mem', nodes - {p})
  {
    hide Decode, NodeIn;
    forall q | q in nodes && q != p
      ensures Fits(SmallBlocks.Release(h, p), q) && NodeIn(mem', q) == NodeIn(mem, q)
    {
      assert Fits(h, q);
      SameWordsSameNode(SmallBlocks.Release(h, p), mem, mem', q);
    }
  }
}
