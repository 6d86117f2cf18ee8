/**
 * A6/radix.c: the radix tree as nodes in the words of allocated blocks, adding by a walk that
 * ends in one update, taking by recursion on slots, and the command loop. The nodes are always
 * exactly the blocks the allocator has handed out.
 */
module RadixProgram {
  import opened Arithmetic
  import opened Words
  import opened Ordering
  import opened RadixTree
  import opened TreeMemory
  import opened AllocatorCode
  import opened NodeWords
  import SmallBlocks

  // ----- The walk of an insertion

  /**
   * The walk for n has reached sub at position b inside shape, and inserting there is
   * inserting into the whole, whatever addresses the new nodes get.
   */
  ghost predicate Walking(shape: Tree, c: Context, sub: Tree, b: Word, n: Word) {
    && Meets(shape, TOP, n) && Meets(sub, b, n) && Plug(c, sub) == shape
    && forall l, i :: Plug(c, Insert(sub, b, n, l, i)) == Insert(shape, TOP, n, l, i)
  }

  lemma WalkStart(shape: Tree, n: Word)
    requires RadixTree.Valid(shape) && !Has(n, SIGN)
    ensures Walking(shape, Hole, shape, TOP, n) && Agree(n, ZERO, TOP)
  {
    hide Agree, OneHot, Has, Clear, Put, Half, Less, AtMost;
    OneIsOneHot();
    SignClear(n);
    AgreeSymmetric(n, ZERO, TOP);
    AtMostSelf(TOP);
    UnderShift(shape, ZERO, TOP, n, TOP);
    if !shape.Nil? {
      MaxBitOneHot(shape);
    } else {
      ZeroAtMost(TOP);
    }
  }

  /** The context of the child that n goes to. */
  function Into(c: Context, t: Tree, n: Word): Context
    requires t.Inner?
  {
    if Has(n, t.bit) then InOne(c, t.addr, t.bit, t.number, t.zero) else InZero(c, t.addr, t.bit, t.number, t.one)
  }

  function ChildFor(t: Tree, n: Word): Tree
    requires t.Inner?
  {
    if Has(n, t.bit) then t.one else t.zero
  }

  lemma WalkDown(shape: Tree, c: Context, sub: Tree, b: Word, n: Word)
    requires Walking(shape, c, sub, b, n) && sub.Inner? && Mismatch(sub, b, n) == ZERO
    ensures Walking(shape, Into(c, sub, n), ChildFor(sub, n), Half(sub.bit), n)
  {
    hide Agree, OneHot, Has, Clear, Put, Half, Meets, Mismatch;
    MeetsChild(sub, b, n);
    forall l, i
      ensures Plug(Into(c, sub, n), Insert(ChildFor(sub, n), Half(sub.bit), n, l, i)) == Insert(shape, TOP, n, l, i)
    {
      assert Plug(c, Insert(sub, b, n, l, i)) == Insert(shape, TOP, n, l, i);
    }
  }

  /** Putting the result of inserting at the end of the walk back into its context. */
  lemma WalkEnd(shape: Tree, c: Context, sub: Tree, b: Word, n: Word, l: int, i: int)
    requires RadixTree.Valid(shape) && Walking(shape, c, sub, b, n) && !Has(n, SIGN)
    requires var r := Insert(sub, b, n, l, i); NoAlias(r) && ContextAddrs(c) !! Addrs(r)
    ensures var shape' := Plug(c, Insert(sub, b, n, l, i));
      && RadixTree.Valid(shape') && shape' == Insert(shape, TOP, n, l, i)
      && InOrder(shape') == AddTo(InOrder(shape), n)
      && Addrs(shape') == ContextAddrs(c) + Addrs(Insert(sub, b, n, l, i))
  {
    hide Agree, OneHot, Has, Clear, Put, Half, Meets, Mismatch;
    var shape' := Insert(shape, TOP, n, l, i);
    WalkStart(shape, n);
    assert Plug(c, Insert(sub, b, n, l, i)) == shape';
    InsertInv(shape, TOP, n, l, i);
    InsertUnder(shape, TOP, n, l, i, ZERO, TOP);
    InsertContents(shape, TOP, n, l, i);
    PlugNoAlias(c, sub);
    PlugNoAlias(c, Insert(sub, b, n, l, i));
    PlugAddrs(c, Insert(sub, b, n, l, i));
    InOrderSorted(shape);
    InOrderSorted(shape');
    AddToUnique(InOrder(shape), n, InOrder(shape'));
  }

  // ----- The program

  class RadixProgram {
    var tree: int
    const heap: Allocator
    ghost var nodes: Nodes
    ghost var shape: Tree

    /** The memory a program holds is exactly its nodes, each in the words of its block. */
    ghost predicate Owned()
      reads `nodes, heap, heap.headers
    {
      heap.Valid() && InMemory(heap.heap, heap.mem, nodes)
    }

    /** The node at p, read from memory. */
    function NodeAt(p: int): (n: Node)
      requires Owned() && p in nodes
      reads `nodes, heap, heap.headers
      ensures n == nodes[p]
    {
      NodeIn(heap.mem, p)
    }

    /** The pointer in slot s, read from memory. */
    function LoadSlot(s: Slot): (p: int)
      requires Owned() && SlotOk(nodes, s)
      reads `nodes, `tree, heap, heap.headers
      ensures p == Load(nodes, tree, s)
    {
      match s
      case Root => tree
      case ZeroOf(p) => NodeAt(p).zero
      case OneOf(p) => NodeAt(p).one
    }

    ghost predicate Valid()
      reads this, heap, heap.headers
    {
      && Owned() && nodes.Keys == Addrs(shape)
      && RadixTree.Valid(shape) && Linked(nodes, shape) && tree == Ptr(shape)
    }

    constructor (heapStart: int)
      requires 0 < heapStart && heapStart % 8 == 0
      ensures Valid() && fresh(heap) && fresh(heap.headers) && shape == Nil
    {
      heap := new Allocator(heapStart);
      tree := 0;
      nodes := map[];
      shape := Nil;
    }

    /** A new block for a node, its words as they happen to be. */
    method AllocateNode() returns (p: int)
      requires Owned()
      modifies heap, heap.headers, `nodes
      ensures Owned() && p != 0 && p !in old(nodes)
      ensures nodes.Keys == old(nodes).Keys + {p} && nodes == old(nodes)[p := nodes[p]]
    {
      ghost var before, mem, start := heap.heap, heap.mem, heap.start;
      SmallBlocks.HeaderCount(before, start);
      p := heap.Allocate(NODE_SIZE);
      AllocatedInMemory(before, start, mem, heap.mem, nodes);
      nodes := nodes[p := NodeIn(heap.mem, p)];
    }

    method ReleaseNode(p: int)
      requires Owned() && p in nodes
      modifies heap, heap.headers, `nodes
      ensures Owned() && nodes == old(nodes) - {p}
    {
      hide SmallBlocks.Inv, SmallBlocks.SizeOk;
      ghost var before, mem := heap.heap, heap.mem;
      SmallBlocks.HeaderCount(before, heap.start);
      SmallBlocks.LiveSized(before, heap.start, p);
      heap.Release(p);
      ReleasedInMemory(before, mem, heap.mem, nodes, p);
      nodes := nodes - {p};
    }

    /** Writes one word of a node. */
    method StoreField(p: int, k: int, v: int)
      requires Owned() && p in nodes && Field(k)
      modifies heap, `nodes
      ensures Owned() && nodes.Keys == old(nodes).Keys && nodes == old(nodes)[p := nodes[p]]
      ensures nodes[p] == if k == BIT_POS then old(nodes)[p].(bitPos := Decode(v))
                          else if k == NUMBER then old(nodes)[p].(number := Decode(v))
                          else if k == ZERO_WORD then old(nodes)[p].(zero := v)
                          else old(nodes)[p].(one := v)
    {
      hide SmallBlocks.Inv, Payload, Decode, NodeIn;
      StoreInMemory(heap.heap, heap.start, heap.mem, nodes, p, k, v);
      FieldStored(heap.mem, p, k, v);
      heap.Store(p, p + k, v);
      nodes := nodes[p := NodeIn(heap.mem, p)];
    }

    method SetBitPos(p: int, bitPos: Word)
      requires Owned() && p in nodes
      modifies heap, `nodes
      ensures Owned() && nodes == old(nodes)[p := old(nodes)[p].(bitPos := bitPos)]
    {
      hide Owned;
      DecodeCode(bitPos);
      StoreField(p, BIT_POS, Code(bitPos));
    }

    method SetNumber(p: int, number: Word)
      requires Owned() && p in nodes
      modifies heap, `nodes
      ensures Owned() && nodes == old(nodes)[p := old(nodes)[p].(number := number)]
    {
      hide Owned;
      DecodeCode(number);
      StoreField(p, NUMBER, Code(number));
    }

    method SetZero(p: int, v: int)
      requires Owned() && p in nodes
      modifies heap, `nodes
      ensures Owned() && nodes == old(nodes)[p := old(nodes)[p].(zero := v)]
    {
      hide Owned;
      StoreField(p, ZERO_WORD, v);
    }

    method SetOne(p: int, v: int)
      requires Owned() && p in nodes
      modifies heap, `nodes
      ensures Owned() && nodes == old(nodes)[p := old(nodes)[p].(one := v)]
    {
      hide Owned;
      StoreField(p, ONE_WORD, v);
    }

    method CreateLeaf(number: Word) returns (p: int)
      requires Owned()
      modifies heap, heap.headers, `nodes
      ensures Owned() && p != 0 && p !in old(nodes) && nodes.Keys == old(nodes).Keys + {p}
      ensures Linked(nodes, NewLeaf(p, number)) && Keeps(old(nodes), nodes, old(nodes).Keys)
    {
      hide Owned, Has;
      p := AllocateNode();
      SetBitPos(p, ONE);
      SetNumber(p, number);
      SetZero(p, if Has(number, ONE) then 0 else 1);
      SetOne(p, if Has(number, ONE) then 1 else 0);
    }

    method StoreSlot(s: Slot, v: int)
      requires Owned() && SlotOk(nodes, s)
      modifies heap, `nodes, `tree
      ensures Owned() && (nodes, tree) == Store(old(nodes), old(tree), s, v)
    {
      match s
      case Root => tree := v;
      case ZeroOf(p) => SetZero(p, v);
      case OneOf(p) => SetOne(p, v);
    }

    /** A new inner node, with its union not yet written, in the place of what stood in the hole. */
    method InjectNode(parent: Slot, bitPos: Word, number: Word, ghost c: Context, ghost p: int) returns (nptr2: int)
      requires Owned() && parent == SlotOf(c) && ContextAddrs(c) <= nodes.Keys
      requires ContextLinked(nodes, tree, c, p) && ContextNoAlias(c)
      modifies heap, heap.headers, `nodes, `tree
      ensures Owned() && nptr2 != 0 && nptr2 !in old(nodes) && nodes.Keys == old(nodes).Keys + {nptr2}
      ensures nodes[nptr2].bitPos == bitPos && nodes[nptr2].number == number
      ensures ContextLinked(nodes, tree, c, nptr2)
      ensures Keeps(old(nodes), nodes, old(nodes).Keys - ContextAddrs(c))
    {
      hide Owned, Allocator.Valid;
      ghost var nodes0 := nodes;
      nptr2 := AllocateNode();
      SetBitPos(nptr2, bitPos);
      SetNumber(nptr2, number);
      ContextFrame(nodes0, nodes, tree, c, p);
      SlotLinked(nodes, tree, c, p);
      StoreLinked(nodes, tree, c, p, nptr2);
      StoreSlot(parent, nptr2);
    }

    /** Fills the union of the injected node: the old subtree on one side, a new leaf on the other. */
    method FillSplit(nptr2: int, bitPos: Word, number: Word, nptr: int) returns (leaf: int)
      requires Owned() && nptr2 in nodes && nodes[nptr2].bitPos == bitPos && nodes[nptr2].number == number
      modifies heap, heap.headers, `nodes
      ensures Owned() && leaf != 0 && leaf !in old(nodes) && nodes.Keys == old(nodes).Keys + {leaf}
      ensures nodes[nptr2] == if Has(number, bitPos) then Node(bitPos, number, nptr, leaf)
                              else Node(bitPos, number, leaf, nptr)
      ensures Linked(nodes, NewLeaf(leaf, number)) && Keeps(old(nodes), nodes, old(nodes).Keys - {nptr2})
    {
      hide Owned, Has;
      if !Has(number, bitPos) {
        SetOne(nptr2, nptr);
        leaf := CreateLeaf(number);
        SetZero(nptr2, leaf);
      } else {
        SetZero(nptr2, nptr);
        leaf := CreateLeaf(number);
        SetOne(nptr2, leaf);
      }
    }

    /** The injected node takes the place of sub and gets sub and a new leaf as children. */
    method Inject(parent: Slot, bitPos: Word, number: Word, nptr: int, ghost c: Context, ghost sub: Tree)
      returns (nptr2: int, leaf: int)
      requires Owned() && !sub.Nil? && nptr == Ptr(sub) && parent == SlotOf(c)
      requires ContextLinked(nodes, tree, c, nptr) && ContextNoAlias(c)
      requires Linked(nodes, sub) && NoAlias(sub) && ContextAddrs(c) !! Addrs(sub)
      requires nodes.Keys == ContextAddrs(c) + Addrs(sub)
      modifies heap, heap.headers, `nodes, `tree
      ensures Owned()
      ensures var r := Split(nptr2, bitPos, number, NewLeaf(leaf, number), sub);
        && nodes.Keys == ContextAddrs(c) + Addrs(r) && ContextAddrs(c) !! Addrs(r) && NoAlias(r)
        && ContextLinked(nodes, tree, c, Ptr(r)) && Linked(nodes, r)
    {
      hide Owned, Has, Linked, ContextLinked, NoAlias, ContextNoAlias;
      ghost var nodes0 := nodes;
      nptr2 := InjectNode(parent, bitPos, number, c, nptr);
      LinkedFrame(nodes0, nodes, sub);
      ghost var nodes1 := nodes;
      leaf := FillSplit(nptr2, bitPos, number, nptr);
      LinkedFrame(nodes1, nodes, sub);
      ContextFrame(nodes1, nodes, tree, c, nptr2);
      SplitLinked(nodes, nptr2, bitPos, number, leaf, sub);
    }

    /** A missing subtree is replaced by a new leaf. */
    method AddLeaf(parent: Slot, number: Word, ghost c: Context, ghost sub: Tree, ghost b: Word)
      requires Owned() && At(c, sub, b, number) && sub.Nil? && parent == SlotOf(c)
      modifies this, heap, heap.headers
      ensures Valid() && Inserted(old(shape), shape, number) && InOrder(shape) == AddTo(InOrder(old(shape)), number)
    {
      hide Owned, RadixTree.Valid, Has, Walking;
      AtNode(c, sub, b, number);
      ghost var nodes0 := nodes;
      var leaf := CreateLeaf(number);
      ContextFrame(nodes0, nodes, tree, c, 0);
      SlotLinked(nodes, tree, c, 0);
      StoreLinked(nodes, tree, c, 0, leaf);
      StoreSlot(parent, leaf);
      Conclude(c, sub, b, number, leaf, 0);
    }

    /** One leaf count is incremented in place. */
    method CountAtLeaf(nptr: int, number: Word, ghost c: Context, ghost sub: Tree)
      requires Owned() && sub.Leaf? && nptr == Ptr(sub) && Linked(nodes, sub) && NoAlias(sub)
      requires ContextLinked(nodes, tree, c, nptr) && ContextNoAlias(c) && ContextAddrs(c) !! Addrs(sub)
      modifies heap, `nodes
      ensures Owned() && nodes.Keys == old(nodes).Keys
      ensures ContextLinked(nodes, tree, c, nptr)
      ensures Linked(nodes, if Has(number, ONE) then sub.(ones := sub.ones + 1) else sub.(zeros := sub.zeros + 1))
    {
      hide Owned, Has;
      ghost var nodes0 := nodes;
      if Has(number, ONE) {
        SetOne(nptr, NodeAt(nptr).one + 1);
      } else {
        SetZero(nptr, NodeAt(nptr).zero + 1);
      }
      ContextFrame(nodes0, nodes, tree, c, nptr);
    }

    /** The most significant position at or below bitPos where diff is set; there must be one. */
    static method SearchDifference(bitPos: Word, diff: Word) returns (d: Word)
      requires OneHot(bitPos) && diff != ZERO && NoneAbove(diff, bitPos)
      ensures d == TopDifference(bitPos, diff)
      ensures OneHot(d) && AtMost(d, bitPos) && Has(diff, d) && NoneAbove(diff, d)
    {
      hide AtMost;
      TopDifferenceFound(bitPos, diff);
      d := bitPos;
      while !Has(diff, d)
        invariant OneHot(d) && NoneAbove(diff, d)
        invariant TopDifference(bitPos, diff) == TopDifference(d, diff)
        decreases d.bits
      {
        SearchStep(d, diff);
        HalfOneHot(d);
        d := Half(d);
      }
    }

    /** Everything known while the walk is at position b: where it is, and what is in memory. */
    ghost predicate At(c: Context, sub: Tree, b: Word, n: Word)
      reads this
    {
      && RadixTree.Valid(shape) && !Has(n, SIGN) && Walking(shape, c, sub, b, n)
      && nodes.Keys == ContextAddrs(c) + Addrs(sub)
      && ContextLinked(nodes, tree, c, Ptr(sub)) && Linked(nodes, sub)
      && ContextNoAlias(c) && NoAlias(sub) && ContextAddrs(c) !! Addrs(sub)
    }

    lemma AtStart(n: Word)
      requires Valid() && !Has(n, SIGN)
      ensures At(Hole, shape, TOP, n) && Owned()
    {
      hide Owned;
      WalkStart(shape, n);
    }

    lemma AtChild(c: Context, sub: Tree, b: Word, n: Word)
      requires At(c, sub, b, n) && sub.Inner? && Mismatch(sub, b, n) == ZERO
      ensures At(Into(c, sub, n), ChildFor(sub, n), Half(sub.bit), n)
    {
      hide Walking, Mismatch, Has, Half, RadixTree.Valid;
      WalkDown(shape, c, sub, b, n);
    }

    /** Memory after the walk, with r = inserting into sub in the place of sub. */
    ghost predicate Ended(c: Context, sub: Tree, b: Word, n: Word, r: Tree)
      reads this
    {
      && RadixTree.Valid(shape) && !Has(n, SIGN) && Walking(shape, c, sub, b, n)
      && nodes.Keys == ContextAddrs(c) + Addrs(r) && ContextAddrs(c) !! Addrs(r) && NoAlias(r)
      && ContextLinked(nodes, tree, c, Ptr(r)) && Linked(nodes, r)
    }

    lemma AtNode(c: Context, sub: Tree, b: Word, n: Word)
      requires At(c, sub, b, n)
      ensures Meets(sub, b, n) && OneHot(b)
      ensures SlotOk(nodes, SlotOf(c)) && Load(nodes, tree, SlotOf(c)) == Ptr(sub)
      ensures if Ptr(sub) == 0 then sub.Nil? else
        && !sub.Nil? && Ptr(sub) in nodes
        && nodes[Ptr(sub)].bitPos == MaxBit(sub) && nodes[Ptr(sub)].number == sub.number
        && OneHot(MaxBit(sub)) && (sub.Inner? <==> Less(ONE, MaxBit(sub)))
        && (!Less(MaxBit(sub), b) ==> MaxBit(sub) == b)
    {
      hide Walking, RadixTree.Valid, Has, Agree, Half, Clear, Put, Less, AtMost;
      assert Meets(sub, b, n) by { WalkMeets(c, sub, b, n); }
      SlotLinked(nodes, tree, c, Ptr(sub));
      if !sub.Nil? {
        NodeBit(sub);
        if !Less(MaxBit(sub), b) { SamePosition(MaxBit(sub), b); }
      }
    }

    lemma WalkMeets(c: Context, sub: Tree, b: Word, n: Word)
      requires Walking(shape, c, sub, b, n)
      ensures Meets(sub, b, n)
    {}

    /** The walk is over when sub has been replaced by the result of inserting into it. */
    ghost method Conclude(c: Context, sub: Tree, b: Word, n: Word, l: int, i: int)
      requires Owned() && Meets(sub, b, n) && Ended(c, sub, b, n, Insert(sub, b, n, l, i))
      modifies `shape
      ensures Valid() && Inserted(old(shape), shape, n) && InOrder(shape) == AddTo(InOrder(old(shape)), n)
    {
      hide Owned, RadixTree.Valid, Has, Insert;
      var r := Insert(sub, b, n, l, i);
      WalkEnd(shape, c, sub, b, n, l, i);
      PlugLinked(nodes, tree, c, r);
      shape := Plug(c, r);
    }

    /** The injection at position bitPos, given where the walk stands. */
    method InjectAt(parent: Slot, bitPos: Word, number: Word, nptr: int,
                    ghost c: Context, ghost sub: Tree, ghost b: Word)
      requires Owned() && At(c, sub, b, number) && !sub.Nil? && parent == SlotOf(c) && nptr == Ptr(sub)
      requires Meets(sub, b, number) && Mismatch(sub, b, number) != ZERO
      requires OneHot(b) && NoneAbove(Mismatch(sub, b, number), b)
      requires bitPos == TopDifference(b, Mismatch(sub, b, number))
      modifies this, heap, heap.headers
      ensures Valid() && Inserted(old(shape), shape, number) && InOrder(shape) == AddTo(InOrder(old(shape)), number)
    {
      hide Owned, RadixTree.Valid, Has, Walking, Meets, Mismatch, OneHot, NoneAbove;
      hide Linked, ContextLinked, ContextNoAlias;
      ghost var nptr2, leaf := Inject(parent, bitPos, number, nptr, c, sub);
      Conclude(c, sub, b, number, leaf, nptr2);
    }

    method CountAt(nptr: int, number: Word, ghost c: Context, ghost sub: Tree, ghost b: Word)
      requires Owned() && At(c, sub, b, number) && sub.Leaf? && nptr == Ptr(sub)
      requires Meets(sub, b, number) && Mismatch(sub, b, number) == ZERO
      modifies this, heap, heap.headers
      ensures Valid() && Inserted(old(shape), shape, number) && InOrder(shape) == AddTo(InOrder(old(shape)), number)
    {
      hide Owned, RadixTree.Valid, Has, Walking, Meets, Mismatch, ContextLinked, ContextNoAlias;
      CountAtLeaf(nptr, number, c, sub);
      Conclude(c, sub, b, number, 0, 0);
    }

    /**
     * Adds one number: the tree is then the old one with the number inserted, and its sorted
     * enumeration is the old one with the number added in its place.
     */
    method AddNumber(number: Word)
      requires Valid() && !Has(number, SIGN)
      modifies this, heap, heap.headers
      ensures Valid()
      ensures Inserted(old(shape), shape, number)
      ensures InOrder(shape) == AddTo(InOrder(old(shape)), number)
    {
      hide Valid, Owned, At, Has, OneHot, Half, Difference, NoneAbove, Less, AtMost, Meets, Inserted;
      var parent, bitPos := Root, TOP;
      ghost var c, sub := Hole, shape;
      AtStart(number);
      OneIsOneHot();
      while AtMost(ONE, bitPos)
        invariant AtMost(ONE, bitPos) ==>
          Owned() && shape == old(shape) && At(c, sub, bitPos, number) && parent == SlotOf(c)
        invariant !AtMost(ONE, bitPos) ==>
          Valid() && Inserted(old(shape), shape, number) && InOrder(shape) == AddTo(InOrder(old(shape)), number)
        decreases sub, AtMost(ONE, bitPos)
      {
        AtNode(c, sub, bitPos, number);
        var nptr := LoadSlot(parent);
        if nptr == 0 {
          // nothing here yet
          AddLeaf(parent, number, c, sub, bitPos);
          return;
        }
        ghost var b := bitPos;
        if Less(NodeAt(nptr).bitPos, bitPos) {
          var diff := Difference(number, NodeAt(nptr).number, bitPos, NodeAt(nptr).bitPos);
          if diff != ZERO {
            // n does not belong below this node: branch where it first differs
            MismatchNoneAbove(sub, bitPos, number);
            bitPos := SearchDifference(bitPos, diff);
            InjectAt(parent, bitPos, number, nptr, c, sub, b);
            return;
          }
          // n agrees with this node, the walk goes on at its position
          bitPos := NodeAt(nptr).bitPos;
        }
        HalfPositive(bitPos);
        if Less(ONE, bitPos) {
          parent := if Has(number, bitPos) then OneOf(nptr) else ZeroOf(nptr);
          AtChild(c, sub, b, number);
          c, sub := Into(c, sub, number), ChildFor(sub, number);
        } else {
          CountAt(nptr, number, c, sub, b);
        }
        bitPos := Half(bitPos);
      }
    }

    method CountDown(nptr: int, ones: bool)
      requires Owned() && nptr in nodes
      modifies heap, `nodes
      ensures Owned() && nodes == old(nodes)[nptr := Minus(old(nodes)[nptr], ones, 1)]
    {
      hide Owned;
      if ones {
        SetOne(nptr, NodeAt(nptr).one - 1);
      } else {
        SetZero(nptr, NodeAt(nptr).zero - 1);
      }
    }

    /** Fills buffer with copies of value while the count at one side of a leaf lasts. */
    method TakeFromLeaf(nptr: int, ones: bool, value: Word, buffer: array<Word>, from: int, end: int)
      returns (next: int)
      requires Owned() && nptr in nodes && 0 <= from <= end <= buffer.Length
      requires CountOf(nodes[nptr], ones) >= 0
      modifies buffer, heap, `nodes
      ensures Owned()
      ensures next == from + Min(CountOf(old(nodes)[nptr], ones), end - from)
      ensures nodes == old(nodes)[nptr := Minus(old(nodes)[nptr], ones, next - from)]
      ensures Filled(old(buffer[..]), buffer[..], from, next, Repeat(value, next - from))
    {
      hide Owned, Filled, Repeat, Minus, CountOf;
      next := from;
      FilledNothing(buffer[..], from);
      MinusNothing(nodes, nptr, ones);
      assert Repeat(value, 0) == [];
      while next < end && CountOf(NodeAt(nptr), ones) != 0
        invariant Owned() && from <= next <= end && nptr in nodes && nodes.Keys == old(nodes).Keys
        invariant next - from <= CountOf(old(nodes)[nptr], ones)
        invariant nodes == old(nodes)[nptr := Minus(old(nodes)[nptr], ones, next - from)]
        invariant Filled(old(buffer[..]), buffer[..], from, next, Repeat(value, next - from))
      {
        FilledOne(old(buffer[..]), buffer[..], from, next, value);
        ghost var b := buffer[..];
        buffer[next] := value;
        assert buffer[..] == b[next := value];
        MinusNext(old(nodes)[nptr], ones, next - from);
        next := next + 1;
        CountDown(nptr, ones);
      }
      MinusNext(old(nodes)[nptr], ones, next - from);
    }

    method TakeLeaf(parent: Slot, buffer: array<Word>, from: int, end: int, ghost t: Tree) returns (next: int)
      requires Owned() && Held(nodes, tree, parent, t) && t.Leaf? && Inv(t) && 0 <= from <= end <= buffer.Length
      modifies buffer, heap, heap.headers, `nodes, `tree
      ensures Owned() && next == from + Min(|InOrder(t)|, end - from)
      ensures Filled(old(buffer[..]), buffer[..], from, next, InOrder(t)[..next - from])
      ensures Replaced(old(nodes), old(tree), nodes, tree, parent, t, Remove(t, end - from))
    {
      hide Owned, Clear, Put, Filled, InOrder, Replaced, Repeat, Inv, Remove, NoAlias;
      var nptr := LoadSlot(parent);
      ghost var nodes0 := nodes;
      ghost var b0 := buffer[..];
      var middle := TakeFromLeaf(nptr, false, Clear(NodeAt(nptr).number, ONE), buffer, from, end);
      ghost var b1 := buffer[..];
      next := TakeFromLeaf(nptr, true, Put(NodeAt(nptr).number, ONE), buffer, middle, end);
      LeafTaken(b0, b1, buffer[..], t, from, middle, next, end);
      PruneLeaf(parent, nptr, nodes0, t, end - from);
    }

    /** A leaf with both counts at zero goes. */
    method PruneLeaf(parent: Slot, nptr: int, ghost nodes0: Nodes, ghost t: Tree, ghost k: nat)
      requires Owned() && Held(nodes0, tree, parent, t) && t.Leaf? && nptr == t.addr
      requires var z := Min(t.zeros, k);
        nodes == nodes0[t.addr := Node(ONE, t.number, t.zeros - z, t.ones - Min(t.ones, k - z))]
      modifies heap, heap.headers, `nodes, `tree
      ensures Owned() && Replaced(nodes0, old(tree), nodes, tree, parent, t, Remove(t, k))
    {
      hide Owned, Held, Replaced, Remove, Store;
      LeafReplaced(nodes0, tree, nodes, parent, t, k);
      if NodeAt(nptr).zero == 0 && NodeAt(nptr).one == 0 {
        ReleaseNode(nptr);
        StoreSlot(parent, 0);
      }
    }

    /**
     * Takes the first numbers of the subtree in slot parent into buffer[from..end], prunes
     * what becomes empty, and returns where it stopped writing.
     */
    method TakeNumbers2(parent: Slot, buffer: array<Word>, from: int, end: int, ghost t: Tree) returns (next: int)
      requires Owned() && Held(nodes, tree, parent, t) && Inv(t) && 0 <= from <= end <= buffer.Length
      modifies buffer, heap, heap.headers, `nodes, `tree
      ensures Owned() && next == from + Min(|InOrder(t)|, end - from)
      ensures Filled(old(buffer[..]), buffer[..], from, next, InOrder(t)[..next - from])
      ensures Replaced(old(nodes), old(tree), nodes, tree, parent, t, Remove(t, end - from))
      decreases t, 1
    {
      hide Owned, Inv;
      next := from;
      var nptr := LoadSlot(parent);
      if nptr != 0 {
        NodeIsLeaf(t);
        if NodeAt(nptr).bitPos == ONE {
          next := TakeLeaf(parent, buffer, from, end, t);
        } else {
          next := TakeInner(parent, nptr, buffer, from, end, t);
        }
      }
    }

    /** The interior case: both subtrees in turn, then the node itself if both are gone. */
    method TakeInner(parent: Slot, nptr: int, buffer: array<Word>, from: int, end: int, ghost t: Tree)
      returns (next: int)
      requires Owned() && Held(nodes, tree, parent, t) && Inv(t) && 0 <= from <= end <= buffer.Length
      requires t.Inner? && nptr == t.addr
      modifies buffer, heap, heap.headers, `nodes, `tree
      ensures Owned() && next == from + Min(|InOrder(t)|, end - from)
      ensures Filled(old(buffer[..]), buffer[..], from, next, InOrder(t)[..next - from])
      ensures Replaced(old(nodes), old(tree), nodes, tree, parent, t, Remove(t, end - from))
      decreases t, 0
    {
      hide Owned, Inv, Linked, NoAlias, Held, Replaced, Filled, BetweenTakes, BothTaken, SlotOk, Store, Addrs, Ptr;
      InnerParts(t);
      ghost var k := end - from;
      ghost var nodes0, tree0 := nodes, tree;
      HeldChildren(nodes, tree, parent, t);
      var middle := TakeNumbers2(ZeroOf(nptr), buffer, from, end, t.zero);
      ghost var nodes1, tree1, zero' := nodes, tree, Remove(t.zero, k);
      ZeroReplaced(nodes0, tree0, nodes1, tree1, parent, t, zero');
      ghost var b1 := buffer[..];
      next := TakeNumbers2(OneOf(nptr), buffer, middle, end, t.one);
      ghost var one' := Remove(t.one, end - middle);
      FilledTwice(old(buffer[..]), b1, buffer[..], from, middle, next, end, InOrder(t.zero), InOrder(t.one));
      RemoveNoAlias(t.zero, k);
      RemoveNoAlias(t.one, end - middle);
      OneReplaced(nodes0, tree0, nodes1, tree1, nodes, tree, parent, t, zero', one');
      Prune(parent, nptr, nodes0, tree0, t, zero', one');
    }

    /** An inner node without subtrees goes too. */
    method Prune(parent: Slot, nptr: int, ghost nodes0: Nodes, ghost tree0: int,
                 ghost t: Tree, ghost zero': Tree, ghost one': Tree)
      requires Owned() && t.Inner? && nptr == t.addr
      requires Held(nodes0, tree0, parent, t) && BothTaken(nodes0, nodes, t, zero', one') && tree == tree0
      modifies heap, heap.headers, `nodes, `tree
      ensures Owned()
      ensures Replaced(nodes0, tree0, nodes, tree, parent, t,
                       if zero'.Nil? && one'.Nil? then Nil else Inner(t.addr, t.bit, t.number, zero', one'))
    {
      hide Owned, Held, Replaced, BothTaken, SlotOk, Store;
      BothTakenNode(nodes0, nodes, t, zero', one');
      if NodeAt(nptr).zero == 0 && NodeAt(nptr).one == 0 {
        PruneReplaced(nodes0, tree0, nodes, tree, parent, t, zero', one');
        ReleaseNode(nptr);
        StoreSlot(parent, 0);
      } else {
        KeepReplaced(nodes0, tree0, nodes, tree, parent, t, zero', one');
      }
    }

    /** Takes up to maxNums of the smallest numbers, in ascending order. */
    method TakeNumbers(buffer: array<Word>, maxNums: int) returns (taken: int)
      requires Valid() && 0 <= maxNums <= buffer.Length
      modifies this, buffer, heap, heap.headers
      ensures Valid() && shape == Remove(old(shape), maxNums)
      ensures taken == Min(|InOrder(old(shape))|, maxNums)
      ensures buffer[..taken] == InOrder(old(shape))[..taken] && buffer[taken..] == old(buffer[taken..])
      ensures InOrder(shape) == InOrder(old(shape))[taken..]
      ensures tree == 0 <==> InOrder(shape) == []
    {
      hide Owned, Inv, Linked;
      LinkedAllocated(nodes, shape);
      taken := TakeNumbers2(Root, buffer, 0, maxNums, shape);
      RemoveValid(shape, maxNums);
      RemoveInOrder(shape, maxNums);
      shape := Remove(shape, maxNums);
      InOrderEmpty(shape);
    }

    /** Gives back every node of a subtree, children first. */
    method ReleaseTree(p: int, ghost t: Tree)
      requires Owned() && Linked(nodes, t) && NoAlias(t) && Inv(t) && p == Ptr(t)
      modifies heap, heap.headers, `nodes
      ensures Owned() && nodes == old(nodes) - Addrs(t)
      decreases t
    {
      hide Owned, Inv;
      if p != 0 {
        NodeIsLeaf(t);
        if NodeAt(p).bitPos != ONE {
          InnerParts(t);
          ghost var nodes0 := nodes;
          ReleaseTree(NodeAt(p).zero, t.zero);
          LinkedFrame(nodes0, nodes, t.one);
          ReleaseTree(NodeAt(p).one, t.one);
        }
        ReleaseNode(p);
      }
    }

    /** Takes and outputs limit numbers in batches, or all there are. */
    method TakeBatches(count: int) returns (output: seq<Word>)
      requires Valid()
      modifies this, heap, heap.headers
      ensures Valid()
      ensures var q := InOrder(old(shape)); var k := if count < 0 then 0 else Min(count, |q|);
        output == q[..k] && InOrder(shape) == q[k..]
    {
      hide Valid;
      var outNumbers := new Word[BATCH];
      var limit := count;
      output := [];
      ghost var q, done := InOrder(shape), 0;
      while limit > 0
        invariant Valid() && 0 <= done <= |q| && done + limit == count && (done > 0 ==> limit >= 0)
        invariant output == q[..done] && InOrder(shape) == q[done..]
        decreases limit
      {
        var takeMax := if limit < BATCH then limit else BATCH;
        var taken := TakeNumbers(outNumbers, takeMax);
        output := output + outNumbers[..taken];
        limit := limit - taken;
        done := done + taken;
        if taken == 0 { break; }
      }
    }

    /**
     * The command loop, on the successive non-empty results of reading the input. However the input is
     * cut into reads, the output is that of the sorted queue, and no memory stays allocated.
     */
    method Process(input: seq<seq<Word>>) returns (output: seq<Word>)
      requires Valid() && shape == Nil
      requires forall i :: 0 <= i < |input| ==> 1 <= |input[i]| <= BATCH
      modifies this, heap, heap.headers
      ensures output == ServeAll([], Concat(input)).1
      ensures heap.Valid() && heap.heap.live == {}
    {
      hide Valid, ServeAll;
      output := [];
      ghost var done := [];
      ServeNothing();
      for i := 0 to |input|
        invariant Valid() && done == Concat(input[..i])
        invariant (InOrder(shape), output) == ServeAll([], done)
      {
        var more := ProcessPiece(input[i], done, output);
        output := output + more;
        done := done + input[i];
        assert input[..i + 1][..i] == input[..i];
      }
      assert input[..|input|] == input;
      ReleaseAll();
    }

    /** The numbers of one read, one at a time. */
    method ProcessPiece(numbers: seq<Word>, ghost done: seq<Word>, ghost before: seq<Word>) returns (output: seq<Word>)
      requires Valid() && (InOrder(shape), before) == ServeAll([], done)
      modifies this, heap, heap.headers
      ensures Valid() && (InOrder(shape), before + output) == ServeAll([], done + numbers)
    {
      hide Valid, Serve, Has, ServeAll, Limit, AddTo, InOrder;
      output := [];
      assert done + numbers[..0] == done && before + [] == before;
      for n := 0 to |numbers|
        invariant Valid() && (InOrder(shape), before + output) == ServeAll([], done + numbers[..n])
      {
        ghost var q, taken0 := InOrder(shape), output;
        if Has(numbers[n], SIGN) {
          var taken := TakeBatches(Limit(numbers[n]));
          output := output + taken;
          ServeTake(q, numbers[n]);
          assert before + output == (before + taken0) + taken;
        } else {
          AddNumber(numbers[n]);
          ServeAdd(q, numbers[n]);
          assert (before + output) + [] == before + output;
        }
        ServeNext([], done + numbers[..n], numbers[n]);
        assert done + numbers[..n + 1] == (done + numbers[..n]) + [numbers[n]];
      }
      assert numbers[..|numbers|] == numbers;
    }

    /** The final cleanup. */
    method ReleaseAll()
      requires Valid()
      modifies heap, heap.headers, `nodes
      ensures heap.Valid() && heap.heap.live == {}
    {
      hide Allocator.Valid;
      ReleaseTree(tree, shape);
      assert nodes.Keys == {};
    }
  }

  /** One of the two counts of a leaf, and the leaf with k less of it. */
  function CountOf(node: Node, ones: bool): int { if ones then node.one else node.zero }

  function Minus(node: Node, ones: bool, k: int): Node {
    if ones then node.(one := node.one - k) else node.(zero := node.zero - k)
  }

  lemma MinusNothing(nodes: Nodes, p: int, ones: bool)
    requires p in nodes
    ensures nodes == nodes[p := Minus(nodes[p], ones, 0)]
  {}

  lemma MinusNext(node: Node, ones: bool, k: int)
    ensures CountOf(Minus(node, ones, k), ones) == CountOf(node, ones) - k
    ensures Minus(Minus(node, ones, k), ones, 1) == Minus(node, ones, k + 1)
  {}

  /** Size of the command loop's two buffers. */
  const BATCH := 100

  function Concat(pieces: seq<seq<Word>>): seq<Word> {
    if pieces == [] then [] else Concat(pieces[..|pieces| - 1]) + pieces[|pieces| - 1]
  }

  lemma ServeNothing()
    ensures ServeAll([], []) == ([], [])
  {}

  lemma ServeTake(q: seq<Word>, w: Word)
    requires Has(w, SIGN)
    ensures Serve(q, w) == (var k := if Limit(w) < 0 then 0 else Min(Limit(w), |q|); (q[k..], q[..k]))
  {}

  lemma ServeAdd(q: seq<Word>, w: Word)
    requires !Has(w, SIGN)
    ensures Serve(q, w) == (AddTo(q, w), [])
  {}

  /** A buffer that holds what it held before, except for what was taken, from position from on. */
  predicate Filled(before: seq<Word>, after: seq<Word>, from: int, next: int, taken: seq<Word>) {
    && 0 <= from <= next <= |before| == |after| && |taken| == next - from
    && after == before[..from] + taken + before[next..]
  }

  lemma FilledNothing(b: seq<Word>, from: int)
    requires 0 <= from <= |b|
    ensures Filled(b, b, from, from, [])
  {}

  lemma FilledOne(b0: seq<Word>, b1: seq<Word>, from: int, next: int, value: Word)
    requires from <= next < |b0| && Filled(b0, b1, from, next, Repeat(value, next - from))
    ensures Filled(b0, b1[next := value], from, next + 1, Repeat(value, next + 1 - from))
  {
    assert Repeat(value, next + 1 - from) == Repeat(value, next - from) + [value];
  }

  /** Filling from two sources in turn is filling from their concatenation. */
  lemma FilledTwice(b0: seq<Word>, b1: seq<Word>, b2: seq<Word>, from: int, middle: int, next: int, end: int,
                    z: seq<Word>, o: seq<Word>)
    requires middle == from + Min(|z|, end - from) && next == middle + Min(|o|, end - middle)
    requires 0 <= from <= middle <= next <= end <= |b0|
    requires Filled(b0, b1, from, middle, z[..middle - from]) && Filled(b1, b2, middle, next, o[..next - middle])
    ensures next == from + Min(|z + o|, end - from)
    ensures Filled(b0, b2, from, next, (z + o)[..next - from])
  {
    var taken := (z + o)[..next - from];
    assert taken == z[..middle - from] + o[..next - middle];
    assert b1[..middle] == b0[..from] + z[..middle - from];
    assert b1[next..] == b0[next..];
  }

  /** What the two counting loops of a leaf write are the first numbers of the leaf. */
  lemma LeafTaken(b0: seq<Word>, b1: seq<Word>, b2: seq<Word>, t: Tree, from: int, middle: int, next: int, end: int)
    requires t.Leaf? && 0 <= from <= end <= |b0|
    requires middle == from + Min(t.zeros, end - from) && next == middle + Min(t.ones, end - middle)
    requires Filled(b0, b1, from, middle, Repeat(Clear(t.number, ONE), middle - from))
    requires Filled(b1, b2, middle, next, Repeat(Put(t.number, ONE), next - middle))
    ensures next == from + Min(|InOrder(t)|, end - from) && Filled(b0, b2, from, next, InOrder(t)[..next - from])
  {
    hide Filled, Clear, Put;
    var zeros, ones := Repeat(Clear(t.number, ONE), t.zeros), Repeat(Put(t.number, ONE), t.ones);
    assert zeros[..middle - from] == Repeat(Clear(t.number, ONE), middle - from);
    assert ones[..next - middle] == Repeat(Put(t.number, ONE), next - middle);
    FilledTwice(b0, b1, b2, from, middle, next, end, zeros, ones);
  }

  // ----- Taking, as an effect on memory

  /** Slot s lies outside t and holds it, and the nodes of t are in memory. */
  predicate Held(nodes: Nodes, tree: int, s: Slot, t: Tree) {
    && Linked(nodes, t) && NoAlias(t)
    && SlotOk(nodes, s) && (s.Root? || s.p !in Addrs(t)) && Load(nodes, tree, s) == Ptr(t)
  }

  /**
   * After taking from t through slot s: what is left is t', everything outside t is as
   * before but for the slot itself, and the nodes of t that are not in t' are given back.
   */
  predicate Replaced(nodes: Nodes, tree: int, nodes': Nodes, tree': int, s: Slot, t: Tree, t': Tree) {
    && SlotOk(nodes, s) && Linked(nodes', t')
    && nodes'.Keys == (nodes.Keys - Addrs(t)) + Addrs(t')
    && tree' == Store(nodes, tree, s, Ptr(t')).1
    && forall a :: a in nodes && a !in Addrs(t) ==> a in nodes' && nodes'[a] == Store(nodes, tree, s, Ptr(t')).0[a]
  }

  /** Memory after the counts of a leaf have been lowered, whether the leaf then stays or goes. */
  lemma LeafReplaced(nodes: Nodes, tree: int, nodes1: Nodes, s: Slot, t: Tree, k: nat)
    requires Held(nodes, tree, s, t) && t.Leaf?
    requires var z := Min(t.zeros, k);
      nodes1 == nodes[t.addr := Node(ONE, t.number, t.zeros - z, t.ones - Min(t.ones, k - z))]
    ensures SlotOk(nodes1 - {t.addr}, s)
    ensures if nodes1[t.addr].zero == 0 && nodes1[t.addr].one == 0
            then var (nodes2, tree2) := Store(nodes1 - {t.addr}, tree, s, 0);
              Replaced(nodes, tree, nodes2, tree2, s, t, Remove(t, k))
            else Replaced(nodes, tree, nodes1, tree, s, t, Remove(t, k))
  {}

  lemma InnerParts(t: Tree)
    requires Inv(t) && t.Inner?
    ensures Inv(t.zero) && Inv(t.one)
  {}

  lemma HeldChildren(nodes: Nodes, tree: int, s: Slot, t: Tree)
    requires Held(nodes, tree, s, t) && t.Inner?
    ensures Held(nodes, tree, ZeroOf(t.addr), t.zero) && Held(nodes, tree, OneOf(t.addr), t.one)
    ensures NoAlias(t.zero) && NoAlias(t.one)
  {}

  /** Memory between the two recursive calls of a take. */
  predicate BetweenTakes(nodes: Nodes, nodes1: Nodes, s: Slot, t: Tree, zero': Tree)
    requires t.Inner?
  {
    && Linked(nodes1, zero') && Linked(nodes1, t.one)
    && t.addr in nodes1 && nodes1[t.addr] == Node(t.bit, t.number, Ptr(zero'), Ptr(t.one))
    && nodes1.Keys == (nodes.Keys - Addrs(t.zero)) + Addrs(zero')
    && forall a :: a in nodes && a !in Addrs(t) ==> a in nodes1 && nodes1[a] == nodes[a]
  }

  lemma ZeroReplaced(nodes: Nodes, tree: int, nodes1: Nodes, tree1: int, s: Slot, t: Tree, zero': Tree)
    requires Held(nodes, tree, s, t) && t.Inner?
    requires Replaced(nodes, tree, nodes1, tree1, ZeroOf(t.addr), t.zero, zero')
    ensures Held(nodes1, tree1, OneOf(t.addr), t.one) && tree1 == tree
    ensures BetweenTakes(nodes, nodes1, s, t, zero')
  {
    LinkedFrame(nodes, nodes1, t.one);
  }

  /** Memory after both: node t still there, with both children replaced. */
  predicate BothTaken(nodes: Nodes, nodes2: Nodes, t: Tree, zero': Tree, one': Tree)
    requires t.Inner?
  {
    && Linked(nodes2, zero') && Linked(nodes2, one') && NoAlias(zero') && NoAlias(one')
    && t.addr in nodes2 && nodes2[t.addr] == Node(t.bit, t.number, Ptr(zero'), Ptr(one'))
    && nodes2.Keys == (nodes.Keys - Addrs(t)) + {t.addr} + Addrs(zero') + Addrs(one')
    && forall a :: a in nodes && a !in Addrs(t) ==> a in nodes2 && nodes2[a] == nodes[a]
  }

  lemma OneReplaced(nodes: Nodes, tree: int, nodes1: Nodes, tree1: int, nodes2: Nodes, tree2: int,
                    s: Slot, t: Tree, zero': Tree, one': Tree)
    requires Held(nodes, tree, s, t) && t.Inner? && BetweenTakes(nodes, nodes1, s, t, zero')
    requires Addrs(zero') <= Addrs(t.zero) && Addrs(one') <= Addrs(t.one) && NoAlias(zero') && NoAlias(one')
    requires Replaced(nodes1, tree1, nodes2, tree2, OneOf(t.addr), t.one, one')
    ensures tree2 == tree1 && BothTaken(nodes, nodes2, t, zero', one')
  {
    LinkedFrame(nodes1, nodes2, zero');
    LinkedAllocated(nodes, t);
  }

  lemma BothTakenNode(nodes: Nodes, nodes2: Nodes, t: Tree, zero': Tree, one': Tree)
    requires t.Inner? && BothTaken(nodes, nodes2, t, zero', one')
    ensures t.addr in nodes2 && nodes2[t.addr] == Node(t.bit, t.number, Ptr(zero'), Ptr(one'))
  {}

  lemma PruneReplaced(nodes: Nodes, tree: int, nodes2: Nodes, tree2: int, s: Slot, t: Tree, zero': Tree, one': Tree)
    requires Held(nodes, tree, s, t) && t.Inner? && BothTaken(nodes, nodes2, t, zero', one') && tree2 == tree
    requires Ptr(zero') == 0 && Ptr(one') == 0
    ensures zero'.Nil? && one'.Nil? && SlotOk(nodes2 - {t.addr}, s)
    ensures var (nodes3, tree3) := Store(nodes2 - {t.addr}, tree2, s, 0);
      Replaced(nodes, tree, nodes3, tree3, s, t, Nil)
  {}

  lemma KeepReplaced(nodes: Nodes, tree: int, nodes2: Nodes, tree2: int, s: Slot, t: Tree, zero': Tree, one': Tree)
    requires Held(nodes, tree, s, t) && t.Inner? && BothTaken(nodes, nodes2, t, zero', one') && tree2 == tree
    requires !(Ptr(zero') == 0 && Ptr(one') == 0)
    ensures !(zero'.Nil? && one'.Nil?)
    ensures Replaced(nodes, tree, nodes2, tree2, s, t, Inner(t.addr, t.bit, t.number, zero', one'))
  {}

  lemma NodeIsLeaf(t: Tree)
    requires !t.Nil? && Inv(t)
    ensures t.Leaf? <==> MaxBit(t) == ONE
  {
    NodeBit(t);
  }

  lemma NodeBit(t: Tree)
    requires !t.Nil? && Inv(t)
    ensures OneHot(MaxBit(t)) && (t.Inner? <==> Less(ONE, MaxBit(t)))
    ensures t.Inner? <==> MaxBit(t) != ONE
  {
    hide Agree, Half, Clear, Put, Less, AtMost;
    MaxBitOneHot(t);
    AtMostSelf(ONE);
  }

  lemma SamePosition(a: Word, b: Word)
    requires OneHot(a) && OneHot(b) && AtMost(a, b) && !Less(a, b)
    ensures a == b
  {}

  lemma HalfPositive(b: Word)
    requires OneHot(b)
    ensures AtMost(ONE, Half(b)) <==> Less(ONE, b)
  {}

  lemma SplitLinked(nodes: Nodes, nptr2: int, bitPos: Word, number: Word, leaf: int, sub: Tree)
    requires nptr2 in nodes && nptr2 != 0 && leaf != 0 && nptr2 != leaf
    requires nodes[nptr2] == if Has(number, bitPos) then Node(bitPos, number, Ptr(sub), leaf)
                             else Node(bitPos, number, leaf, Ptr(sub))
    requires Linked(nodes, NewLeaf(leaf, number)) && Linked(nodes, sub)
    requires NoAlias(sub) && nptr2 !in Addrs(sub) && leaf !in Addrs(sub)
    ensures var r := Split(nptr2, bitPos, number, NewLeaf(leaf, number), sub);
      Linked(nodes, r) && NoAlias(r) && Ptr(r) == nptr2 && Addrs(r) == {nptr2, leaf} + Addrs(sub)
  {
    hide Has;
  }
}
