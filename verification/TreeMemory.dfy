/**
 * Radix tree nodes in memory. A node's union is two words: the counts of a leaf or the child
 * pointers of an inner node. A walk down the tree is a context: the nodes passed so far and
 * the subtrees not entered, around the slot the walk has reached.
 */
module TreeMemory {
  import opened Words
  import opened RadixTree

  datatype Node = Node(bitPos: Word, number: Word, zero: int, one: int)

  type Nodes = map<int, Node>

  /** A pointer to a node pointer: the root variable or a child field of a node. */
  datatype Slot = Root | ZeroOf(p: int) | OneOf(p: int)

  function Ptr(t: Tree): int {
    if t.Nil? then 0 else t.addr
  }

  /** The nodes of t are in memory, linked as in t. */
  predicate Linked(nodes: Nodes, t: Tree) {
    match t
    case Nil => true
    case Leaf(a, n, zeros, ones) => a in nodes && nodes[a] == Node(ONE, n, zeros, ones)
    case Inner(a, bit, n, zero, one) =>
      && a in nodes && nodes[a] == Node(bit, n, Ptr(zero), Ptr(one))
      && Linked(nodes, zero) && Linked(nodes, one)
  }

  /** nodes' keeps the nodes at the given addresses. */
  predicate Keeps(nodes: Nodes, nodes': Nodes, addrs: set<int>) {
    forall a :: a in addrs && a in nodes ==> a in nodes' && nodes'[a] == nodes[a]
  }

  lemma {:induction false} LinkedFrame(nodes: Nodes, nodes': Nodes, t: Tree)
    requires Linked(nodes, t) && Keeps(nodes, nodes', Addrs(t))
    ensures Linked(nodes', t)
  {
    match t
    case Nil =>
    case Leaf(_, _, _, _) =>
    case Inner(_, _, _, zero, one) =>
      LinkedFrame(nodes, nodes', zero);
      LinkedFrame(nodes, nodes', one);
  }

  lemma {:induction false} LinkedAllocated(nodes: Nodes, t: Tree)
    requires Linked(nodes, t)
    ensures Addrs(t) <= nodes.Keys
  {
    match t
    case Nil =>
    case Leaf(_, _, _, _) =>
    case Inner(_, _, _, zero, one) =>
      LinkedAllocated(nodes, zero);
      LinkedAllocated(nodes, one);
  }

  // ----- Contexts

  datatype Context =
    | Hole
    | InZero(outer: Context, addr: int, bit: Word, number: Word, one: Tree)
    | InOne(outer: Context, addr: int, bit: Word, number: Word, zero: Tree)

  /** The whole tree when t stands in the hole. */
  function Plug(c: Context, t: Tree): Tree {
    match c
    case Hole => t
    case InZero(outer, a, bit, n, one) => Plug(outer, Inner(a, bit, n, t, one))
    case InOne(outer, a, bit, n, zero) => Plug(outer, Inner(a, bit, n, zero, t))
  }

  function SlotOf(c: Context): Slot {
    match c
    case Hole => Root
    case InZero(_, a, _, _, _) => ZeroOf(a)
    case InOne(_, a, _, _, _) => OneOf(a)
  }

  function ContextAddrs(c: Context): set<int> {
    match c
    case Hole => {}
    case InZero(outer, a, _, _, other) => {a} + Addrs(other) + ContextAddrs(outer)
    case InOne(outer, a, _, _, other) => {a} + Addrs(other) + ContextAddrs(outer)
  }

  predicate ContextNoAlias(c: Context) {
    match c
    case Hole => true
    case InZero(outer, a, _, _, other) => ApartFrom(outer, a, other) && ContextNoAlias(outer)
    case InOne(outer, a, _, _, other) => ApartFrom(outer, a, other) && ContextNoAlias(outer)
  }

  predicate ApartFrom(outer: Context, a: int, other: Tree) {
    a != 0 && a !in Addrs(other) && NoAlias(other) && ContextAddrs(outer) !! {a} + Addrs(other)
  }

  /** The nodes around the hole are in memory, and its slot holds pointer p. */
  predicate ContextLinked(nodes: Nodes, root: int, c: Context, p: int) {
    match c
    case Hole => root == p
    case InZero(outer, a, bit, n, one) =>
      && a in nodes && nodes[a] == Node(bit, n, p, Ptr(one))
      && Linked(nodes, one) && ContextLinked(nodes, root, outer, a)
    case InOne(outer, a, bit, n, zero) =>
      && a in nodes && nodes[a] == Node(bit, n, Ptr(zero), p)
      && Linked(nodes, zero) && ContextLinked(nodes, root, outer, a)
  }

  lemma {:induction false} PlugAddrs(c: Context, t: Tree)
    ensures Addrs(Plug(c, t)) == ContextAddrs(c) + Addrs(t)
    decreases c
  {
    match c
    case Hole =>
    case InZero(outer, a, bit, n, one) => PlugAddrs(outer, Inner(a, bit, n, t, one));
    case InOne(outer, a, bit, n, zero) => PlugAddrs(outer, Inner(a, bit, n, zero, t));
  }

  lemma {:induction false} PlugNoAlias(c: Context, t: Tree)
    ensures NoAlias(Plug(c, t)) <==> ContextNoAlias(c) && NoAlias(t) && ContextAddrs(c) !! Addrs(t)
    decreases c
  {
    match c
    case Hole =>
    case InZero(outer, a, bit, n, one) => PlugNoAlias(outer, Inner(a, bit, n, t, one));
    case InOne(outer, a, bit, n, zero) => PlugNoAlias(outer, Inner(a, bit, n, zero, t));
  }

  lemma {:induction false} PlugLinked(nodes: Nodes, root: int, c: Context, t: Tree)
    ensures Linked(nodes, Plug(c, t)) && root == Ptr(Plug(c, t))
      <==> ContextLinked(nodes, root, c, Ptr(t)) && Linked(nodes, t)
    decreases c
  {
    match c
    case Hole =>
    case InZero(outer, a, bit, n, one) => PlugLinked(nodes, root, outer, Inner(a, bit, n, t, one));
    case InOne(outer, a, bit, n, zero) => PlugLinked(nodes, root, outer, Inner(a, bit, n, zero, t));
  }

  lemma {:induction false} ContextFrame(nodes: Nodes, nodes': Nodes, root: int, c: Context, p: int)
    requires ContextLinked(nodes, root, c, p) && Keeps(nodes, nodes', ContextAddrs(c))
    ensures ContextLinked(nodes', root, c, p)
  {
    match c
    case Hole =>
    case InZero(outer, a, _, _, other) =>
      LinkedFrame(nodes, nodes', other);
      ContextFrame(nodes, nodes', root, outer, a);
    case InOne(outer, a, _, _, other) =>
      LinkedFrame(nodes, nodes', other);
      ContextFrame(nodes, nodes', root, outer, a);
  }

  // ----- Slots

  predicate SlotOk(nodes: Nodes, s: Slot) {
    s.Root? || s.p in nodes
  }

  function Load(nodes: Nodes, root: int, s: Slot): int
    requires SlotOk(nodes, s)
  {
    match s
    case Root => root
    case ZeroOf(p) => nodes[p].zero
    case OneOf(p) => nodes[p].one
  }

  function Store(nodes: Nodes, root: int, s: Slot, v: int): (Nodes, int)
    requires SlotOk(nodes, s)
  {
    match s
    case Root => (nodes, v)
    case ZeroOf(p) => (nodes[p := nodes[p].(zero := v)], root)
    case OneOf(p) => (nodes[p := nodes[p].(one := v)], root)
  }

  lemma SlotLinked(nodes: Nodes, root: int, c: Context, p: int)
    requires ContextLinked(nodes, root, c, p)
    ensures SlotOk(nodes, SlotOf(c)) && Load(nodes, root, SlotOf(c)) == p
    ensures !SlotOf(c).Root? ==> SlotOf(c).p in ContextAddrs(c)
  {}

  /** Storing through the slot of a context replaces the pointer in its hole, and nothing else. */
  lemma StoreLinked(nodes: Nodes, root: int, c: Context, p: int, v: int)
    requires ContextLinked(nodes, root, c, p) && ContextNoAlias(c)
    ensures SlotOk(nodes, SlotOf(c))
    ensures var (nodes', root') := Store(nodes, root, SlotOf(c), v); ContextLinked(nodes', root', c, v)
  {
    var (nodes', root') := Store(nodes, root, SlotOf(c), v);
    match c
    case Hole =>
    case InZero(outer, a, _, _, other) =>
      LinkedFrame(nodes, nodes', other);
      ContextFrame(nodes, nodes', root, outer, a);
    case InOne(outer, a, _, _, other) =>
      LinkedFrame(nodes, nodes', other);
      ContextFrame(nodes, nodes', root, outer, a);
  }
}
