/**
 * The code of A5/resources/tiny_riscv/radix.c over nodes in memory. Memory, slots and contexts
 * are those of TreeMemory; a plain node leaves the number word at zero, and its bit_pos is
 * kept as the one-hot position it stands for.
 */
module PlainProgram {
  import opened Words
  import opened Ordering
  import opened RadixTree
  import opened TreeMemory
  import P = PlainTrie

  // ----- What a tree in memory stands for

  /** The trie without its addresses. */
  function Shape(t: Tree): P.Trie {
    match t
    case Nil => P.Nil
    case Leaf(_, _, zeros, ones) => P.Leaf(zeros, ones)
    case Inner(_, _, _, zero, one) => P.Inner(Shape(zero), Shape(one))
  }

  /** Every node carries the position of its level, and leaves are at level 0. */
  predicate Plain(t: Tree, level: bv32) {
    match t
    case Nil => true
    case Leaf(_, n, _, _) => level == 0 && n == ZERO
    case Inner(_, bit, n, zero, one) =>
      && 0 < level <= P.MAX_LEVEL && bit == P.BitAt(level) && n == ZERO
      && Plain(zero, level - 1) && Plain(one, level - 1)
  }

  lemma {:induction false} PlainFull(t: Tree, level: bv32)
    requires Plain(t, level)
    ensures P.Full(Shape(t), level)
    decreases t
  {
    hide P.BitAt;
    match t
    case Nil =>
    case Leaf(_, _, _, _) =>
    case Inner(_, _, _, zero, one) =>
      PlainFull(zero, level - 1);
      PlainFull(one, level - 1);
  }

  /** The node just created for a missing one. */
  function NewNode(p: int, level: bv32): Tree
    requires level <= P.MAX_LEVEL
  {
    if level == 0 then Leaf(p, ZERO, 0, 0) else Inner(p, P.BitAt(level), ZERO, Nil, Nil)
  }

  function Child(t: Tree, one: bool): Tree
    requires t.Inner?
  {
    if one then t.one else t.zero
  }

  function Down(c: Context, t: Tree, one: bool): Context
    requires t.Inner?
  {
    if one then InOne(c, t.addr, t.bit, t.number, t.zero) else InZero(c, t.addr, t.bit, t.number, t.one)
  }

  // ----- The walk

  /** Whatever stands for sub with n added makes the whole stand for t0 with n added, and fits in. */
  ghost predicate Walking(t0: P.Trie, c: Context, sub: Tree, level: bv32, n: Word)
    requires level <= P.MAX_LEVEL
  {
    && Plain(sub, level) && P.Full(Shape(sub), level) && P.Full(t0, P.MAX_LEVEL)
    && forall r :: Plain(r, level) && Shape(r) == P.Add(Shape(sub), level, n) ==>
         Plain(Plug(c, r), P.MAX_LEVEL) && Shape(Plug(c, r)) == P.Add(t0, P.MAX_LEVEL, n)
  }

  lemma WalkCreated(t0: P.Trie, c: Context, level: bv32, n: Word, p: int)
    requires level <= P.MAX_LEVEL && Walking(t0, c, Nil, level, n)
    ensures Walking(t0, c, NewNode(p, level), level, n)
  {
    hide P.BitAt, Has, Plug;
    CreatedAdds(level, n, p);
  }

  lemma CreatedAdds(level: bv32, n: Word, p: int)
    requires level <= P.MAX_LEVEL
    ensures Plain(NewNode(p, level), level) && P.Full(Shape(NewNode(p, level)), level) && P.Full(P.Nil, level)
    ensures P.Add(Shape(NewNode(p, level)), level, n) == P.Add(P.Nil, level, n)
  {
    hide P.BitAt, Has;
    PlainFull(NewNode(p, level), level);
  }

  lemma WalkDown(t0: P.Trie, c: Context, sub: Tree, level: bv32, n: Word)
    requires 0 < level <= P.MAX_LEVEL && sub.Inner? && Walking(t0, c, sub, level, n)
    ensures var one := Has(n, P.BitAt(level));
      Walking(t0, Down(c, sub, one), Child(sub, one), level - 1, n)
  {
    hide P.BitAt, Has;
    var one := Has(n, P.BitAt(level));
    var child := Child(sub, one);
    PlainFull(child, level - 1);
    forall r | Plain(r, level - 1) && Shape(r) == P.Add(Shape(child), level - 1, n)
      ensures Plain(Plug(Down(c, sub, one), r), P.MAX_LEVEL)
      ensures Shape(Plug(Down(c, sub, one), r)) == P.Add(t0, P.MAX_LEVEL, n)
    {
      var whole := if one then sub.(one := r) else sub.(zero := r);
      assert Plain(whole, level) && Shape(whole) == P.Add(Shape(sub), level, n);
      assert Plug(Down(c, sub, one), r) == Plug(c, whole);
    }
  }

  function Counted(t: Tree, one: bool): Tree
    requires t.Leaf?
  {
    if one then t.(ones := t.ones + 1) else t.(zeros := t.zeros + 1)
  }

  lemma WalkEnd(t0: P.Trie, c: Context, sub: Tree, n: Word)
    requires sub.Leaf? && Walking(t0, c, sub, 0, n)
    ensures var whole := Plug(c, Counted(sub, Has(n, ONE)));
      Plain(whole, P.MAX_LEVEL) && Shape(whole) == P.Add(t0, P.MAX_LEVEL, n)
  {
    hide Has, Plug;
    var r := Counted(sub, Has(n, ONE));
    assert Plain(r, 0) && Shape(r) == P.Add(Shape(sub), 0, n);
  }

  // ----- The program

  class PlainProgram {
    var tree: int
    var nodes: Nodes
    ghost var whole: Tree

    ghost predicate Valid()
      reads this
    {
      && nodes.Keys == Addrs(whole) && NoAlias(whole)
      && Linked(nodes, whole) && tree == Ptr(whole) && Plain(whole, P.MAX_LEVEL)
    }

    constructor ()
      ensures Valid() && whole == Nil
    {
      tree := 0;
      nodes := map[];
      whole := Nil;
    }

    /** Where the walk is, and what is in memory. */
    ghost predicate At(c: Context, sub: Tree)
      reads this
    {
      && nodes.Keys == ContextAddrs(c) + Addrs(sub) && ContextAddrs(c) !! Addrs(sub)
      && ContextLinked(nodes, tree, c, Ptr(sub)) && ContextNoAlias(c)
      && Linked(nodes, sub) && NoAlias(sub)
    }

    method StoreSlot(s: Slot, v: int)
      requires SlotOk(nodes, s)
      modifies `nodes, `tree
      ensures (nodes, tree) == Store(old(nodes), old(tree), s, v)
    {
      match s
      case Root => tree := v;
      case ZeroOf(p) => nodes := nodes[p := nodes[p].(zero := v)];
      case OneOf(p) => nodes := nodes[p := nodes[p].(one := v)];
    }

    /** A new node at any unused address takes the place of the missing subtree. */
    method CreateNode(parent: Slot, level: bv32, ghost c: Context) returns (nptr: int)
      requires At(c, Nil) && parent == SlotOf(c) && level <= P.MAX_LEVEL
      modifies `nodes, `tree
      ensures At(c, NewNode(nptr, level)) && nptr == Ptr(NewNode(nptr, level)) != 0
    {
      hide P.BitAt;
      UnusedAddress(nodes.Keys);
      nptr :| nptr != 0 && nptr !in nodes;
      ghost var nodes0 := nodes;
      nodes := nodes[nptr := Node(P.BitAt(level), ZERO, 0, 0)];
      ContextFrame(nodes0, nodes, tree, c, 0);
      SlotLinked(nodes, tree, c, 0);
      StoreLinked(nodes, tree, c, 0, nptr);
      StoreSlot(parent, nptr);
      LevelZero();
      assert ContextLinked(nodes, tree, c, nptr);
      assert Linked(nodes, NewNode(nptr, level));
      assert NoAlias(NewNode(nptr, level));
      assert nodes.Keys == ContextAddrs(c) + {nptr};
    }

    method Count(nptr: int, number: Word, ghost c: Context, ghost sub: Tree)
      requires At(c, sub) && sub.Leaf? && nptr == Ptr(sub)
      modifies `nodes
      ensures At(c, Counted(sub, Has(number, ONE)))
    {
      hide Has;
      ghost var nodes0 := nodes;
      if Has(number, ONE) {
        nodes := nodes[nptr := nodes[nptr].(one := nodes[nptr].one + 1)];
      } else {
        nodes := nodes[nptr := nodes[nptr].(zero := nodes[nptr].zero + 1)];
      }
      ContextFrame(nodes0, nodes, tree, c, nptr);
    }

    /** Walks all 31 levels, creating the nodes that are missing, and counts the number at the last. */
    method AddNumber(number: Word)
      requires Valid()
      modifies this
      ensures Valid() && P.Full(Shape(old(whole)), P.MAX_LEVEL)
      ensures Shape(whole) == P.Add(Shape(old(whole)), P.MAX_LEVEL, number)
    {
      hide Has, P.BitAt, Linked, ContextLinked, ContextNoAlias, NoAlias, Plain, Walking, P.Full;
      ghost var t0, c, sub := Shape(whole), Hole, whole;
      Begin(number);
      var parent, level, done := Root, P.MAX_LEVEL, false;
      while !done
        invariant level <= P.MAX_LEVEL && t0 == Shape(old(whole)) && P.Full(t0, P.MAX_LEVEL)
        invariant !done ==> At(c, sub) && parent == SlotOf(c) && Walking(t0, c, sub, level, number)
        invariant done ==> Valid() && Shape(whole) == P.Add(t0, P.MAX_LEVEL, number)
        decreases level, !done
      {
        Reached(c, sub, level, number, t0);
        var nptr := Load(nodes, tree, parent);
        if nptr == 0 {
          nptr := CreateNode(parent, level, c);
          WalkCreated(t0, c, level, number, nptr);
          sub := NewNode(nptr, level);
        }
        if level != 0 {
          var one := Has(number, P.BitAt(level));
          parent := if one then OneOf(nptr) else ZeroOf(nptr);
          WalkDown(t0, c, sub, level, number);
          StepDown(c, sub, one);
          c, sub := Down(c, sub, one), Child(sub, one);
          level := level - 1;
        } else {
          Count(nptr, number, c, sub);
          WalkEnd(t0, c, sub, number);
          Finish(c, Counted(sub, Has(number, ONE)));
          done := true;
        }
      }
    }

    lemma Begin(n: Word)
      requires Valid()
      ensures At(Hole, whole) && Walking(Shape(whole), Hole, whole, P.MAX_LEVEL, n)
      ensures P.Full(Shape(whole), P.MAX_LEVEL)
    {
      hide Has, P.BitAt, P.Add;
      PlainFull(whole, P.MAX_LEVEL);
    }

    lemma Reached(c: Context, sub: Tree, level: bv32, n: Word, t0: P.Trie)
      requires At(c, sub) && level <= P.MAX_LEVEL && Walking(t0, c, sub, level, n)
      ensures SlotOk(nodes, SlotOf(c)) && Load(nodes, tree, SlotOf(c)) == Ptr(sub)
      ensures Ptr(sub) == 0 <==> sub.Nil?
      ensures !sub.Nil? ==> (sub.Leaf? <==> level == 0)
    {
      hide Has, P.BitAt, P.Add;
      SlotLinked(nodes, tree, c, Ptr(sub));
    }

    lemma StepDown(c: Context, sub: Tree, one: bool)
      requires At(c, sub) && sub.Inner?
      ensures At(Down(c, sub, one), Child(sub, one))
    {}

    ghost method Finish(c: Context, r: Tree)
      requires At(c, r) && Plain(Plug(c, r), P.MAX_LEVEL)
      modifies `whole
      ensures Valid() && whole == Plug(c, r)
    {
      hide Has, P.BitAt, Plain;
      PlugAddrs(c, r);
      PlugNoAlias(c, r);
      PlugLinked(nodes, tree, c, r);
      whole := Plug(c, r);
    }

    /** Prints the numbers below a node, given the bits above it. */
    method PrintNumbers2(nptr: int, higherBits: bv32, ghost t: Tree, ghost level: bv32) returns (output: seq<Word>)
      requires Linked(nodes, t) && nptr == Ptr(t) && NoAlias(t) && Plain(t, level) && level <= P.MAX_LEVEL
      ensures output == P.Printed(Shape(t), higherBits)
      decreases t
    {
      hide P.BitAt, P.ZeroSide, P.OneSide;
      output := [];
      if nptr != 0 {
        Position(t, level);
        if nodes[nptr].bitPos == ONE {
          for n := 0 to nodes[nptr].zero
            invariant output == Repeat(Word(P.ZeroSide(higherBits)), n)
          {
            output := output + [Word(P.ZeroSide(higherBits))];
          }
          ghost var zeros := output;
          for n := 0 to nodes[nptr].one
            invariant output == zeros + Repeat(Word(P.OneSide(higherBits)), n)
          {
            output := output + [Word(P.OneSide(higherBits))];
          }
        } else {
          var zero := PrintNumbers2(nodes[nptr].zero, P.ZeroSide(higherBits), t.zero, level - 1);
          var one := PrintNumbers2(nodes[nptr].one, P.OneSide(higherBits), t.one, level - 1);
          output := zero + one;
        }
      }
    }

    /** Gives back every node of a subtree, children first. */
    method ReleaseTree(p: int, ghost t: Tree, ghost level: bv32)
      requires Linked(nodes, t) && NoAlias(t) && Plain(t, level) && level <= P.MAX_LEVEL && p == Ptr(t)
      modifies `nodes
      ensures nodes == old(nodes) - Addrs(t)
      decreases t
    {
      hide P.BitAt;
      if p != 0 {
        Position(t, level);
        if nodes[p].bitPos != ONE {
          ghost var nodes0 := nodes;
          ReleaseTree(nodes[p].zero, t.zero, level - 1);
          LinkedFrame(nodes0, nodes, t.one);
          ReleaseTree(nodes[p].one, t.one, level - 1);
        }
        nodes := nodes - {p};
      }
    }

    /** Adding a list of numbers and printing sorts their lower 31 bits, which the numbers may be. */
    method SortNumbers(numbers: seq<Word>) returns (output: seq<Word>)
      requires Valid() && whole == Nil
      modifies this
      ensures nodes == map[] && output == P.Printed(P.AddAll(numbers), 0)
      ensures Sorted(output) && multiset(output) == multiset(P.LowAll(numbers))
      ensures multiset(output) == multiset(numbers) <==> forall n :: n in numbers ==> !Has(n, SIGN)
    {
      hide Has, P.Low, P.BitAt, Plain, Linked, P.Add, P.Full, P.AddAll;
      NothingAdded();
      for i := 0 to |numbers|
        invariant Valid() && Shape(whole) == P.AddAll(numbers[..i])
      {
        AddNumber(numbers[i]);
        OneMoreAdded(numbers, i);
      }
      assert numbers[..|numbers|] == numbers;
      output := PrintNumbers2(tree, 0, whole, P.MAX_LEVEL);
      ReleaseTree(tree, whole, P.MAX_LEVEL);
      P.LowPrinted(numbers);
      P.LowIsSame(numbers);
    }
  }

  lemma {:induction false} AboveAll(keys: set<int>) returns (m: int)
    ensures m > 0 && forall k :: k in keys ==> k < m
  {
    m := 1;
    if k :| k in keys {
      m := AboveAll(keys - {k});
      forall j | j in keys && j != k ensures j < m { assert j in keys - {k}; }
      if m <= k { m := k + 1; }
    }
  }

  lemma UnusedAddress(keys: set<int>)
    ensures exists p :: p != 0 && p !in keys
  {
    var m := AboveAll(keys);
    assert m !in keys;
  }

  lemma LevelZero()
    ensures P.BitAt(0) == ONE
  {
    P.BitBelow(0);
  }

  lemma Position(t: Tree, level: bv32)
    requires Plain(t, level) && !t.Nil? && level <= P.MAX_LEVEL
    ensures t.Leaf? <==> MaxBit(t) == ONE
  {
    hide P.BitAt, OneHot, Half;
    P.BitBelow(level);
  }

  lemma NothingAdded()
    ensures P.AddAll([]) == P.Nil
  {}

  lemma OneMoreAdded(numbers: seq<Word>, i: nat)
    requires i < |numbers|
    ensures P.Full(P.AddAll(numbers[..i]), P.MAX_LEVEL)
    ensures P.AddAll(numbers[..i + 1]) == P.Add(P.AddAll(numbers[..i]), P.MAX_LEVEL, numbers[i])
  {
    hide P.Add;
    assert numbers[..i + 1][..i] == numbers[..i];
  }
}
