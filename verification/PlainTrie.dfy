/**
 * The uncompressed trie of A5/resources/tiny_riscv/radix.c, with one node for each of 31 bit
 * positions on every path, as the simple form of the compressed tree: both enumerate the same
 * numbers in the same order.
 */
module PlainTrie {
  import opened Words
  import opened Ordering
  import RadixTree

  /** bit_pos is implied by the depth: a leaf is at position 0. */
  datatype Trie = Nil | Leaf(zeros: nat, ones: nat) | Inner(zero: Trie, one: Trie)

  const MAX_LEVEL: bv32 := 30

  /** Every path reaches exactly down to position 0. */
  predicate Full(t: Trie, level: bv32) {
    match t
    case Nil => true
    case Leaf(_, _) => level == 0
    case Inner(zero, one) => 0 < level <= MAX_LEVEL && Full(zero, level - 1) && Full(one, level - 1)
  }

  /** 1 << bit_pos. */
  function BitAt(level: bv32): Word
    requires level <= MAX_LEVEL
  {
    Word((1 as bv32) << level)
  }

  /** Adding by walking all positions down from level, creating what is missing. */
  function Add(t: Trie, level: bv32, n: Word): Trie
    requires level <= MAX_LEVEL && Full(t, level)
    decreases level
  {
    if level == 0 then
      var leaf := if t.Nil? then Leaf(0, 0) else t;
      if Has(n, ONE) then leaf.(ones := leaf.ones + 1) else leaf.(zeros := leaf.zeros + 1)
    else
      var node := if t.Nil? then Inner(Nil, Nil) else t;
      if Has(n, BitAt(level)) then node.(one := Add(node.one, level - 1, n))
      else node.(zero := Add(node.zero, level - 1, n))
  }

  /** The bits above the children of a node. */
  function ZeroSide(higherBits: bv32): bv32 { higherBits << 1 }

  function OneSide(higherBits: bv32): bv32 { (higherBits << 1) | 1 }

  /** What is printed, given the bits above a node: zeros before ones. */
  function Printed(t: Trie, higherBits: bv32): seq<Word> {
    match t
    case Nil => []
    case Leaf(zeros, ones) =>
      RadixTree.Repeat(Word(ZeroSide(higherBits)), zeros) + RadixTree.Repeat(Word(OneSide(higherBits)), ones)
    case Inner(zero, one) => Printed(zero, ZeroSide(higherBits)) + Printed(one, OneSide(higherBits))
  }

  /** The bits above a node, moved to the place they have in the number. */
  function Aligned(higherBits: bv32, level: bv32): Word
    requires level <= MAX_LEVEL
  {
    Word(higherBits << (level + 1))
  }

  lemma AlignedZero(p: bv32, level: bv32)
    requires 0 < level <= MAX_LEVEL
    ensures Aligned(ZeroSide(p), level - 1) == Clear(Aligned(p, level), BitAt(level))
  {}

  lemma AlignedOne(p: bv32, level: bv32)
    requires 0 < level <= MAX_LEVEL
    ensures Aligned(OneSide(p), level - 1) == Put(Aligned(p, level), BitAt(level))
  {}

  lemma BitBelow(level: bv32)
    requires level <= MAX_LEVEL
    ensures OneHot(BitAt(level)) && (level == 0 ==> BitAt(level) == ONE)
    ensures level > 0 ==> Less(ONE, BitAt(level)) && BitAt(level - 1) == Half(BitAt(level))
  {}

  lemma LeafAligned(p: bv32)
    ensures Word(ZeroSide(p)) == Clear(Aligned(p, 0), ONE) && Word(OneSide(p)) == Put(Aligned(p, 0), ONE)
    ensures Aligned(p, 0) == Clear(Aligned(p, 0), ONE)
  {
    hide Clear, Put, Aligned, ZeroSide, OneSide;
    ZeroLast(p);
    OneLast(p);
    AlignedLast(p);
  }

  lemma AlignedLast(p: bv32)
    ensures Aligned(p, 0) == Word(ZeroSide(p))
  {}

  lemma ZeroLast(p: bv32)
    ensures Clear(Word(ZeroSide(p)), ONE) == Word(ZeroSide(p))
  {}

  lemma OneLast(p: bv32)
    ensures Put(Word(ZeroSide(p)), ONE) == Word(OneSide(p))
  {}

  lemma {:induction false} AddFull(t: Trie, level: bv32, n: Word)
    requires level <= MAX_LEVEL && Full(t, level)
    ensures Full(Add(t, level, n), level)
    decreases level
  {
    hide Has, BitAt;
    if level != 0 {
      var node := if t.Nil? then Inner(Nil, Nil) else t;
      AddFull(if Has(n, BitAt(level)) then node.one else node.zero, level - 1, n);
    }
  }

  function Shown(t: Trie, p: bv32): multiset<Word> { multiset(Printed(t, p)) }

  /** Adding prints exactly one number more, when the bits above the node are those of the number. */
  lemma {:induction false} AddPrinted(t: Trie, level: bv32, n: Word, p: bv32)
    requires level <= MAX_LEVEL && Full(t, level) && Agree(n, Aligned(p, level), BitAt(level))
    ensures Shown(Add(t, level, n), p) == Shown(t, p) + multiset{n}
    decreases level
  {
    hide Agree, Has, BitAt, Aligned, Clear, Put, Half, OneHot, Less, Full, ZeroSide, OneSide, Shown, Add;
    BitBelow(level);
    if level == 0 {
      LeafAddPrinted(t, n, p);
    } else {
      var b := BitAt(level);
      FullChildren(t, level);
      AgreeBelow(n, Aligned(p, level), b);
      AlignedZero(p, level);
      AlignedOne(p, level);
      var node := if t.Nil? then Inner(Nil, Nil) else t;
      if Has(n, b) {
        AddPrinted(node.one, level - 1, n, OneSide(p));
      } else {
        AddPrinted(node.zero, level - 1, n, ZeroSide(p));
      }
      AddInnerPrinted(t, level, n, p);
    }
  }

  lemma AddInnerPrinted(t: Trie, level: bv32, n: Word, p: bv32)
    requires 0 < level <= MAX_LEVEL && Full(t, level)
    ensures var node := if t.Nil? then Inner(Nil, Nil) else t;
      && Full(node.zero, level - 1) && Full(node.one, level - 1)
      && Shown(t, p) == Shown(node.zero, ZeroSide(p)) + Shown(node.one, OneSide(p))
      && Shown(Add(t, level, n), p)
         == if Has(n, BitAt(level)) then Shown(node.zero, ZeroSide(p)) + Shown(Add(node.one, level - 1, n), OneSide(p))
            else Shown(Add(node.zero, level - 1, n), ZeroSide(p)) + Shown(node.one, OneSide(p))
  {
    hide Has, BitAt, ZeroSide, OneSide, Shown, Printed;
    FullChildren(t, level);
    NodePrinted(t, p);
    InnerPrinted(if t.Nil? then Inner(Nil, Nil) else t, p);
    InnerPrinted(Add(t, level, n), p);
  }

  lemma FullChildren(t: Trie, level: bv32)
    requires Full(t, level) && 0 < level <= MAX_LEVEL
    ensures t.Nil? || t.Inner?
    ensures var node := if t.Nil? then Inner(Nil, Nil) else t; Full(node.zero, level - 1) && Full(node.one, level - 1)
  {}

  lemma InnerPrinted(t: Trie, p: bv32)
    requires t.Inner?
    ensures Shown(t, p) == Shown(t.zero, ZeroSide(p)) + Shown(t.one, OneSide(p))
  {}

  lemma NodePrinted(t: Trie, p: bv32)
    ensures Shown(if t.Nil? then Inner(Nil, Nil) else t, p) == Shown(t, p)
  {
    if t.Nil? { assert Printed(Inner(Nil, Nil), p) == []; }
  }

  lemma LeafAddPrinted(t: Trie, n: Word, p: bv32)
    requires Full(t, 0) && Agree(n, Aligned(p, 0), ONE)
    ensures Shown(Add(t, 0, n), p) == Shown(t, p) + multiset{n}
  {
    hide Agree, Has, Aligned, Clear, Put, ZeroSide, OneSide, Shown;
    AgreeSymmetric(n, Aligned(p, 0), ONE);
    LowBitDecides(Aligned(p, 0), n);
    LeafAligned(p);
    var leaf := if t.Nil? then Leaf(0, 0) else t;
    LeafShown(t, p);
    ShownOneMore(leaf.zeros, leaf.ones, p);
  }

  lemma LeafShown(t: Trie, p: bv32)
    ensures t.Nil? ==> Shown(t, p) == Shown(Leaf(0, 0), p)
  {}

  lemma ShownOneMore(zeros: nat, ones: nat, p: bv32)
    ensures Shown(Leaf(zeros + 1, ones), p) == Shown(Leaf(zeros, ones), p) + multiset{Word(ZeroSide(p))}
    ensures Shown(Leaf(zeros, ones + 1), p) == Shown(Leaf(zeros, ones), p) + multiset{Word(OneSide(p))}
  {
    hide ZeroSide, OneSide;
    OneMore(Word(ZeroSide(p)), zeros, Word(OneSide(p)), ones);
  }

  lemma OneMore(a: Word, zeros: nat, b: Word, ones: nat)
    ensures var s := multiset(RadixTree.Repeat(a, zeros) + RadixTree.Repeat(b, ones));
      && multiset(RadixTree.Repeat(a, zeros + 1) + RadixTree.Repeat(b, ones)) == s + multiset{a}
      && multiset(RadixTree.Repeat(a, zeros) + RadixTree.Repeat(b, ones + 1)) == s + multiset{b}
  {
    assert RadixTree.Repeat(a, zeros + 1) == RadixTree.Repeat(a, zeros) + [a];
    assert RadixTree.Repeat(b, ones + 1) == RadixTree.Repeat(b, ones) + [b];
  }

  /** Everything printed below a node has the bits above the node. */
  lemma {:induction false} PrintedAgrees(t: Trie, level: bv32, p: bv32, x: Word)
    requires level <= MAX_LEVEL && Full(t, level) && x in Printed(t, p)
    ensures Agree(x, Aligned(p, level), BitAt(level))
    decreases t
  {
    hide Agree, BitAt, Aligned, Clear, Put, Half, OneHot, Less, ZeroSide, OneSide;
    BitBelow(level);
    var q, b := Aligned(p, level), BitAt(level);
    if t.Leaf? {
      LeafAligned(p);
      SideAgrees(q, ONE);
      OneIsOneHot();
    } else {
      var side := if x in Printed(t.zero, ZeroSide(p)) then ZeroSide(p) else OneSide(p);
      AlignedZero(p, level);
      AlignedOne(p, level);
      PrintedAgrees(if x in Printed(t.zero, ZeroSide(p)) then t.zero else t.one, level - 1, side, x);
      HalfOneHot(b);
      LessIsAtMost(Half(b), b);
      AgreeWeaken(x, Aligned(side, level - 1), Half(b), b);
      SideAgrees(q, b);
      AgreeTransitive(x, Aligned(side, level - 1), q, b);
    }
  }

  lemma {:induction false} PrintedSorted(t: Trie, level: bv32, p: bv32)
    requires level <= MAX_LEVEL && Full(t, level)
    ensures Sorted(Printed(t, p))
    decreases t
  {
    hide Agree, BitAt, Aligned, Clear, Put, Half, OneHot, Less, AtMost, ZeroSide, OneSide;
    BitBelow(level);
    match t
    case Nil =>
    case Leaf(zeros, ones) =>
      LeafAligned(p);
      RadixTree.LeafSorted(Aligned(p, 0), zeros, ones);
    case Inner(zero, one) =>
      PrintedSorted(zero, level - 1, ZeroSide(p));
      PrintedSorted(one, level - 1, OneSide(p));
      var z, o := Printed(zero, ZeroSide(p)), Printed(one, OneSide(p));
      forall i, j | 0 <= i < |z| && 0 <= j < |o| ensures AtMost(z[i], o[j]) {
        PrintedAgrees(zero, level - 1, ZeroSide(p), z[i]);
        PrintedAgrees(one, level - 1, OneSide(p), o[j]);
        AlignedZero(p, level);
        AlignedOne(p, level);
        SidesOrdered(Aligned(p, level), BitAt(level), z[i], o[j]);
        LessIsAtMost(z[i], o[j]);
      }
      SortedBoth(z, o);
  }

  lemma SortedBoth(z: seq<Word>, o: seq<Word>)
    requires Sorted(z) && Sorted(o) && forall i, j :: 0 <= i < |z| && 0 <= j < |o| ==> AtMost(z[i], o[j])
    ensures Sorted(z + o)
  {
    hide AtMost;
  }

  /** Adding a number with its sign clear adds it to the sorted list that is printed. */
  lemma AddIsQueueAdd(t: Trie, n: Word)
    requires Full(t, MAX_LEVEL) && !Has(n, SIGN)
    ensures Full(Add(t, MAX_LEVEL, n), MAX_LEVEL)
    ensures Printed(Add(t, MAX_LEVEL, n), 0) == AddTo(Printed(t, 0), n)
  {
    hide Has, Agree, Full;
    AddFull(t, MAX_LEVEL, n);
    SignClear(n);
    assert Aligned(0, MAX_LEVEL) == ZERO && BitAt(MAX_LEVEL) == TOP;
    AddPrinted(t, MAX_LEVEL, n, 0);
    PrintedSorted(t, MAX_LEVEL, 0);
    PrintedSorted(Add(t, MAX_LEVEL, n), MAX_LEVEL, 0);
    AddToUnique(Printed(t, 0), n, Printed(Add(t, MAX_LEVEL, n), 0));
  }

  /** The trie after a sequence of adds. */
  function AddAll(ns: seq<Word>): (t: Trie)
    ensures Full(t, MAX_LEVEL)
  {
    if ns == [] then Nil
    else
      AddFull(AddAll(ns[..|ns| - 1]), MAX_LEVEL, ns[|ns| - 1]);
      Add(AddAll(ns[..|ns| - 1]), MAX_LEVEL, ns[|ns| - 1])
  }

  /** What is printed after a sequence of adds is that sequence sorted. */
  lemma {:induction false} AllPrinted(ns: seq<Word>)
    requires forall n :: n in ns ==> !Has(n, SIGN)
    ensures Sorted(Printed(AddAll(ns), 0)) && multiset(Printed(AddAll(ns), 0)) == multiset(ns)
  {
    hide Has, Full, Printed, Add, AddTo;
    PrintedSorted(AddAll(ns), MAX_LEVEL, 0);
    if ns == [] {
      NilPrinted();
    } else {
      var k := |ns| - 1;
      AllPrinted(ns[..k]);
      AddIsQueueAdd(AddAll(ns[..k]), ns[k]);
      AddToContents(Printed(AddAll(ns[..k]), 0), ns[k]);
      assert ns == ns[..k] + [ns[k]];
    }
  }

  // ----- Numbers with the highest bit set

  /** What 31 levels can hold of a number. */
  function Low(n: Word): Word { Clear(n, SIGN) }

  lemma LowIs(n: Word)
    ensures Low(n).bits == n.bits & 0x7fff_ffff
  {}

  function LowAll(ns: seq<Word>): (r: seq<Word>)
    ensures |r| == |ns| && forall i :: 0 <= i < |ns| ==> r[i] == Low(ns[i])
  {
    seq(|ns|, i requires 0 <= i < |ns| => Low(ns[i]))
  }

  lemma LowBit(n: Word, level: bv32)
    requires level <= MAX_LEVEL
    ensures Has(Low(n), BitAt(level)) <==> Has(n, BitAt(level))
  {
    hide *;
    BitNotSign(level);
    LowHas(n, BitAt(level));
  }

  lemma BitNotSign(level: bv32)
    requires level <= MAX_LEVEL
    ensures And(BitAt(level), SIGN) == ZERO
  {}

  lemma LowHas(n: Word, b: Word)
    requires And(b, SIGN) == ZERO
    ensures Has(Low(n), b) <==> Has(n, b)
  {
    hide *;
    if Has(n, b) { HasInLow(n, b); } else if Has(Low(n), b) { LowHasLess(n, b); }
  }

  lemma HasInLow(n: Word, b: Word)
    requires And(b, SIGN) == ZERO && Has(n, b)
    ensures Has(Low(n), b)
  {}

  lemma LowHasLess(n: Word, b: Word)
    requires Has(Low(n), b)
    ensures Has(n, b)
  {}

  lemma LowClear(n: Word)
    ensures !Has(Low(n), SIGN) && (!Has(n, SIGN) ==> Low(n) == n)
  {}

  lemma {:induction false} AddLow(t: Trie, level: bv32, n: Word)
    requires level <= MAX_LEVEL && Full(t, level)
    ensures Add(t, level, n) == Add(t, level, Low(n))
    decreases level
  {
    hide Has, BitAt, Low;
    LowBit(n, level);
    if level == 0 {
      BitBelow(0);
    } else {
      var node := if t.Nil? then Inner(Nil, Nil) else t;
      AddLow(if Has(n, BitAt(level)) then node.one else node.zero, level - 1, n);
    }
  }

  lemma {:induction false} AddAllLow(ns: seq<Word>)
    ensures AddAll(LowAll(ns)) == AddAll(ns)
  {
    hide Low, Add, Full;
    if ns != [] {
      var k := |ns| - 1;
      AddAllLow(ns[..k]);
      assert LowAll(ns)[..k] == LowAll(ns[..k]);
      AddLow(AddAll(ns[..k]), MAX_LEVEL, ns[k]);
    }
  }

  /** The trie sorts what it can hold of the numbers, their lower 31 bits. */
  lemma LowPrinted(ns: seq<Word>)
    ensures Sorted(Printed(AddAll(ns), 0)) && multiset(Printed(AddAll(ns), 0)) == multiset(LowAll(ns))
  {
    hide Low, Printed, AddAll, Has;
    AddAllLow(ns);
    forall n | n in LowAll(ns) ensures !Has(n, SIGN) {
      var i :| 0 <= i < |ns| && LowAll(ns)[i] == n;
      LowClear(ns[i]);
    }
    AllPrinted(LowAll(ns));
  }

  /** These are the numbers themselves exactly when none has its highest bit set. */
  lemma LowIsSame(ns: seq<Word>)
    ensures multiset(LowAll(ns)) == multiset(ns) <==> forall n :: n in ns ==> !Has(n, SIGN)
  {
    hide Low, Has;
    if forall n :: n in ns ==> !Has(n, SIGN) {
      forall i | 0 <= i < |ns| ensures LowAll(ns)[i] == ns[i] { LowClear(ns[i]); }
      assert LowAll(ns) == ns;
    } else {
      var n :| n in ns && Has(n, SIGN);
      if n in LowAll(ns) {
        var i :| 0 <= i < |ns| && LowAll(ns)[i] == n;
        LowClear(ns[i]);
      }
      assert n in multiset(ns) && n !in multiset(LowAll(ns));
    }
  }

  // ----- The compressed tree

  /** Compressed trees before and after each of the same adds, with any addresses for their nodes. */
  ghost predicate History(ns: seq<Word>, trees: seq<RadixTree.Tree>) {
    && |trees| == |ns| + 1 && trees[0] == RadixTree.Nil
    && forall k :: 0 <= k < |ns| ==> RadixTree.Inserted(trees[k], trees[k + 1], ns[k])
  }

  /** After every sequence of adds, compressed tree and plain trie enumerate the same list. */
  lemma {:induction false} SameEnumeration(ns: seq<Word>, trees: seq<RadixTree.Tree>, k: nat)
    requires History(ns, trees) && k <= |ns| && forall i :: 0 <= i < |ns| ==> !Has(ns[i], SIGN)
    ensures RadixTree.Inv(trees[k])
    ensures RadixTree.InOrder(trees[k]) == Printed(AddAll(ns[..k]), 0)
  {
    hide Has, RadixTree.Meets, Full, OneHot, Printed;
    if k == 0 {
      NilPrinted();
    } else {
      SameEnumeration(ns, trees, k - 1);
      assert ns[..k][..k - 1] == ns[..k - 1];
      assert RadixTree.Inserted(trees[k - 1], trees[k - 1 + 1], ns[k - 1]);
      InsertedIsQueueAdd(trees[k - 1], trees[k], ns[k - 1]);
      AddIsQueueAdd(AddAll(ns[..k - 1]), ns[k - 1]);
    }
  }

  lemma NilPrinted()
    ensures Printed(Nil, 0) == []
  {}

  lemma InsertedIsQueueAdd(u: RadixTree.Tree, t: RadixTree.Tree, n: Word)
    requires RadixTree.Inserted(u, t, n)
    ensures RadixTree.Inv(t) && RadixTree.InOrder(t) == AddTo(RadixTree.InOrder(u), n)
  {
    hide RadixTree.Inv, RadixTree.Under, OneHot;
    var l, i :| t == RadixTree.Insert(u, TOP, n, l, i);
    MeetsInv(u, TOP, n);
    RadixTree.InsertInv(u, TOP, n, l, i);
    RadixTree.InsertContents(u, TOP, n, l, i);
    RadixTree.InOrderSorted(u);
    RadixTree.InOrderSorted(t);
    AddToUnique(RadixTree.InOrder(u), n, RadixTree.InOrder(t));
  }

  lemma MeetsInv(t: RadixTree.Tree, b: Word, n: Word)
    requires RadixTree.Meets(t, b, n)
    ensures RadixTree.Inv(t)
  {}
}
