/**
 * The path-compressed radix tree of A6/radix.c as a value: its invariant, what adding and
 * taking do to it, and why both act on the sorted list of its numbers.
 */
module RadixTree {
  import opened Arithmetic
  import opened Words
  import opened Ordering

  /** Every node carries the address it is stored at; module RadixProgram ties it to memory. */
  datatype Tree =
    | Nil
    | Leaf(addr: int, number: Word, zeros: nat, ones: nat)
    | Inner(addr: int, bit: Word, number: Word, zero: Tree, one: Tree)

  // ----- What a tree stands for

  function Repeat(x: Word, count: nat): (s: seq<Word>)
    ensures |s| == count && forall i :: 0 <= i < count ==> s[i] == x
  {
    seq(count, _ => x)
  }

  /** The numbers in the tree, from the zero side to the one side. */
  function InOrder(t: Tree): seq<Word> {
    match t
    case Nil => []
    case Leaf(_, n, zeros, ones) => Repeat(Clear(n, ONE), zeros) + Repeat(Put(n, ONE), ones)
    case Inner(_, _, _, zero, one) => InOrder(zero) + InOrder(one)
  }

  function Addrs(t: Tree): set<int> {
    match t
    case Nil => {}
    case Leaf(a, _, _, _) => {a}
    case Inner(a, _, _, zero, one) => {a} + Addrs(zero) + Addrs(one)
  }

  // ----- The invariant

  function MaxBit(t: Tree): Word {
    match t
    case Nil => ZERO
    case Leaf(_, _, _, _) => ONE
    case Inner(_, bit, _, _, _) => bit
  }

  /** All leaf numbers agree with n above position b. */
  predicate Under(t: Tree, n: Word, b: Word) {
    match t
    case Nil => true
    case Leaf(_, m, _, _) => Agree(m, n, b)
    case Inner(_, _, _, zero, one) => Under(zero, n, b) && Under(one, n, b)
  }

  /**
   * No leaf is empty and no inner node childless; positions are one-hot and fall along every
   * path; below an inner node all numbers agree with its number above its bit, and the bit
   * itself decides the side.
   */
  predicate Inv(t: Tree) {
    match t
    case Nil => true
    case Leaf(_, n, zeros, ones) => zeros + ones > 0
    case Inner(_, bit, n, zero, one) =>
      && OneHot(bit) && Less(ONE, bit) && AtMost(bit, TOP)
      && !(zero.Nil? && one.Nil?)
      && Less(MaxBit(zero), bit) && Less(MaxBit(one), bit)
      && Under(zero, Clear(n, bit), Half(bit)) && Under(one, Put(n, bit), Half(bit))
      && Inv(zero) && Inv(one)
  }

  /** No two nodes share an address and none is at the null address. */
  predicate NoAlias(t: Tree) {
    match t
    case Nil => true
    case Leaf(a, _, _, _) => a != 0
    case Inner(a, _, _, zero, one) =>
      && a != 0 && a !in Addrs(zero) && a !in Addrs(one)
      && Addrs(zero) !! Addrs(one)
      && NoAlias(zero) && NoAlias(one)
  }

  /** A whole tree: the invariant, and no number has its sign bit set. */
  predicate Valid(t: Tree) {
    Inv(t) && Under(t, ZERO, TOP) && NoAlias(t)
  }

  lemma MaxBitOneHot(t: Tree)
    requires Inv(t) && !t.Nil?
    ensures OneHot(MaxBit(t)) && AtMost(ONE, MaxBit(t)) && AtMost(MaxBit(t), TOP)
  {
    OneIsOneHot();
  }

  // ----- Agreement below a node

  /** A number the tree holds (up to its lowest bit): a witness that it is not empty. */
  function SomeNumber(t: Tree): Word
    requires !t.Nil? && Inv(t)
  {
    match t
    case Leaf(_, n, _, _) => n
    case Inner(_, _, _, zero, one) => if zero.Nil? then SomeNumber(one) else SomeNumber(zero)
  }

  lemma {:induction false} SomeNumberUnder(t: Tree, n: Word, b: Word)
    requires !t.Nil? && Inv(t) && Under(t, n, b)
    ensures Agree(SomeNumber(t), n, b)
  {
    hide Agree, OneHot, Clear, Put, Half;
    match t
    case Leaf(_, _, _, _) =>
    case Inner(_, _, _, zero, one) => SomeNumberUnder(if zero.Nil? then one else zero, n, b);
  }

  /** A constraint on a subtree carries over to any weaker position and agreeing number. */
  lemma {:induction false} UnderShift(t: Tree, m: Word, low: Word, n: Word, high: Word)
    requires OneHot(low) && OneHot(high) && AtMost(low, high)
    requires Under(t, m, low) && Agree(m, n, high)
    ensures Under(t, n, high)
  {
    hide Agree, OneHot;
    match t
    case Nil =>
    case Leaf(_, k, _, _) => AgreeWeaken(k, m, low, high); AgreeTransitive(k, m, n, high);
    case Inner(_, _, _, zero, one) =>
      UnderShift(zero, m, low, n, high);
      UnderShift(one, m, low, n, high);
  }

  /** All numbers below a node agree with the node's own number above its bit. */
  lemma UnderSelf(t: Tree)
    requires Inv(t) && !t.Nil?
    ensures Under(t, t.number, MaxBit(t))
  {
    hide Agree, OneHot, Clear, Put, Half;
    match t
    case Leaf(_, n, _, _) => OneIsOneHot(); LowBitOfSelf(n, ONE);
    case Inner(_, bit, n, zero, one) =>
      HalfOneHot(bit);
      SideAgrees(n, bit);
      UnderShift(zero, Clear(n, bit), Half(bit), n, bit);
      UnderShift(one, Put(n, bit), Half(bit), n, bit);
  }

  lemma {:induction false} InOrderUnder(t: Tree, n: Word, b: Word, x: Word)
    requires OneHot(b) && Under(t, n, b) && x in InOrder(t)
    ensures Agree(x, n, b)
  {
    hide Agree, OneHot, Clear, Put;
    match t
    case Leaf(_, m, zeros, ones) => LowBitIgnored(m, n, b);
    case Inner(_, _, _, zero, one) =>
      if x in InOrder(zero) { InOrderUnder(zero, n, b, x); } else { InOrderUnder(one, n, b, x); }
  }

  // ----- Sorted enumeration

  lemma LeafSorted(n: Word, zeros: nat, ones: nat)
    ensures Sorted(Repeat(Clear(n, ONE), zeros) + Repeat(Put(n, ONE), ones))
  {
    hide Clear, Put, Less, AtMost;
    LowBitOrders(n);
    LessIsAtMost(Clear(n, ONE), Put(n, ONE));
    AtMostSelf(Clear(n, ONE));
    AtMostSelf(Put(n, ONE));
  }

  /** The branch bits put every number of the zero side before every number of the one side. */
  lemma {:induction false} InOrderSorted(t: Tree)
    requires Inv(t)
    ensures Sorted(InOrder(t))
  {
    hide Agree, OneHot, Clear, Put, Half, Less, AtMost;
    match t
    case Nil =>
    case Leaf(_, n, zeros, ones) => LeafSorted(n, zeros, ones);
    case Inner(_, bit, n, zero, one) =>
      InOrderSorted(zero);
      InOrderSorted(one);
      HalfOneHot(bit);
      var s, z, o := InOrder(t), InOrder(zero), InOrder(one);
      forall i, j | 0 <= i < j < |s| ensures AtMost(s[i], s[j]) {
        if i < |z| <= j {
          assert s[i] == z[i] && s[j] == o[j - |z|];
          InOrderUnder(zero, Clear(n, bit), Half(bit), s[i]);
          InOrderUnder(one, Put(n, bit), Half(bit), s[j]);
          SidesOrdered(n, bit, s[i], s[j]);
          LessIsAtMost(s[i], s[j]);
        } else if j < |z| {
          assert s[i] == z[i] && s[j] == z[j];
        } else {
          assert s[i] == o[i - |z|] && s[j] == o[j - |z|];
        }
      }
  }

  lemma {:induction false} InOrderEmpty(t: Tree)
    requires Inv(t)
    ensures t.Nil? <==> InOrder(t) == []
  {
    hide Agree, OneHot, Clear, Put, Half;
    match t
    case Nil =>
    case Leaf(_, _, _, _) =>
    case Inner(_, _, _, zero, one) => InOrderEmpty(zero); InOrderEmpty(one);
  }

  // ----- Adding a number

  function NewLeaf(addr: int, n: Word): Tree {
    Leaf(addr, n, if Has(n, ONE) then 0 else 1, if Has(n, ONE) then 1 else 0)
  }

  /** A node that splits a new leaf from an existing subtree at position d. */
  function Split(addr: int, d: Word, n: Word, leaf: Tree, t: Tree): Tree {
    if Has(n, d) then Inner(addr, d, n, t, leaf) else Inner(addr, d, n, leaf, t)
  }

  /** What is left to compare when a search at position b meets node t. */
  function Mismatch(t: Tree, b: Word, n: Word): Word
    requires !t.Nil?
  {
    if Less(MaxBit(t), b) then Difference(n, t.number, b, MaxBit(t)) else ZERO
  }

  lemma MismatchNoneAbove(t: Tree, b: Word, n: Word)
    requires !t.Nil? && Meets(t, b, n) && Mismatch(t, b, n) != ZERO
    ensures Less(MaxBit(t), b) && NoneAbove(Mismatch(t, b, n), b)
  {
    hide OneHot, NoneAbove, Difference;
    MaxBitOneHot(t);
    DifferenceNoneAbove(n, t.number, b, MaxBit(t));
  }

  /** A search for n at position b can meet t: they agree above b, and t branches no higher. */
  predicate Meets(t: Tree, b: Word, n: Word) {
    Inv(t) && OneHot(b) && AtMost(MaxBit(t), b) && AtMost(b, TOP) && Under(t, n, b)
  }

  /** Adding n below a node that n meets at position b, with the addresses to use for new nodes. */
  function Insert(t: Tree, b: Word, n: Word, leafAddr: int, innerAddr: int): Tree
    requires Meets(t, b, n)
    decreases t
  {
    if t.Nil? then
      NewLeaf(leafAddr, n)
    else if Mismatch(t, b, n) != ZERO then
      MismatchNoneAbove(t, b, n);
      Split(innerAddr, TopDifference(b, Mismatch(t, b, n)), n, NewLeaf(leafAddr, n), t)
    else if t.Leaf? then
      if Has(n, ONE) then t.(ones := t.ones + 1) else t.(zeros := t.zeros + 1)
    else
      MeetsChild(t, b, n);
      if Has(n, t.bit) then
        t.(one := Insert(t.one, Half(t.bit), n, leafAddr, innerAddr))
      else
        t.(zero := Insert(t.zero, Half(t.bit), n, leafAddr, innerAddr))
  }

  /** With no mismatch left, n agrees with the node down to the node's own bit. */
  lemma NoMismatchAgrees(t: Tree, b: Word, n: Word)
    requires !t.Nil? && Meets(t, b, n) && Mismatch(t, b, n) == ZERO
    ensures Agree(n, t.number, MaxBit(t))
  {
    hide Agree, OneHot, Difference, Clear, Put, Half;
    MaxBitOneHot(t);
    NodeAgrees(t, b, n);
    if Less(MaxBit(t), b) {
      AgreeExtend(n, t.number, b, MaxBit(t));
    } else {
      assert MaxBit(t) == b;
    }
  }

  /** Above b the node's number is that of everything below it, so it agrees with n as well. */
  lemma NodeAgrees(t: Tree, b: Word, n: Word)
    requires !t.Nil? && Meets(t, b, n)
    ensures Agree(n, t.number, b)
  {
    hide Agree, OneHot, Clear, Put, Half;
    MaxBitOneHot(t);
    UnderSelf(t);
    var k := SomeNumber(t);
    SomeNumberUnder(t, n, b);
    SomeNumberUnder(t, t.number, MaxBit(t));
    AgreeWeaken(k, t.number, MaxBit(t), b);
    AgreeSymmetric(k, n, b);
    AgreeTransitive(n, k, t.number, b);
  }

  lemma MeetsChild(t: Tree, b: Word, n: Word)
    requires t.Inner? && Meets(t, b, n) && Mismatch(t, b, n) == ZERO
    ensures Has(n, t.bit) ==> Meets(t.one, Half(t.bit), n) && Agree(n, Put(t.number, t.bit), Half(t.bit))
    ensures !Has(n, t.bit) ==> Meets(t.zero, Half(t.bit), n) && Agree(n, Clear(t.number, t.bit), Half(t.bit))
  {
    hide Agree, OneHot, Difference, Has, Clear, Put, Half;
    NoMismatchAgrees(t, b, n);
    var h := Half(t.bit);
    HalfOneHot(t.bit);
    AgreeBelow(n, t.number, t.bit);
    var child, side := if Has(n, t.bit) then t.one else t.zero,
                       if Has(n, t.bit) then Put(t.number, t.bit) else Clear(t.number, t.bit);
    AgreeSymmetric(n, side, h);
    UnderShift(child, side, h, n, h);
    if !child.Nil? {
      MaxBitOneHot(child);
      BelowIsHalf(MaxBit(child), t.bit);
    }
  }

  /** Adding n keeps every constraint that n itself satisfies. */
  lemma {:induction false} InsertUnder(t: Tree, b: Word, n: Word, leafAddr: int, innerAddr: int, m: Word, c: Word)
    requires Meets(t, b, n) && Under(t, m, c) && Agree(n, m, c)
    ensures Under(Insert(t, b, n, leafAddr, innerAddr), m, c)
  {
    hide Agree, OneHot, Difference, Has, Clear, Put, Half, NoneAbove, Less, AtMost;
    if t.Inner? && Mismatch(t, b, n) == ZERO {
      MeetsChild(t, b, n);
      var child := if Has(n, t.bit) then t.one else t.zero;
      InsertUnder(child, Half(t.bit), n, leafAddr, innerAddr, m, c);
    } else if !t.Nil? && Mismatch(t, b, n) != ZERO {
      MismatchNoneAbove(t, b, n);
    }
  }

  /** The injected node: n and the old subtree part ways exactly at the top difference. */
  lemma BranchInv(t: Tree, b: Word, n: Word, leaf: Tree, innerAddr: int)
    requires !t.Nil? && Meets(t, b, n) && Mismatch(t, b, n) != ZERO
    requires leaf.Nil? || exists a :: leaf == NewLeaf(a, n)
    ensures Less(MaxBit(t), b) && NoneAbove(Mismatch(t, b, n), b)
    ensures var d := TopDifference(b, Mismatch(t, b, n)); var r := Split(innerAddr, d, n, leaf, t);
      Inv(r) && Under(t, n, d) && OneHot(d) && Less(ONE, d) && AtMost(d, b) && AtMost(d, TOP)
  {
    hide Agree, OneHot, Difference, Has, Clear, Put, Half, NoneAbove, Less, AtMost;
    var c, diff := MaxBit(t), Mismatch(t, b, n);
    MaxBitOneHot(t);
    NodeAgrees(t, b, n);
    MismatchNoneAbove(t, b, n);
    var d := TopDifference(b, diff);
    TopDifferenceFound(b, diff);
    SearchStops(n, t.number, b, c, d);
    SearchStopsAgree(n, t.number, b, c, d);
    AtMostTop(d, b);
    AgreeSymmetric(n, t.number, d);
    LowBitOfSelf(n, d);
    BelowIsHalf(c, d);
    HalfOneHot(d);
    AgreeBelow(n, n, d);
    AgreeBelow(t.number, n, d);
    UnderSelf(t);
    UnderShift(t, t.number, c, if Has(n, d) then Clear(n, d) else Put(n, d), Half(d));
    LessIsAtMost(c, d);
    UnderShift(t, t.number, c, n, d);
    OneHotPositive(d);
  }

  lemma SplitInv(t: Tree, b: Word, n: Word, leafAddr: int, innerAddr: int)
    requires !t.Nil? && Meets(t, b, n) && Mismatch(t, b, n) != ZERO
    ensures Inv(Insert(t, b, n, leafAddr, innerAddr)) && AtMost(MaxBit(Insert(t, b, n, leafAddr, innerAddr)), b)
  {
    hide Meets, Inv, Mismatch, NewLeaf;
    BranchInv(t, b, n, NewLeaf(leafAddr, n), innerAddr);
  }

  lemma BranchBelow(t: Tree, bit: Word)
    requires Inv(t) && !t.Nil? && OneHot(bit) && Less(ONE, bit) && AtMost(MaxBit(t), Half(bit))
    ensures Less(MaxBit(t), bit)
  {
    hide Agree, OneHot, Half, Less, AtMost;
    MaxBitOneHot(t);
    AtMostHalf(MaxBit(t), bit);
  }

  lemma {:induction false} InsertInv(t: Tree, b: Word, n: Word, leafAddr: int, innerAddr: int)
    requires Meets(t, b, n)
    ensures var r := Insert(t, b, n, leafAddr, innerAddr); Inv(r) && !r.Nil? && AtMost(MaxBit(r), b)
  {
    hide Agree, OneHot, Difference, Has, Clear, Put, Half, NoneAbove, Less, AtMost;
    if t.Nil? {
      OneHotPositive(b);
    } else if Mismatch(t, b, n) != ZERO {
      SplitInv(t, b, n, leafAddr, innerAddr);
    } else if t.Inner? {
      MeetsChild(t, b, n);
      HalfOneHot(t.bit);
      var child, side := if Has(n, t.bit) then t.one else t.zero,
                         if Has(n, t.bit) then Put(t.number, t.bit) else Clear(t.number, t.bit);
      InsertInv(child, Half(t.bit), n, leafAddr, innerAddr);
      BranchBelow(Insert(child, Half(t.bit), n, leafAddr, innerAddr), t.bit);
      InsertUnder(child, Half(t.bit), n, leafAddr, innerAddr, side, Half(t.bit));
    }
  }

  // ----- Going round once more

  /**
   * Adding in the form the comments of A6/radix.c describe: the injected node has nothing on the side
   * of n, and the search goes on at that node, where it finds the empty side and puts a leaf there.
   */
  function InsertAgain(t: Tree, b: Word, n: Word, leafAddr: int, innerAddr: int): Tree
    requires Meets(t, b, n)
    decreases b.bits, if t.Nil? || Mismatch(t, b, n) == ZERO then 0 else 1
  {
    if t.Nil? then
      NewLeaf(leafAddr, n)
    else if Mismatch(t, b, n) != ZERO then
      MismatchNoneAbove(t, b, n);
      EmptySideMeets(t, b, n, innerAddr);
      var d := TopDifference(b, Mismatch(t, b, n));
      AtMostBits(d, b);
      InsertAgain(Split(innerAddr, d, n, Nil, t), d, n, leafAddr, innerAddr)
    else if t.Leaf? then
      if Has(n, ONE) then t.(ones := t.ones + 1) else t.(zeros := t.zeros + 1)
    else
      MeetsChild(t, b, n);
      HalfShrinks(t, b, n);
      if Has(n, t.bit) then
        t.(one := InsertAgain(t.one, Half(t.bit), n, leafAddr, innerAddr))
      else
        t.(zero := InsertAgain(t.zero, Half(t.bit), n, leafAddr, innerAddr))
  }

  lemma HalfShrinks(t: Tree, b: Word, n: Word)
    requires t.Inner? && Meets(t, b, n)
    ensures Half(t.bit).bits < b.bits
  {
    hide Agree, Difference, Has, Clear, Put, NoneAbove, Under, Half;
    HalfOneHot(t.bit);
    hide OneHot;
  }

  /** The search meets the injected node at its own position and takes its empty side. */
  lemma EmptySideMeets(t: Tree, b: Word, n: Word, innerAddr: int)
    requires !t.Nil? && Meets(t, b, n) && Mismatch(t, b, n) != ZERO
    ensures Less(MaxBit(t), b) && NoneAbove(Mismatch(t, b, n), b)
    ensures var d := TopDifference(b, Mismatch(t, b, n)); var r := Split(innerAddr, d, n, Nil, t);
      Meets(r, d, n) && Mismatch(r, d, n) == ZERO && AtMost(d, b)
  {
    hide Agree, Difference, Has, Clear, Put, Half, NoneAbove, OneHot, Inv, Less, AtMost;
    BranchInv(t, b, n, Nil, innerAddr);
    var d := TopDifference(b, Mismatch(t, b, n));
    AtMostSelf(d);
    assert Under(Split(innerAddr, d, n, Nil, t), n, d);
  }

  lemma AtMostBits(x: Word, y: Word)
    requires AtMost(x, y)
    ensures x.bits <= y.bits
  {}

  /** The early return builds the same tree as going round once more. */
  lemma {:induction false} EarlyReturnSame(t: Tree, b: Word, n: Word, leafAddr: int, innerAddr: int)
    requires Meets(t, b, n)
    ensures InsertAgain(t, b, n, leafAddr, innerAddr) == Insert(t, b, n, leafAddr, innerAddr)
    decreases t
  {
    hide Agree, OneHot, Difference, Has, Clear, Put, Half, NoneAbove, Less, AtMost, Inv, Under;
    if !t.Nil? {
      if Mismatch(t, b, n) != ZERO {
        EmptySideMeets(t, b, n, innerAddr);
        MismatchNoneAbove(t, b, n);
        EmptySideFilled(t, b, n, leafAddr, innerAddr);
      } else if t.Inner? {
        MeetsChild(t, b, n);
        EarlyReturnSame(if Has(n, t.bit) then t.one else t.zero, Half(t.bit), n, leafAddr, innerAddr);
      }
    }
  }

  lemma EmptySideFilled(t: Tree, b: Word, n: Word, leafAddr: int, innerAddr: int)
    requires !t.Nil? && Meets(t, b, n) && Mismatch(t, b, n) != ZERO
    ensures Less(MaxBit(t), b) && NoneAbove(Mismatch(t, b, n), b)
    ensures var d := TopDifference(b, Mismatch(t, b, n)); var r := Split(innerAddr, d, n, Nil, t);
      Meets(r, d, n) && InsertAgain(r, d, n, leafAddr, innerAddr) == Split(innerAddr, d, n, NewLeaf(leafAddr, n), t)
  {
    hide Agree, OneHot, Difference, Has, Clear, Put, Half, NoneAbove, Less, AtMost, Inv, Under, Mismatch;
    EmptySideMeets(t, b, n, innerAddr);
    var d := TopDifference(b, Mismatch(t, b, n));
    var r := Split(innerAddr, d, n, Nil, t);
    MeetsChild(r, d, n);
    assert InsertAgain(Nil, Half(d), n, leafAddr, innerAddr) == NewLeaf(leafAddr, n);
  }

  function Contents(t: Tree): multiset<Word> {
    multiset(InOrder(t))
  }

  lemma InnerContents(t: Tree)
    requires t.Inner?
    ensures Contents(t) == Contents(t.zero) + Contents(t.one)
  {}

  /** Exactly one occurrence of n is added and nothing else changes. */
  lemma {:induction false} InsertContents(t: Tree, b: Word, n: Word, leafAddr: int, innerAddr: int)
    requires Meets(t, b, n)
    ensures Contents(Insert(t, b, n, leafAddr, innerAddr)) == Contents(t) + multiset{n}
  {
    hide Meets, Inv, Under, Difference, Has, Half, NoneAbove, OneHot, Contents, Agree;
    var r := Insert(t, b, n, leafAddr, innerAddr);
    if t.Nil? {
      NewLeafContents(leafAddr, n);
      NilContents();
    } else if Mismatch(t, b, n) != ZERO {
      MismatchNoneAbove(t, b, n);
      NewLeafContents(leafAddr, n);
      InnerContents(r);
    } else if t.Inner? {
      MeetsChild(t, b, n);
      InnerContents(t);
      InnerContents(r);
      InsertContents(if Has(n, t.bit) then t.one else t.zero, Half(t.bit), n, leafAddr, innerAddr);
    } else {
      NoMismatchAgrees(t, b, n);
      LeafContents(t, n);
    }
  }

  lemma NilContents()
    ensures Contents(Nil) == multiset{}
  {}

  lemma LeafContents(t: Tree, n: Word)
    requires t.Leaf? && Agree(n, t.number, ONE)
    ensures var r := if Has(n, ONE) then t.(ones := t.ones + 1) else t.(zeros := t.zeros + 1);
      Contents(r) == Contents(t) + multiset{n}
  {
    hide Agree, Has, Clear, Put;
    AgreeSymmetric(n, t.number, ONE);
    LowBitDecides(t.number, n);
    var z, o := Repeat(Clear(t.number, ONE), t.zeros), Repeat(Put(t.number, ONE), t.ones);
    if Has(n, ONE) {
      assert Repeat(Put(t.number, ONE), t.ones + 1) == o + [n];
    } else {
      assert Repeat(Clear(t.number, ONE), t.zeros + 1) == z + [n];
    }
  }

  lemma NewLeafContents(addr: int, n: Word)
    ensures InOrder(NewLeaf(addr, n)) == [n] && Contents(NewLeaf(addr, n)) == multiset{n}
  {
    hide Agree, Has, Clear, Put;
    OneIsOneHot();
    LowBitOfSelf(n, ONE);
    LowBitDecides(n, n);
  }

  /** t' is t with n added, whatever addresses its new nodes have. */
  ghost predicate Inserted(t: Tree, t': Tree, n: Word) {
    Meets(t, TOP, n) && exists l, i :: t' == Insert(t, TOP, n, l, i)
  }

  // ----- Taking the smallest numbers

  /** Removing k numbers from the front, dropping leaves and inner nodes that become empty. */
  function Remove(t: Tree, k: nat): Tree {
    match t
    case Nil => Nil
    case Leaf(a, n, zeros, ones) =>
      if k < zeros then Leaf(a, n, zeros - k, ones)
      else if k < zeros + ones then Leaf(a, n, 0, ones - (k - zeros))
      else Nil
    case Inner(a, bit, n, zero, one) =>
      var zero' := Remove(zero, k);
      var one' := Remove(one, k - Min(k, |InOrder(zero)|));
      if zero'.Nil? && one'.Nil? then Nil else Inner(a, bit, n, zero', one')
  }

  lemma RemoveLeafInOrder(t: Tree, k: nat)
    requires t.Leaf?
    ensures InOrder(Remove(t, k)) == InOrder(t)[Min(k, |InOrder(t)|)..]
  {
    hide Clear, Put;
    var z, o := Repeat(Clear(t.number, ONE), t.zeros), Repeat(Put(t.number, ONE), t.ones);
    if k < t.zeros {
      assert (z + o)[k..] == z[k..] + o;
      assert z[k..] == Repeat(Clear(t.number, ONE), t.zeros - k);
    } else if k < t.zeros + t.ones {
      assert (z + o)[k..] == o[k - t.zeros..];
      assert o[k - t.zeros..] == Repeat(Put(t.number, ONE), t.ones - (k - t.zeros));
    }
  }

  lemma DropFromBoth(z: seq<Word>, o: seq<Word>, k: nat)
    ensures (z + o)[Min(k, |z + o|)..] == z[Min(k, |z|)..] + o[Min(k - Min(k, |z|), |o|)..]
  {}

  lemma RemoveInnerInOrder(t: Tree, k: nat)
    requires t.Inner?
    ensures InOrder(t) == InOrder(t.zero) + InOrder(t.one)
    ensures InOrder(Remove(t, k)) ==
            InOrder(Remove(t.zero, k)) + InOrder(Remove(t.one, k - Min(k, |InOrder(t.zero)|)))
  {
    hide Clear, Put;
  }

  /** Exactly the first k numbers go; what stays is the rest, in the same order. */
  lemma {:induction false} RemoveInOrder(t: Tree, k: nat)
    ensures InOrder(Remove(t, k)) == InOrder(t)[Min(k, |InOrder(t)|)..]
  {
    match t
    case Nil =>
    case Leaf(_, _, _, _) => RemoveLeafInOrder(t, k);
    case Inner(_, _, _, zero, one) =>
      hide Remove, InOrder, Clear, Put;
      RemoveInnerInOrder(t, k);
      RemoveInOrder(zero, k);
      RemoveInOrder(one, k - Min(k, |InOrder(zero)|));
      DropFromBoth(InOrder(zero), InOrder(one), k);
  }

  lemma {:induction false} RemoveUnder(t: Tree, k: nat, n: Word, b: Word)
    requires Under(t, n, b)
    ensures Under(Remove(t, k), n, b)
  {
    hide Agree;
    match t
    case Nil =>
    case Leaf(_, _, _, _) =>
    case Inner(a, bit, m, zero, one) =>
      RemoveUnder(zero, k, n, b);
      RemoveUnder(one, k - Min(k, |InOrder(zero)|), n, b);
  }

  lemma {:induction false} RemoveInv(t: Tree, k: nat)
    requires Inv(t)
    ensures Inv(Remove(t, k)) && (Remove(t, k).Nil? || MaxBit(Remove(t, k)) == MaxBit(t))
  {
    hide Agree, OneHot, Clear, Put, Half, Less, AtMost;
    match t
    case Nil =>
    case Leaf(_, _, _, _) =>
    case Inner(a, bit, n, zero, one) =>
      var k1 := k - Min(k, |InOrder(zero)|);
      RemoveInv(zero, k);
      RemoveInv(one, k1);
      RemoveUnder(zero, k, Clear(n, bit), Half(bit));
      RemoveUnder(one, k1, Put(n, bit), Half(bit));
      OneHotPositive(bit);
      assert Less(MaxBit(Nil), bit);
  }

  lemma {:induction false} RemoveNoAlias(t: Tree, k: nat)
    requires NoAlias(t)
    ensures NoAlias(Remove(t, k)) && Addrs(Remove(t, k)) <= Addrs(t)
  {
    match t
    case Nil =>
    case Leaf(_, _, _, _) =>
    case Inner(a, bit, n, zero, one) =>
      RemoveNoAlias(zero, k);
      RemoveNoAlias(one, k - Min(k, |InOrder(zero)|));
  }

  lemma RemoveValid(t: Tree, k: nat)
    requires Valid(t)
    ensures Valid(Remove(t, k))
  {
    RemoveInv(t, k);
    RemoveUnder(t, k, ZERO, TOP);
    RemoveNoAlias(t, k);
  }
}
