/**
 * 32-bit machine words with one-hot bit positions, and the mask arithmetic of A6/radix.c.
 * The structural proofs hide these definitions and use the lemmas below instead.
 */
module Words {
  datatype Word = Word(bits: bv32)

  const ZERO := Word(0)
  const ONE := Word(1)

  /** The largest one-hot position a tree branches on (bit 30; bit 31 is the sign). */
  const TOP := Word(0x4000_0000)

  const SIGN := Word(0x8000_0000)

  predicate Less(x: Word, y: Word) { x.bits < y.bits }

  predicate AtMost(x: Word, y: Word) { x.bits <= y.bits }

  predicate OneHot(b: Word) {
    b.bits != 0 && b.bits & (b.bits - 1) == 0
  }

  predicate Has(x: Word, b: Word) { x.bits & b.bits != 0 }

  function Clear(x: Word, b: Word): Word { Word(x.bits & !b.bits) }

  function Put(x: Word, b: Word): Word { Word(x.bits | b.bits) }

  function Half(b: Word): Word { Word(b.bits >> 1) }

  function LowerBits(b: Word): Word { Word(b.bits - 1) }

  function HigherBits(b: Word): Word { Word(0 - b.bits - b.bits) }

  function NotLowerBits(b: Word): Word { Word(!LowerBits(b).bits) }

  function NotHigherBits(b: Word): Word { Word(!HigherBits(b).bits) }

  function And(x: Word, y: Word): Word { Word(x.bits & y.bits) }

  function Xor(x: Word, y: Word): Word { Word(x.bits ^ y.bits) }

  function BitRange(high: Word, low: Word): Word {
    And(HigherBits(low), NotHigherBits(high))
  }

  /** The bits in which x and y differ at positions in (low, high]. */
  function Difference(x: Word, y: Word, high: Word, low: Word): Word {
    And(BitRange(high, low), Xor(x, y))
  }

  /** x and y have the same bits above position b. */
  predicate Agree(x: Word, y: Word, b: Word) {
    (x.bits ^ y.bits) & HigherBits(b).bits == 0
  }

  /** diff has no bit above position b. */
  predicate NoneAbove(diff: Word, b: Word) {
    diff.bits & HigherBits(b).bits == 0
  }

  /** What the subtractions and complements are for: each mask selects exactly the named positions. */
  lemma LowerBitsSelect(b: Word, k: Word)
    requires OneHot(b) && OneHot(k)
    ensures Has(LowerBits(b), k) <==> Less(k, b)
    ensures Has(NotLowerBits(b), k) <==> AtMost(b, k)
  {
    hide *;
    LowerBitsHas(b, k);
    NotLowerBitsHas(b, k);
  }

  lemma LowerBitsHas(b: Word, k: Word)
    requires OneHot(b) && OneHot(k)
    ensures Has(LowerBits(b), k) <==> Less(k, b)
  {}

  lemma NotLowerBitsHas(b: Word, k: Word)
    requires OneHot(b) && OneHot(k)
    ensures Has(NotLowerBits(b), k) <==> AtMost(b, k)
  {}

  lemma HigherBitsSelect(b: Word, k: Word)
    requires OneHot(b) && OneHot(k)
    ensures Has(HigherBits(b), k) <==> Less(b, k)
    ensures Has(NotHigherBits(b), k) <==> AtMost(k, b)
  {
    hide *;
    HigherBitsHas(b, k);
    NotHigherBitsHas(b, k);
  }

  lemma HigherBitsHas(b: Word, k: Word)
    requires OneHot(b) && OneHot(k)
    ensures Has(HigherBits(b), k) <==> Less(b, k)
  {}

  lemma NotHigherBitsHas(b: Word, k: Word)
    requires OneHot(b) && OneHot(k)
    ensures Has(NotHigherBits(b), k) <==> AtMost(k, b)
  {}

  /** The range excludes its low end and includes its high end. */
  lemma BitRangeSelects(high: Word, low: Word, k: Word)
    requires OneHot(high) && OneHot(low) && OneHot(k)
    ensures Has(BitRange(high, low), k) <==> Less(low, k) && AtMost(k, high)
  {
    hide OneHot, Less, AtMost, Has, HigherBits, NotHigherBits, And;
    HigherBitsHas(low, k);
    NotHigherBitsHas(high, k);
    HasBoth(HigherBits(low), NotHigherBits(high), k);
  }

  lemma HasBoth(x: Word, y: Word, k: Word)
    requires OneHot(k)
    ensures Has(And(x, y), k) <==> Has(x, k) && Has(y, k)
  {
    hide *;
    if Has(And(x, y), k) {
      HasOfBoth(x, y, k);
    } else if Has(x, k) && Has(y, k) {
      BothHave(x, y, k);
    }
  }

  lemma HasOfBoth(x: Word, y: Word, k: Word)
    requires Has(And(x, y), k)
    ensures Has(x, k) && Has(y, k)
  {}

  lemma BothHave(x: Word, y: Word, k: Word)
    requires OneHot(k) && Has(x, k) && Has(y, k)
    ensures Has(And(x, y), k)
  {}

  // ----- Agreement

  lemma AgreeSymmetric(x: Word, y: Word, b: Word)
    requires Agree(x, y, b)
    ensures Agree(y, x, b)
  {}

  lemma AgreeTransitive(x: Word, y: Word, z: Word, b: Word)
    requires Agree(x, y, b) && Agree(y, z, b)
    ensures Agree(x, z, b)
  {}

  lemma AgreeWeaken(x: Word, y: Word, low: Word, high: Word)
    requires OneHot(low) && OneHot(high) && AtMost(low, high)
    requires Agree(x, y, low)
    ensures Agree(x, y, high)
  {}

  /** No difference inside the range extends the agreement down to its low end. */
  lemma AgreeExtend(x: Word, y: Word, high: Word, low: Word)
    requires OneHot(high) && OneHot(low) && AtMost(low, high)
    requires Agree(x, y, high) && Difference(x, y, high, low) == ZERO
    ensures Agree(x, y, low)
  {}

  /** Fixing the bit at b fixes agreement above the next lower position. */
  lemma AgreeBelow(x: Word, n: Word, b: Word)
    requires OneHot(b) && Less(ONE, b) && Agree(x, n, b)
    ensures Has(x, b) ==> Agree(x, Put(n, b), Half(b))
    ensures !Has(x, b) ==> Agree(x, Clear(n, b), Half(b))
  {}

  /** Words that agree above a position have the same bits there. */
  lemma AgreeHas(x: Word, y: Word, low: Word, k: Word)
    requires OneHot(low) && OneHot(k) && Less(low, k) && Agree(x, y, low)
    ensures Has(x, k) <==> Has(y, k)
  {
    hide OneHot, Less, Has, HigherBits, Agree;
    HigherBitsHas(low, k);
    SameBit(x, y, low, k);
  }

  lemma SameBit(x: Word, y: Word, low: Word, k: Word)
    requires OneHot(k) && Has(HigherBits(low), k) && Agree(x, y, low)
    ensures Has(x, k) <==> Has(y, k)
  {
    hide HigherBits;
  }

  lemma SideAgrees(n: Word, b: Word)
    requires OneHot(b)
    ensures Agree(Clear(n, b), n, b) && Agree(Put(n, b), n, b)
  {}

  lemma HalfOneHot(b: Word)
    requires OneHot(b) && Less(ONE, b)
    ensures OneHot(Half(b)) && Less(Half(b), b)
  {}

  lemma BelowIsHalf(a: Word, b: Word)
    requires OneHot(a) && OneHot(b) && Less(a, b)
    ensures AtMost(a, Half(b)) && Less(ONE, b)
  {}

  lemma AtMostHalf(a: Word, b: Word)
    requires OneHot(a) && OneHot(b) && Less(ONE, b) && AtMost(a, Half(b))
    ensures Less(a, b)
  {}

  lemma AtMostTop(a: Word, b: Word)
    requires OneHot(a) && OneHot(b) && AtMost(a, b) && AtMost(b, TOP)
    ensures AtMost(a, TOP)
  {}

  lemma LessIsAtMost(x: Word, y: Word)
    requires Less(x, y)
    ensures AtMost(x, y) && x != y
  {}

  lemma AtMostSelf(x: Word)
    ensures AtMost(x, x) && !Less(x, x)
  {}

  lemma OneHotPositive(b: Word)
    requires OneHot(b)
    ensures AtMost(ONE, b) && Less(ZERO, b) && AtMost(b, b) && (b != ONE ==> Less(ONE, b))
  {}

  lemma OneIsOneHot()
    ensures OneHot(ONE) && OneHot(TOP) && AtMost(ONE, TOP) && AtMost(TOP, TOP)
  {}

  lemma ZeroAtMost(x: Word)
    ensures AtMost(ZERO, x)
  {}

  /** Without a sign bit there is nothing above the largest branch position. */
  lemma SignClear(n: Word)
    requires !Has(n, SIGN)
    ensures Agree(n, ZERO, TOP)
  {}

  // ----- Searching the most significant difference

  lemma DifferenceNoneAbove(x: Word, y: Word, high: Word, low: Word)
    requires OneHot(high) && OneHot(low)
    ensures NoneAbove(Difference(x, y, high, low), high)
  {}

  /** A position without a difference can be skipped, and position 1 cannot be one of those. */
  lemma SearchStep(b: Word, diff: Word)
    requires OneHot(b) && diff != ZERO && NoneAbove(diff, b) && !Has(diff, b)
    ensures Less(ONE, b)
    ensures NoneAbove(diff, Half(b))
  {}

  /** Where the search stops, x and y differ, agree above, and the position lies in the range. */
  lemma SearchStops(x: Word, y: Word, high: Word, low: Word, d: Word)
    requires OneHot(high) && OneHot(low) && OneHot(d)
    requires Agree(x, y, high)
    requires Has(Difference(x, y, high, low), d)
    ensures Less(low, d) && AtMost(d, high) && Has(x, d) != Has(y, d)
  {
    hide OneHot, Less, AtMost, Has, BitRange, Agree, And, Xor;
    HasBoth(BitRange(high, low), Xor(x, y), d);
    BitRangeSelects(high, low, d);
    XorHas(x, y, d);
  }

  lemma SearchStopsAgree(x: Word, y: Word, high: Word, low: Word, d: Word)
    requires OneHot(high) && OneHot(low) && OneHot(d) && Less(low, d) && AtMost(d, high)
    requires Agree(x, y, high)
    requires NoneAbove(Difference(x, y, high, low), d)
    ensures Agree(x, y, d)
  {
    hide OneHot, Less, AtMost;
    HigherBitsNest(low, d);
    hide HigherBits;
  }

  lemma HigherBitsNest(b: Word, d: Word)
    requires OneHot(b) && OneHot(d) && Less(b, d)
    ensures And(HigherBits(b), HigherBits(d)) == HigherBits(d)
  {}

  /** The most significant position at or below b that diff has. */
  function TopDifference(b: Word, diff: Word): (d: Word)
    requires OneHot(b) && diff != ZERO && NoneAbove(diff, b)
    decreases b.bits
  {
    if Has(diff, b) then
      b
    else
      SearchStep(b, diff);
      HalfOneHot(b);
      TopDifference(Half(b), diff)
  }

  lemma {:induction false} TopDifferenceFound(b: Word, diff: Word)
    requires OneHot(b) && diff != ZERO && NoneAbove(diff, b)
    ensures var d := TopDifference(b, diff); OneHot(d) && AtMost(d, b) && Has(diff, d) && NoneAbove(diff, d)
    decreases b.bits
  {
    hide OneHot, Has, NoneAbove, AtMost;
    if Has(diff, b) {
      AtMostSelf(b);
    } else {
      SearchStep(b, diff);
      HalfOneHot(b);
      TopDifferenceFound(Half(b), diff);
      AtMostHalf(TopDifference(b, diff), b);
      LessIsAtMost(TopDifference(b, diff), b);
    }
  }

  // ----- Order

  /** x and y first differ at d, and x has the zero there. */
  predicate FirstDifference(x: Word, y: Word, d: Word) {
    OneHot(d) && Agree(x, y, d) && !Has(x, d) && Has(y, d)
  }

  lemma LastBitOrders(x: bv32, y: bv32)
    requires (x ^ y) & (0 - 1 - 1) == 0 && x & 1 == 0 && y & 1 != 0
    ensures x < y
  {}

  lemma HalfEven(d: bv32)
    requires d != 0 && d & (d - 1) == 0 && d != 1
    ensures d & 1 == 0 && d >> 1 != 0 && (d >> 1) & ((d >> 1) - 1) == 0 && d >> 1 < d
  {}

  lemma HalfXor(x: bv32, y: bv32)
    ensures (x >> 1) ^ (y >> 1) == (x ^ y) >> 1
  {}

  lemma HalfAbove(z: bv32, d: bv32)
    requires d & 1 == 0 && z & (0 - d - d) == 0
    ensures (z >> 1) & (0 - (d >> 1) - (d >> 1)) == 0
  {}

  lemma HalfHas(x: bv32, d: bv32)
    requires d & 1 == 0
    ensures (x >> 1) & (d >> 1) == (x & d) >> 1
    ensures x & d == 0 ==> (x >> 1) & (d >> 1) == 0
    ensures x & d != 0 ==> (x >> 1) & (d >> 1) != 0
  {}

  lemma HalfOrders(x: bv32, y: bv32)
    requires x >> 1 < y >> 1
    ensures x < y
  {}

  /** The first difference decides: shift everything down until it is at the last bit. */
  lemma {:induction false} FirstBitOrders(x: bv32, y: bv32, d: bv32)
    requires d != 0 && d & (d - 1) == 0
    requires (x ^ y) & (0 - d - d) == 0 && x & d == 0 && y & d != 0
    ensures x < y
    decreases d
  {
    if d == 1 {
      LastBitOrders(x, y);
    } else {
      HalfEven(d);
      HalfXor(x, y);
      HalfAbove(x ^ y, d);
      HalfHas(x, d);
      HalfHas(y, d);
      FirstBitOrders(x >> 1, y >> 1, d >> 1);
      HalfOrders(x, y);
    }
  }

  lemma FirstDifferenceOrders(x: Word, y: Word, d: Word)
    requires FirstDifference(x, y, d)
    ensures Less(x, y)
  {
    hide *;
    FirstDifferenceBits(x, y, d);
    FirstBitOrders(x.bits, y.bits, d.bits);
    LessFromBits(x, y);
  }

  lemma FirstDifferenceBits(x: Word, y: Word, d: Word)
    requires FirstDifference(x, y, d)
    ensures d.bits != 0 && d.bits & (d.bits - 1) == 0
    ensures (x.bits ^ y.bits) & (0 - d.bits - d.bits) == 0
    ensures x.bits & d.bits == 0 && y.bits & d.bits != 0
  {}

  lemma LessFromBits(x: Word, y: Word)
    requires x.bits < y.bits
    ensures Less(x, y)
  {}

  lemma NotBothWays(x: Word, y: Word)
    ensures AtMost(x, y) <==> !Less(y, x)
  {}

  lemma XorAgree(x: Word, y: Word, d: Word)
    requires NoneAbove(Xor(x, y), d)
    ensures Agree(x, y, d) && Agree(y, x, d)
  {}

  lemma XorHas(x: Word, y: Word, d: Word)
    requires OneHot(d) && Has(Xor(x, y), d)
    ensures Has(x, d) != Has(y, d)
  {
    hide OneHot, Has;
    if Has(x, d) && Has(y, d) {
      XorBoth(x, y, d);
    } else if !Has(x, d) && !Has(y, d) {
      XorNeither(x, y, d);
    }
  }

  lemma XorNeither(x: Word, y: Word, d: Word)
    requires !Has(x, d) && !Has(y, d)
    ensures !Has(Xor(x, y), d)
  {}

  lemma XorBoth(x: Word, y: Word, d: Word)
    requires OneHot(d) && Has(x, d) && Has(y, d)
    ensures !Has(Xor(x, y), d)
  {
    hide OneHot;
    HasAll(x, d);
    HasAll(y, d);
  }

  lemma HasAll(x: Word, d: Word)
    requires OneHot(d) && Has(x, d)
    ensures x.bits & d.bits == d.bits
  {}

  lemma XorBelowSign(x: Word, y: Word)
    ensures OneHot(SIGN) && NoneAbove(Xor(x, y), SIGN)
    ensures x != y ==> Xor(x, y) != ZERO
  {}

  /** Different words have a first difference, one way or the other. */
  lemma Differ(x: Word, y: Word) returns (d: Word)
    requires x != y
    ensures FirstDifference(x, y, d) || FirstDifference(y, x, d)
  {
    hide OneHot, Has, NoneAbove, AtMost, Agree, Xor;
    XorBelowSign(x, y);
    d := TopDifference(SIGN, Xor(x, y));
    TopDifferenceFound(SIGN, Xor(x, y));
    XorAgree(x, y, d);
    XorHas(x, y, d);
  }

  lemma LessHasFirstDifference(x: Word, y: Word) returns (d: Word)
    requires AtMost(x, y) && x != y
    ensures FirstDifference(x, y, d)
  {
    hide FirstDifference, Less, AtMost;
    d := Differ(x, y);
    if FirstDifference(y, x, d) {
      FirstDifferenceOrders(y, x, d);
      NotBothWays(x, y);
    }
  }

  /** The binary number that bits stand for. */
  function Binary(bits: bv32): nat {
    if bits == 0 then 0 else
      ShiftSmaller(bits);
      2 * Binary(bits >> 1) + (if bits & 1 != 0 then 1 else 0)
  }

  lemma ShiftSmaller(bits: bv32)
    requires bits != 0
    ensures bits >> 1 < bits
  {}

  lemma ZeroHalves()
    ensures (0 as bv32) >> 1 == 0 && (0 as bv32) & 1 == 0
  {}

  function Value(x: Word): nat { Binary(x.bits) }

  lemma ValueHalves(x: Word)
    ensures Value(x) == 2 * Value(Half(x)) + (if Has(x, ONE) then 1 else 0)
  {
    if x.bits == 0 { ZeroHalves(); }
  }

  lemma HalfSmaller(x: Word)
    requires x != ZERO
    ensures Half(x).bits < x.bits
  {}

  lemma ZeroHalf()
    ensures Half(ZERO) == ZERO
  {}

  lemma SameHalves(x: Word, y: Word)
    requires Half(x) == Half(y) && (Has(x, ONE) <==> Has(y, ONE))
    ensures x == y
  {}

  lemma LastBitDecides(x: Word, y: Word)
    requires Half(x) == Half(y) && !Has(x, ONE) && Has(y, ONE)
    ensures Less(x, y)
  {}

  lemma HalfDecides(x: Word, y: Word)
    requires Less(Half(x), Half(y))
    ensures Less(x, y)
  {}

  /** Smaller numbers are smaller words, and equal ones the same. */
  lemma {:induction false} ValueDecides(x: Word, y: Word)
    ensures Value(x) < Value(y) ==> Less(x, y)
    ensures Value(x) == Value(y) ==> x == y
    decreases x.bits, y.bits
  {
    hide Value, Half, Has, Less;
    ValueHalves(x);
    ValueHalves(y);
    if x != ZERO || y != ZERO {
      if x != ZERO { HalfSmaller(x); } else { ZeroHalf(); HalfSmaller(y); }
      ValueDecides(Half(x), Half(y));
      if Value(Half(x)) < Value(Half(y)) {
        HalfDecides(x, y);
      } else if Value(x) < Value(y) {
        LastBitDecides(x, y);
      } else if Value(x) == Value(y) {
        SameHalves(x, y);
      }
    }
  }

  /** The order of words is that of the numbers they stand for. */
  lemma OrderIsNumeric(x: Word, y: Word)
    ensures Less(x, y) <==> Value(x) < Value(y)
    ensures AtMost(x, y) <==> Value(x) <= Value(y)
  {
    hide Value, Less, AtMost;
    ValueDecides(x, y);
    ValueDecides(y, x);
    NotBothWays(x, y);
    NotBothWays(y, x);
    AtMostSelf(x);
    if Less(x, y) { LessIsAtMost(x, y); }
    if Less(y, x) { LessIsAtMost(y, x); }
  }

  lemma AtMostAntisymmetric(x: Word, y: Word)
    requires AtMost(x, y) && AtMost(y, x)
    ensures x == y
  {
    hide FirstDifference, Less, AtMost;
    if x != y {
      var d := LessHasFirstDifference(x, y);
      FirstDifferenceOrders(x, y, d);
      LessIsAtMost(x, y);
      NotBothWays(y, x);
    }
  }

  lemma AtMostTransitive(x: Word, y: Word, z: Word)
    requires AtMost(x, y) && AtMost(y, z)
    ensures AtMost(x, z)
  {
    hide FirstDifference, Less, AtMost;
    if x != y && y != z {
      var d := LessHasFirstDifference(x, y);
      var e := LessHasFirstDifference(y, z);
      FirstDifferencesCompose(x, y, z, d, e);
      FirstDifferenceOrders(x, z, if Less(d, e) then e else d);
      LessIsAtMost(x, z);
    }
  }

  lemma FirstDifferencesCompose(x: Word, y: Word, z: Word, d: Word, e: Word)
    requires FirstDifference(x, y, d) && FirstDifference(y, z, e)
    ensures FirstDifference(x, z, if Less(d, e) then e else d)
  {
    hide OneHot, Has, Less, AtMost, Agree;
    NotBothWays(e, d);
    NotBothWays(d, e);
    if Less(d, e) {
      LessIsAtMost(d, e);
      AgreeWeaken(x, y, d, e);
      AgreeHas(x, y, d, e);
      AgreeTransitive(x, y, z, e);
    } else {
      if !Less(e, d) { AtMostAntisymmetric(d, e); }
      AgreeWeaken(y, z, e, d);
      AgreeHas(y, z, e, d);
      AgreeTransitive(x, y, z, d);
    }
  }

  /** Values that first differ at a position are ordered by that position. */
  lemma SidesOrdered(n: Word, b: Word, x: Word, y: Word)
    requires OneHot(b) && Less(ONE, b)
    requires Agree(x, Clear(n, b), Half(b)) && Agree(y, Put(n, b), Half(b))
    ensures Less(x, y)
  {
    hide OneHot, Less, AtMost, Agree, Has, Clear, Put, Half;
    HalfOneHot(b);
    LessIsAtMost(Half(b), b);
    SideAgrees(n, b);
    SideHas(n, b);
    AgreeHas(x, Clear(n, b), Half(b), b);
    AgreeHas(y, Put(n, b), Half(b), b);
    AgreeWeaken(x, Clear(n, b), Half(b), b);
    AgreeWeaken(y, Put(n, b), Half(b), b);
    AgreeTransitive(x, Clear(n, b), n, b);
    AgreeTransitive(y, Put(n, b), n, b);
    AgreeSymmetric(y, n, b);
    AgreeTransitive(x, n, y, b);
    FirstDifferenceOrders(x, y, b);
  }

  lemma SideHas(n: Word, b: Word)
    requires OneHot(b)
    ensures !Has(Clear(n, b), b) && Has(Put(n, b), b)
  {}

  lemma LowBitOrders(n: Word)
    ensures Less(Clear(n, ONE), Put(n, ONE))
  {}

  /** Agreement above any one-hot position ignores bit 0. */
  lemma LowBitIgnored(m: Word, n: Word, b: Word)
    requires OneHot(b) && Agree(m, n, b)
    ensures Agree(Clear(m, ONE), n, b) && Agree(Put(m, ONE), n, b)
  {}

  /** Two numbers that agree above bit 0 are told apart by bit 0 alone. */
  lemma LowBitDecides(m: Word, n: Word)
    requires Agree(m, n, ONE)
    ensures n == if Has(n, ONE) then Put(m, ONE) else Clear(m, ONE)
  {}

  lemma LowBitOfSelf(n: Word, b: Word)
    requires OneHot(b)
    ensures Agree(n, n, b)
  {}
}
