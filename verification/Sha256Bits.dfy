/** What the functions of section 4.1.2 of FIPS 180-4 do to every single bit. */
module Sha256Bits {
  import opened Sha256Spec

  /** Bit i of x, counted from the last one. */
  predicate Bit(x: bv32, i: nat) {
    if i == 0 then x & 1 != 0 else Bit(x >> 1, i - 1)
  }

  function And(x: bv32, y: bv32): bv32 { x & y }

  function Half(x: bv32): bv32 { x >> 1 }

  predicate Last(x: bv32) { x & 1 != 0 }

  lemma BitParts(x: bv32, i: nat)
    ensures Bit(x, i) == if i == 0 then Last(x) else Bit(Half(x), i - 1)
  {}

  // ----- Operations on both halves of a word: all bits but the last, and the last

  lemma XorHalf(x: bv32, y: bv32)
    ensures Half(Xor(x, y)) == Xor(Half(x), Half(y))
  {}

  lemma XorLast(x: bv32, y: bv32)
    ensures Last(Xor(x, y)) <==> Last(x) != Last(y)
  {}

  lemma {:induction false} XorBit(x: bv32, y: bv32, i: nat)
    ensures Bit(Xor(x, y), i) <==> Bit(x, i) != Bit(y, i)
    decreases i
  {
    hide *;
    BitParts(Xor(x, y), i);
    BitParts(x, i);
    BitParts(y, i);
    if i == 0 {
      XorLast(x, y);
    } else {
      XorHalf(x, y);
      XorBit(Half(x), Half(y), i - 1);
    }
  }

  lemma AndHalf(x: bv32, y: bv32)
    ensures Half(And(x, y)) == And(Half(x), Half(y))
  {}

  lemma AndLast(x: bv32, y: bv32)
    ensures Last(And(x, y)) <==> Last(x) && Last(y)
  {}

  lemma {:induction false} AndBit(x: bv32, y: bv32, i: nat)
    ensures Bit(And(x, y), i) <==> Bit(x, i) && Bit(y, i)
    decreases i
  {
    hide *;
    BitParts(And(x, y), i);
    BitParts(x, i);
    BitParts(y, i);
    if i == 0 {
      AndLast(x, y);
    } else {
      AndHalf(x, y);
      AndBit(Half(x), Half(y), i - 1);
    }
  }

  lemma ChHalf(x: bv32, y: bv32, z: bv32)
    ensures Half(Ch(x, y, z)) == Ch(Half(x), Half(y), Half(z))
  {}

  lemma ChLast(x: bv32, y: bv32, z: bv32)
    ensures Last(Ch(x, y, z)) == if Last(x) then Last(y) else Last(z)
  {}

  /** A choice between y and z. */
  lemma {:induction false} ChBits(x: bv32, y: bv32, z: bv32, i: nat)
    ensures Bit(Ch(x, y, z), i) == if Bit(x, i) then Bit(y, i) else Bit(z, i)
    decreases i
  {
    hide *;
    BitParts(Ch(x, y, z), i);
    BitParts(x, i);
    BitParts(y, i);
    BitParts(z, i);
    if i == 0 {
      ChLast(x, y, z);
    } else {
      ChHalf(x, y, z);
      ChBits(Half(x), Half(y), Half(z), i - 1);
    }
  }

  lemma MajHalf(x: bv32, y: bv32, z: bv32)
    ensures Half(Maj(x, y, z)) == Maj(Half(x), Half(y), Half(z))
  {}

  lemma MajLast(x: bv32, y: bv32, z: bv32)
    ensures Last(Maj(x, y, z)) <==> (Last(x) && Last(y)) || (Last(x) && Last(z)) || (Last(y) && Last(z))
  {}

  /** The majority of three. */
  lemma {:induction false} MajBits(x: bv32, y: bv32, z: bv32, i: nat)
    ensures Bit(Maj(x, y, z), i) <==> (Bit(x, i) && Bit(y, i)) || (Bit(x, i) && Bit(z, i)) || (Bit(y, i) && Bit(z, i))
    decreases i
  {
    hide *;
    BitParts(Maj(x, y, z), i);
    BitParts(x, i);
    BitParts(y, i);
    BitParts(z, i);
    if i == 0 {
      MajLast(x, y, z);
    } else {
      MajHalf(x, y, z);
      MajBits(Half(x), Half(y), Half(z), i - 1);
    }
  }

  // ----- Shifts and rotations

  /** x without its last n bits. */
  function Down(x: bv32, n: nat): bv32
    decreases n
  {
    if n == 0 then x else Down(x >> 1, n - 1)
  }

  lemma {:induction false} BitDown(x: bv32, n: nat, i: nat)
    ensures Bit(Down(x, n), i) <==> Bit(x, i + n)
    decreases n
  {
    if n > 0 { BitDown(x >> 1, n - 1, i); }
  }

  /** The last n bits of m are set. */
  predicate Ones(m: bv32, n: nat)
    decreases n
  {
    n == 0 || (m & 1 != 0 && Ones(m >> 1, n - 1))
  }

  lemma {:induction false} OnesBit(m: bv32, n: nat, i: nat)
    requires Ones(m, n) && i < n
    ensures Bit(m, i)
    decreases n
  {
    if i > 0 { OnesBit(m >> 1, n - 1, i - 1); }
  }

  lemma {:induction false} DownDown(x: bv32, m: nat, n: nat)
    ensures Down(x, m + n) == Down(Down(x, m), n)
    decreases m
  {
    if m > 0 { DownDown(x >> 1, m - 1, n); }
  }

  lemma Down7(x: bv32)
    ensures Down(x, 7) == ShR(x, 7)
  {}

  lemma Down8(x: bv32)
    ensures Down(x, 8) == ShR(x, 8)
  {}

  lemma EightAndMore(x: bv32)
    ensures ShR(ShR(ShR(ShR(x, 8), 8), 8), 7) == ShR(x, 31)
  {}

  lemma Down31(x: bv32)
    ensures Down(x, 31) == ShR(x, 31)
  {
    hide *;
    Down8(x);
    DownDown(x, 8, 23);
    Down8(ShR(x, 8));
    DownDown(ShR(x, 8), 8, 15);
    Down8(ShR(ShR(x, 8), 8));
    DownDown(ShR(ShR(x, 8), 8), 8, 7);
    Down7(ShR(ShR(ShR(x, 8), 8), 8));
    EightAndMore(x);
  }

  lemma NothingLeft(x: bv32)
    ensures Down(ShR(x, 31), 1) == 0
  {}

  lemma {:induction false} ZeroBit(i: nat)
    ensures !Bit(0, i)
    decreases i
  {
    assert (0 as bv32) & 1 == 0 && (0 as bv32) >> 1 == 0;
    if i > 0 { ZeroBit(i - 1); }
  }

  lemma NoHighBit(x: bv32, i: nat)
    requires i >= 32
    ensures !Bit(x, i)
  {
    hide *;
    BitDown(x, 32, i - 32);
    DownDown(x, 31, 1);
    Down31(x);
    NothingLeft(x);
    ZeroBit(i - 32);
  }

  // ----- Rotation by one

  lemma OnesParts(m: bv32, n: nat)
    requires n > 0
    ensures Ones(m, n) <==> Last(m) && Ones(Half(m), n - 1)
  {}

  lemma DownParts(x: bv32, n: nat)
    requires n > 0
    ensures Down(x, n) == Down(Half(x), n - 1)
  {}

  lemma {:induction false} MoreOnes(m: bv32, a: nat, b: nat)
    requires Ones(m, a) && Ones(Down(m, a), b)
    ensures Ones(m, a + b)
    decreases a
  {
    if a > 0 {
      hide *;
      OnesParts(m, a);
      OnesParts(m, a + b);
      DownParts(m, a);
      MoreOnes(Half(m), a - 1, b);
    } else {
      hide Ones;
      assert Down(m, 0) == m;
    }
  }

  lemma EightOnes(m: bv32)
    requires And(m, 0xff) == 0xff
    ensures Ones(m, 8)
  {}

  lemma SevenOnes()
    ensures Ones(0x7f, 7)
  {}

  lemma OnesLeft()
    ensures ShR(0x7fff, 8) == 0x7f && ShR(0x7f_ffff, 8) == 0x7fff && ShR(0x7fff_ffff, 8) == 0x7f_ffff
    ensures And(0x7fff, 0xff) == 0xff && And(0x7f_ffff, 0xff) == 0xff && And(0x7fff_ffff, 0xff) == 0xff
  {}

  lemma ThirtyOneOnes()
    ensures Ones(0x7fff_ffff, 31)
  {
    hide *;
    OnesLeft();
    SevenOnes();
    Down8(0x7fff);
    EightOnes(0x7fff);
    MoreOnes(0x7fff, 8, 7);
    Down8(0x7f_ffff);
    EightOnes(0x7f_ffff);
    MoreOnes(0x7f_ffff, 8, 15);
    Down8(0x7fff_ffff);
    EightOnes(0x7fff_ffff);
    MoreOnes(0x7fff_ffff, 8, 23);
  }

  lemma OneUpper(x: bv32)
    ensures ((x >> 1) | (x << 31)) & 0x7fff_ffff == x >> 1
  {}

  lemma UpperHalf(x: bv32)
    ensures And(RotR(x, 1), 0x7fff_ffff) == Half(x)
  {
    OneUpper(x);
    assert RotR(x, 1) == (x >> 1) | (x << 31);
  }

  lemma OneLower(x: bv32)
    ensures Last(ShR(RotR(x, 1), 31)) <==> Last(x)
  {}

  /** Where bit i of a word turned to the right by n was before. */
  function Place(i: nat, n: nat): (j: nat)
    ensures j < 32
  {
    (i + n) % 32
  }

  /** r is x turned to the right by n. */
  ghost predicate Turned(r: bv32, x: bv32, n: nat) {
    forall i :: 0 <= i < 32 ==> (Bit(r, i) <==> Bit(x, Place(i, n)))
  }

  lemma PlaceBit(r: bv32, x: bv32, n: nat, i: nat)
    requires Turned(r, x, n) && i < 32
    ensures Bit(r, i) <==> Bit(x, Place(i, n))
  {
    hide Bit, Place;
  }

  lemma TurnedBit(r: bv32, x: bv32, n: nat, i: nat)
    requires Turned(r, x, n) && i < 32
    ensures Bit(r, i) <==> Bit(x, (i + n) % 32)
  {
    hide Bit;
  }

  lemma PlaceTwice(i: nat, m: nat, n: nat)
    ensures Place(Place(i, n), m) == Place(i, m + n)
  {
    var q := (i + n) / 32;
    assert (i + n) % 32 + m == (i + (m + n)) - 32 * q;
  }

  lemma TurnedOnAt(r: bv32, y: bv32, x: bv32, m: nat, n: nat, i: nat)
    requires Turned(y, x, m) && Turned(r, y, n) && i < 32
    ensures Bit(r, i) <==> Bit(x, Place(i, m + n))
  {
    hide *;
    PlaceTwice(i, m, n);
    PlaceBit(r, y, n, i);
    PlaceBit(y, x, m, Place(i, n));
  }

  lemma IsTurned(r: bv32, x: bv32, n: nat)
    requires forall i :: 0 <= i < 32 ==> (Bit(r, i) <==> Bit(x, Place(i, n)))
    ensures Turned(r, x, n)
  {
    hide Bit, Place;
  }

  lemma TurnedOn(r: bv32, y: bv32, x: bv32, m: nat, n: nat)
    requires Turned(y, x, m) && Turned(r, y, n)
    ensures Turned(r, x, m + n)
  {
    hide *;
    forall i | 0 <= i < 32 ensures Bit(r, i) <==> Bit(x, Place(i, m + n)) {
      TurnedOnAt(r, y, x, m, n, i);
    }
    IsTurned(r, x, m + n);
  }

  lemma UpperBit(x: bv32, i: nat)
    requires i < 31
    ensures Bit(RotR(x, 1), i) <==> Bit(x, i + 1)
  {
    hide *;
    UpperHalf(x);
    ThirtyOneOnes();
    OnesBit(0x7fff_ffff, 31, i);
    AndBit(RotR(x, 1), 0x7fff_ffff, i);
    BitParts(x, i + 1);
  }

  lemma TopBit(x: bv32)
    ensures Bit(RotR(x, 1), 31) <==> Bit(x, 0)
  {
    hide *;
    Down31(RotR(x, 1));
    BitDown(RotR(x, 1), 31, 0);
    BitParts(ShR(RotR(x, 1), 31), 0);
    OneLower(x);
    BitParts(x, 0);
  }

  lemma PlaceOne(i: nat)
    requires i < 32
    ensures Place(i, 1) == if i < 31 then i + 1 else 0
  {}

  lemma OneBit(x: bv32, i: nat)
    requires i < 32
    ensures Bit(RotR(x, 1), i) <==> Bit(x, Place(i, 1))
  {
    hide *;
    PlaceOne(i);
    if i < 31 { UpperBit(x, i); } else { TopBit(x); }
  }

  lemma RotR1Bits(x: bv32)
    ensures Turned(RotR(x, 1), x, 1)
  {
    hide Bit, RotR;
    forall i | 0 <= i < 32 ensures Bit(RotR(x, 1), i) <==> Bit(x, Place(i, 1)) {
      OneBit(x, i);
    }
  }

  // ----- Rotation by the standard's amounts, from one to the next

  lemma RotR2Is(x: bv32)
    ensures RotR(x, 2) == RotR(RotR(x, 1), 1)
  {}

  lemma RotR2Bits(x: bv32)
    ensures Turned(RotR(x, 2), x, 2)
  {
    hide *;
    RotR2Is(x);
    RotR1Bits(x);
    RotR1Bits(RotR(x, 1));
    TurnedOn(RotR(x, 2), RotR(x, 1), x, 1, 1);
  }

  lemma RotR4Is(x: bv32)
    ensures RotR(x, 4) == RotR(RotR(x, 2), 2)
  {}

  lemma RotR4Bits(x: bv32)
    ensures Turned(RotR(x, 4), x, 4)
  {
    hide *;
    RotR4Is(x);
    RotR2Bits(x);
    RotR2Bits(RotR(x, 2));
    TurnedOn(RotR(x, 4), RotR(x, 2), x, 2, 2);
  }

  lemma RotR6Is(x: bv32)
    ensures RotR(x, 6) == RotR(RotR(x, 4), 2)
  {}

  lemma RotR6Bits(x: bv32)
    ensures Turned(RotR(x, 6), x, 6)
  {
    hide *;
    RotR6Is(x);
    RotR4Bits(x);
    RotR2Bits(RotR(x, 4));
    TurnedOn(RotR(x, 6), RotR(x, 4), x, 4, 2);
  }

  lemma RotR7Is(x: bv32)
    ensures RotR(x, 7) == RotR(RotR(x, 6), 1)
  {}

  lemma RotR7Bits(x: bv32)
    ensures Turned(RotR(x, 7), x, 7)
  {
    hide *;
    RotR7Is(x);
    RotR6Bits(x);
    RotR1Bits(RotR(x, 6));
    TurnedOn(RotR(x, 7), RotR(x, 6), x, 6, 1);
  }

  lemma RotR11Is(x: bv32)
    ensures RotR(x, 11) == RotR(RotR(x, 7), 4)
  {}

  lemma RotR11Bits(x: bv32)
    ensures Turned(RotR(x, 11), x, 11)
  {
    hide *;
    RotR11Is(x);
    RotR7Bits(x);
    RotR4Bits(RotR(x, 7));
    TurnedOn(RotR(x, 11), RotR(x, 7), x, 7, 4);
  }

  lemma RotR13Is(x: bv32)
    ensures RotR(x, 13) == RotR(RotR(x, 11), 2)
  {}

  lemma RotR13Bits(x: bv32)
    ensures Turned(RotR(x, 13), x, 13)
  {
    hide *;
    RotR13Is(x);
    RotR11Bits(x);
    RotR2Bits(RotR(x, 11));
    TurnedOn(RotR(x, 13), RotR(x, 11), x, 11, 2);
  }

  lemma RotR17Is(x: bv32)
    ensures RotR(x, 17) == RotR(RotR(x, 13), 4)
  {}

  lemma RotR17Bits(x: bv32)
    ensures Turned(RotR(x, 17), x, 17)
  {
    hide *;
    RotR17Is(x);
    RotR13Bits(x);
    RotR4Bits(RotR(x, 13));
    TurnedOn(RotR(x, 17), RotR(x, 13), x, 13, 4);
  }

  lemma RotR18Is(x: bv32)
    ensures RotR(x, 18) == RotR(RotR(x, 17), 1)
  {}

  lemma RotR18Bits(x: bv32)
    ensures Turned(RotR(x, 18), x, 18)
  {
    hide *;
    RotR18Is(x);
    RotR17Bits(x);
    RotR1Bits(RotR(x, 17));
    TurnedOn(RotR(x, 18), RotR(x, 17), x, 17, 1);
  }

  lemma RotR19Is(x: bv32)
    ensures RotR(x, 19) == RotR(RotR(x, 17), 2)
  {}

  lemma RotR19Bits(x: bv32)
    ensures Turned(RotR(x, 19), x, 19)
  {
    hide *;
    RotR19Is(x);
    RotR17Bits(x);
    RotR2Bits(RotR(x, 17));
    TurnedOn(RotR(x, 19), RotR(x, 17), x, 17, 2);
  }

  lemma RotR22Is(x: bv32)
    ensures RotR(x, 22) == RotR(RotR(x, 18), 4)
  {}

  lemma RotR22Bits(x: bv32)
    ensures Turned(RotR(x, 22), x, 22)
  {
    hide *;
    RotR22Is(x);
    RotR18Bits(x);
    RotR4Bits(RotR(x, 18));
    TurnedOn(RotR(x, 22), RotR(x, 18), x, 18, 4);
  }

  lemma RotR25Is(x: bv32)
    ensures RotR(x, 25) == RotR(RotR(x, 19), 6)
  {}

  lemma RotR25Bits(x: bv32)
    ensures Turned(RotR(x, 25), x, 25)
  {
    hide *;
    RotR25Is(x);
    RotR19Bits(x);
    RotR6Bits(RotR(x, 19));
    TurnedOn(RotR(x, 25), RotR(x, 19), x, 19, 6);
  }

  // ----- The four functions

  lemma BigSigma0Is(x: bv32)
    ensures BigSigma0(x) == Xor(Xor(RotR(x, 2), RotR(x, 13)), RotR(x, 22))
  {
    hide RotR, ShR, Xor;
  }

  lemma BigSigma0Bits(x: bv32, i: nat)
    requires i < 32
    ensures Bit(BigSigma0(x), i) <==> (Bit(x, (i + 2) % 32) != Bit(x, (i + 13) % 32)) != Bit(x, (i + 22) % 32)
  {
    hide *;
    BigSigma0Is(x);
    RotR2Bits(x);
    TurnedBit(RotR(x, 2), x, 2, i);
    RotR13Bits(x);
    TurnedBit(RotR(x, 13), x, 13, i);
    RotR22Bits(x);
    TurnedBit(RotR(x, 22), x, 22, i);
    XorBit(RotR(x, 2), RotR(x, 13), i);
    XorBit(Xor(RotR(x, 2), RotR(x, 13)), RotR(x, 22), i);
  }

  lemma BigSigma1Is(x: bv32)
    ensures BigSigma1(x) == Xor(Xor(RotR(x, 6), RotR(x, 11)), RotR(x, 25))
  {
    hide RotR, ShR, Xor;
  }

  lemma BigSigma1Bits(x: bv32, i: nat)
    requires i < 32
    ensures Bit(BigSigma1(x), i) <==> (Bit(x, (i + 6) % 32) != Bit(x, (i + 11) % 32)) != Bit(x, (i + 25) % 32)
  {
    hide *;
    BigSigma1Is(x);
    RotR6Bits(x);
    TurnedBit(RotR(x, 6), x, 6, i);
    RotR11Bits(x);
    TurnedBit(RotR(x, 11), x, 11, i);
    RotR25Bits(x);
    TurnedBit(RotR(x, 25), x, 25, i);
    XorBit(RotR(x, 6), RotR(x, 11), i);
    XorBit(Xor(RotR(x, 6), RotR(x, 11)), RotR(x, 25), i);
  }

  lemma Shifted3(x: bv32)
    ensures ShR(x, 3) == Down(x, 3)
  {}

  lemma Sigma0Is(x: bv32)
    ensures Sigma0(x) == Xor(Xor(RotR(x, 7), RotR(x, 18)), ShR(x, 3))
  {
    hide RotR, ShR, Xor;
  }

  lemma Sigma0Bits(x: bv32, i: nat)
    requires i < 32
    ensures Bit(Sigma0(x), i) <==> (Bit(x, (i + 7) % 32) != Bit(x, (i + 18) % 32)) != (i < 29 && Bit(x, i + 3))
  {
    hide *;
    Sigma0Is(x);
    RotR7Bits(x);
    TurnedBit(RotR(x, 7), x, 7, i);
    RotR18Bits(x);
    TurnedBit(RotR(x, 18), x, 18, i);
    Shifted3(x);
    BitDown(x, 3, i);
    if i >= 29 { NoHighBit(x, i + 3); }
    XorBit(RotR(x, 7), RotR(x, 18), i);
    XorBit(Xor(RotR(x, 7), RotR(x, 18)), ShR(x, 3), i);
  }

  lemma Shifted10(x: bv32)
    ensures ShR(x, 10) == Down(x, 10)
  {}

  lemma Sigma1Is(x: bv32)
    ensures Sigma1(x) == Xor(Xor(RotR(x, 17), RotR(x, 19)), ShR(x, 10))
  {
    hide RotR, ShR, Xor;
  }

  lemma Sigma1Bits(x: bv32, i: nat)
    requires i < 32
    ensures Bit(Sigma1(x), i) <==> (Bit(x, (i + 17) % 32) != Bit(x, (i + 19) % 32)) != (i < 22 && Bit(x, i + 10))
  {
    hide *;
    Sigma1Is(x);
    RotR17Bits(x);
    TurnedBit(RotR(x, 17), x, 17, i);
    RotR19Bits(x);
    TurnedBit(RotR(x, 19), x, 19, i);
    Shifted10(x);
    BitDown(x, 10, i);
    if i >= 22 { NoHighBit(x, i + 10); }
    XorBit(RotR(x, 17), RotR(x, 19), i);
    XorBit(Xor(RotR(x, 17), RotR(x, 19)), ShR(x, 10), i);
  }
}
