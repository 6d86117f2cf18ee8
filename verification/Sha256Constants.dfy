/**
 * Where the constants of SHA-256 come from, as sections 4.2.2 and 5.3.3 of FIPS 180-4 say: the first 32
 * bits of the fractional parts of the cube and square roots of the first primes.
 */
module Sha256Constants {
  import opened Arithmetic
  import opened Primes
  import opened Sha256Spec

  // ----- Roots

  /** The integer part of the cube root of a number below 343. */
  function CubePart(p: int): int {
    if p < 8 then 1 else if p < 27 then 2 else if p < 64 then 3 else if p < 125 then 4 else if p < 216 then 5 else 6
  }

  function SquarePart(p: int): int {
    if p < 4 then 1 else if p < 9 then 2 else if p < 16 then 3 else 4
  }

  const TWO96 := TWO64 * TWO32

  /** n is the integer part of the cube root of x. */
  predicate CubeRoot(n: int, x: int) { n * n * n <= x < (n + 1) * (n + 1) * (n + 1) }

  predicate SquareRoot(n: int, x: int) { n * n <= x < (n + 1) * (n + 1) }

  lemma CubesGrow(m: int, n: int)
    requires 0 <= m <= n
    ensures m * m * m <= n * n * n
  {
    assert m * m <= n * n;
    assert m * m * m <= n * n * m;
    assert n * n * m <= n * n * n;
  }

  lemma CubeRootUnique(m: int, n: int, x: int)
    requires 0 <= m && 0 <= n && CubeRoot(m, x) && CubeRoot(n, x)
    ensures m == n
  {
    if m < n { CubesGrow(m + 1, n); }
    if n < m { CubesGrow(n + 1, m); }
  }

  lemma SquaresGrow(m: int, n: int)
    requires 0 <= m <= n
    ensures m * m <= n * n
  {
    MulNonNegative(m, n - m);
    MulNonNegative(n, n - m);
    assert n * n - m * m == n * (n - m) + m * (n - m);
  }

  lemma SquareRootUnique(m: int, n: int, x: int)
    requires 0 <= m && 0 <= n && SquareRoot(m, x) && SquareRoot(n, x)
    ensures m == n
  {
    if m < n { SquaresGrow(m + 1, n); }
    if n < m { SquaresGrow(n + 1, m); }
  }

  // ----- The tables, entry by entry

  predicate RootOk(t: nat)
    requires t < 64
  {
    CubeRoot(CubePart(PRIMES[t]) * TWO32 + K[t] as int, PRIMES[t] * TWO96)
  }

  lemma RootRow(t: nat, p: int, k: bv32)
    requires t < 64 && PRIMES[t] == p && K[t] == k && CubeRoot(CubePart(p) * TWO32 + k as int, p * TWO96)
    ensures RootOk(t)
  {}

  lemma KFrom0()
    ensures K[0] == 0x428a2f98 && K[1] == 0x71374491 && K[2] == 0xb5c0fbcf && K[3] == 0xe9b5dba5
    ensures K[4] == 0x3956c25b && K[5] == 0x59f111f1 && K[6] == 0x923f82a4 && K[7] == 0xab1c5ed5
  {}

  lemma KFrom8()
    ensures K[8] == 0xd807aa98 && K[9] == 0x12835b01 && K[10] == 0x243185be && K[11] == 0x550c7dc3
    ensures K[12] == 0x72be5d74 && K[13] == 0x80deb1fe && K[14] == 0x9bdc06a7 && K[15] == 0xc19bf174
  {}

  lemma KFrom16()
    ensures K[16] == 0xe49b69c1 && K[17] == 0xefbe4786 && K[18] == 0x0fc19dc6 && K[19] == 0x240ca1cc
    ensures K[20] == 0x2de92c6f && K[21] == 0x4a7484aa && K[22] == 0x5cb0a9dc && K[23] == 0x76f988da
  {}

  lemma KFrom24()
    ensures K[24] == 0x983e5152 && K[25] == 0xa831c66d && K[26] == 0xb00327c8 && K[27] == 0xbf597fc7
    ensures K[28] == 0xc6e00bf3 && K[29] == 0xd5a79147 && K[30] == 0x06ca6351 && K[31] == 0x14292967
  {}

  lemma KFrom32()
    ensures K[32] == 0x27b70a85 && K[33] == 0x2e1b2138 && K[34] == 0x4d2c6dfc && K[35] == 0x53380d13
    ensures K[36] == 0x650a7354 && K[37] == 0x766a0abb && K[38] == 0x81c2c92e && K[39] == 0x92722c85
  {}

  lemma KFrom40()
    ensures K[40] == 0xa2bfe8a1 && K[41] == 0xa81a664b && K[42] == 0xc24b8b70 && K[43] == 0xc76c51a3
    ensures K[44] == 0xd192e819 && K[45] == 0xd6990624 && K[46] == 0xf40e3585 && K[47] == 0x106aa070
  {}

  lemma KFrom48()
    ensures K[48] == 0x19a4c116 && K[49] == 0x1e376c08 && K[50] == 0x2748774c && K[51] == 0x34b0bcb5
    ensures K[52] == 0x391c0cb3 && K[53] == 0x4ed8aa4a && K[54] == 0x5b9cca4f && K[55] == 0x682e6ff3
  {}

  lemma KFrom56()
    ensures K[56] == 0x748f82ee && K[57] == 0x78a5636f && K[58] == 0x84c87814 && K[59] == 0x8cc70208
    ensures K[60] == 0x90befffa && K[61] == 0xa4506ceb && K[62] == 0xbef9a3f7 && K[63] == 0xc67178f2
  {}

  lemma RootsFrom0()
    ensures forall t :: 0 <= t < 8 ==> RootOk(t)
  {
    hide RootOk, PRIMES, K;
    EntriesFrom0();
    KFrom0();
    RootRow(0, 2, 0x428a2f98);
    RootRow(1, 3, 0x71374491);
    RootRow(2, 5, 0xb5c0fbcf);
    RootRow(3, 7, 0xe9b5dba5);
    RootRow(4, 11, 0x3956c25b);
    RootRow(5, 13, 0x59f111f1);
    RootRow(6, 17, 0x923f82a4);
    RootRow(7, 19, 0xab1c5ed5);
  }

  lemma RootsFrom8()
    ensures forall t :: 8 <= t < 16 ==> RootOk(t)
  {
    hide RootOk, PRIMES, K;
    EntriesFrom8();
    KFrom8();
    RootRow(8, 23, 0xd807aa98);
    RootRow(9, 29, 0x12835b01);
    RootRow(10, 31, 0x243185be);
    RootRow(11, 37, 0x550c7dc3);
    RootRow(12, 41, 0x72be5d74);
    RootRow(13, 43, 0x80deb1fe);
    RootRow(14, 47, 0x9bdc06a7);
    RootRow(15, 53, 0xc19bf174);
  }

  lemma RootsFrom16()
    ensures forall t :: 16 <= t < 24 ==> RootOk(t)
  {
    hide RootOk, PRIMES, K;
    EntriesFrom16();
    KFrom16();
    RootRow(16, 59, 0xe49b69c1);
    RootRow(17, 61, 0xefbe4786);
    RootRow(18, 67, 0x0fc19dc6);
    RootRow(19, 71, 0x240ca1cc);
    RootRow(20, 73, 0x2de92c6f);
    RootRow(21, 79, 0x4a7484aa);
    RootRow(22, 83, 0x5cb0a9dc);
    RootRow(23, 89, 0x76f988da);
  }

  lemma RootsFrom24()
    ensures forall t :: 24 <= t < 32 ==> RootOk(t)
  {
    hide RootOk, PRIMES, K;
    EntriesFrom24();
    KFrom24();
    RootRow(24, 97, 0x983e5152);
    RootRow(25, 101, 0xa831c66d);
    RootRow(26, 103, 0xb00327c8);
    RootRow(27, 107, 0xbf597fc7);
    RootRow(28, 109, 0xc6e00bf3);
    RootRow(29, 113, 0xd5a79147);
    RootRow(30, 127, 0x06ca6351);
    RootRow(31, 131, 0x14292967);
  }

  lemma RootsFrom32()
    ensures forall t :: 32 <= t < 40 ==> RootOk(t)
  {
    hide RootOk, PRIMES, K;
    EntriesFrom32();
    KFrom32();
    RootRow(32, 137, 0x27b70a85);
    RootRow(33, 139, 0x2e1b2138);
    RootRow(34, 149, 0x4d2c6dfc);
    RootRow(35, 151, 0x53380d13);
    RootRow(36, 157, 0x650a7354);
    RootRow(37, 163, 0x766a0abb);
    RootRow(38, 167, 0x81c2c92e);
    RootRow(39, 173, 0x92722c85);
  }

  lemma RootsFrom40()
    ensures forall t :: 40 <= t < 48 ==> RootOk(t)
  {
    hide RootOk, PRIMES, K;
    EntriesFrom40();
    KFrom40();
    RootRow(40, 179, 0xa2bfe8a1);
    RootRow(41, 181, 0xa81a664b);
    RootRow(42, 191, 0xc24b8b70);
    RootRow(43, 193, 0xc76c51a3);
    RootRow(44, 197, 0xd192e819);
    RootRow(45, 199, 0xd6990624);
    RootRow(46, 211, 0xf40e3585);
    RootRow(47, 223, 0x106aa070);
  }

  lemma RootsFrom48()
    ensures forall t :: 48 <= t < 56 ==> RootOk(t)
  {
    hide RootOk, PRIMES, K;
    EntriesFrom48();
    KFrom48();
    RootRow(48, 227, 0x19a4c116);
    RootRow(49, 229, 0x1e376c08);
    RootRow(50, 233, 0x2748774c);
    RootRow(51, 239, 0x34b0bcb5);
    RootRow(52, 241, 0x391c0cb3);
    RootRow(53, 251, 0x4ed8aa4a);
    RootRow(54, 257, 0x5b9cca4f);
    RootRow(55, 263, 0x682e6ff3);
  }

  lemma RootsFrom56()
    ensures forall t :: 56 <= t < 64 ==> RootOk(t)
  {
    hide RootOk, PRIMES, K;
    EntriesFrom56();
    KFrom56();
    RootRow(56, 269, 0x748f82ee);
    RootRow(57, 271, 0x78a5636f);
    RootRow(58, 277, 0x84c87814);
    RootRow(59, 281, 0x8cc70208);
    RootRow(60, 283, 0x90befffa);
    RootRow(61, 293, 0xa4506ceb);
    RootRow(62, 307, 0xbef9a3f7);
    RootRow(63, 311, 0xc67178f2);
  }

  lemma AllRoots()
    ensures forall t :: 0 <= t < 64 ==> RootOk(t)
  {
    hide RootOk;
    RootsFrom0();
    RootsFrom8();
    RootsFrom16();
    RootsFrom24();
    RootsFrom32();
    RootsFrom40();
    RootsFrom48();
    RootsFrom56();
  }

  // ----- The constants

  lemma LowWord(c: int, k: int)
    requires 0 <= k < TWO32
    ensures (c * TWO32 + k) % TWO32 == k
  {
    ModUnique(c * TWO32 + k, TWO32, c, k);
  }

  lemma BitsAreWord(k: bv32)
    ensures 0 <= k as int < TWO32
  {}

  lemma CubeFraction(p: int, n: nat, k: bv32)
    requires CubeRoot(CubePart(p) * TWO32 + k as int, p * TWO96) && CubeRoot(n, p * TWO96)
    ensures k as int == n % TWO32
  {
    hide CubeRoot, CubePart;
    assert CubePart(p) >= 0 by { PartPositive(p); }
    BitsAreWord(k);
    CubeRootUnique(CubePart(p) * TWO32 + k as int, n, p * TWO96);
    LowWord(CubePart(p), k as int);
  }

  lemma PartPositive(p: int)
    ensures CubePart(p) >= 0 && SquarePart(p) >= 0
  {}

  lemma RootOfEntry(t: nat)
    requires t < 64
    ensures CubeRoot(CubePart(PRIMES[t]) * TWO32 + K[t] as int, PRIMES[t] * TWO96)
  {
    hide CubeRoot, CubePart;
    AllRoots();
    assert RootOk(t);
  }

  lemma KAsRoot(t: nat, p: int, n: nat)
    requires t < 64 && IsPrime(p) && |PrimesBelow(p)| == t && CubeRoot(n, p * TWO96)
    ensures K[t] as int == n % TWO32
  {
    hide *;
    NthPrime(p, t);
    RootOfEntry(t);
    CubeFraction(p, n, K[t]);
  }

  /** Section 4.2.2: K[t] is 32 bits of the fractional part of the cube root of the t-th prime. */
  lemma KIsCubeRoot(t: nat, p: int, n: nat)
    requires t < 64 && IsPrime(p) && |PrimesBelow(p)| == t
    requires n * n * n <= p * 0x1_0000_0000_0000_0000_0000_0000 < (n + 1) * (n + 1) * (n + 1)
    ensures K[t] as int == n % 0x1_0000_0000
  {
    hide IsPrime, PrimesBelow;
    assert CubeRoot(n, p * TWO96);
    hide *;
    KAsRoot(t, p, n);
  }

  predicate InitialOk(t: nat)
    requires t < 8
  {
    SquareRoot(SquarePart(PRIMES[t]) * TWO32 + H0[t] as int, PRIMES[t] * TWO64)
  }

  lemma InitialRow(t: nat, p: int, k: bv32)
    requires t < 8 && PRIMES[t] == p && H0[t] == k && SquareRoot(SquarePart(p) * TWO32 + k as int, p * TWO64)
    ensures InitialOk(t)
  {}

  lemma InitialFrom0()
    ensures forall t :: 0 <= t < 4 ==> InitialOk(t)
  {
    hide InitialOk;
    InitialRow(0, 2, 0x6a09e667);
    InitialRow(1, 3, 0xbb67ae85);
    InitialRow(2, 5, 0x3c6ef372);
    InitialRow(3, 7, 0xa54ff53a);
  }

  lemma InitialFrom4()
    ensures forall t :: 4 <= t < 8 ==> InitialOk(t)
  {
    hide InitialOk;
    InitialRow(4, 11, 0x510e527f);
    InitialRow(5, 13, 0x9b05688c);
    InitialRow(6, 17, 0x1f83d9ab);
    InitialRow(7, 19, 0x5be0cd19);
  }

  lemma SquareFraction(p: int, n: nat, k: bv32)
    requires SquareRoot(SquarePart(p) * TWO32 + k as int, p * TWO64) && SquareRoot(n, p * TWO64)
    ensures k as int == n % TWO32
  {
    hide SquareRoot, SquarePart;
    PartPositive(p);
    BitsAreWord(k);
    SquareRootUnique(SquarePart(p) * TWO32 + k as int, n, p * TWO64);
    LowWord(SquarePart(p), k as int);
  }

  lemma RootOfInitial(t: nat)
    requires t < 8
    ensures SquareRoot(SquarePart(PRIMES[t]) * TWO32 + H0[t] as int, PRIMES[t] * TWO64)
  {
    hide SquareRoot, SquarePart;
    InitialFrom0();
    InitialFrom4();
    assert InitialOk(t);
  }

  lemma H0AsRoot(t: nat, p: int, n: nat)
    requires t < 8 && IsPrime(p) && |PrimesBelow(p)| == t && SquareRoot(n, p * TWO64)
    ensures H0[t] as int == n % TWO32
  {
    hide *;
    NthPrime(p, t);
    RootOfInitial(t);
    SquareFraction(p, n, H0[t]);
  }

  /** Section 5.3.3: H0[t] is 32 bits of the fractional part of the square root of the t-th prime. */
  lemma H0IsSquareRoot(t: nat, p: int, n: nat)
    requires t < 8 && IsPrime(p) && |PrimesBelow(p)| == t
    requires n * n <= p * 0x1_0000_0000_0000_0000 < (n + 1) * (n + 1)
    ensures H0[t] as int == n % 0x1_0000_0000
  {
    hide IsPrime, PrimesBelow;
    assert SquareRoot(n, p * TWO64);
    hide *;
    H0AsRoot(t, p, n);
  }
}
