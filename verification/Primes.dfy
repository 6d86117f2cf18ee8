/** The first 64 primes. */
module Primes {
  import opened Arithmetic

  ghost predicate IsPrime(p: int) {
    p >= 2 && forall d :: 2 <= d < p ==> p % d != 0
  }

  ghost function PrimesBelow(n: int): set<int> {
    set q | 0 <= q < n && IsPrime(q)
  }

  type Numbers64 = s: seq<int> | |s| == 64 witness seq(64, _ => 0)

  const PRIMES: Numbers64 := [
    2, 3, 5, 7, 11, 13, 17, 19, 23, 29, 31, 37, 41, 43, 47, 53
  ] + [
    59, 61, 67, 71, 73, 79, 83, 89, 97, 101, 103, 107, 109, 113, 127, 131
  ] + [
    137, 139, 149, 151, 157, 163, 167, 173, 179, 181, 191, 193, 197, 199, 211, 223
  ] + [
    227, 229, 233, 239, 241, 251, 257, 263, 269, 271, 277, 281, 283, 293, 307, 311
  ]

  // ----- Trial division

  lemma SmallFactor(n: int, d: int)
    requires 2 <= d <= 18 && n % d == 0
    ensures n % 2 == 0 || n % 3 == 0 || n % 5 == 0 || n % 7 == 0 || n % 11 == 0 || n % 13 == 0 || n % 17 == 0
  {
    match d
    case 4 => FactorOf(n, 2, 2);
    case 6 => FactorOf(n, 2, 3);
    case 8 => FactorOf(n, 2, 4);
    case 9 => FactorOf(n, 3, 3);
    case 10 => FactorOf(n, 2, 5);
    case 12 => FactorOf(n, 2, 6);
    case 14 => FactorOf(n, 2, 7);
    case 15 => FactorOf(n, 3, 5);
    case 16 => FactorOf(n, 2, 8);
    case 18 => FactorOf(n, 2, 9);
    case _ =>
  }

  lemma FactorOf(n: int, d: int, e: int)
    requires d > 0 && e > 0 && n % (d * e) == 0
    ensures n % d == 0
  {
    var q := n / (d * e);
    assert n == d * (e * q);
    ModUnique(n, d, e * q, 0);
  }

  lemma TwoThreePrime()
    ensures IsPrime(2) && IsPrime(3)
  {}

  /** A number below 5 * 5 without a factor of 2 or 3 is prime. */
  lemma SmallPrime(n: int)
    requires 4 < n < 25 && n % 2 != 0 && n % 3 != 0
    ensures IsPrime(n)
  {
    forall d | 2 <= d < n ensures n % d != 0 {
      if n % d == 0 {
        var e := n / d;
        assert n == d * e;
        if d >= 5 { Cofactor(n, d, e, 5); }
        FactorOf(n, if d < 5 then d else e, 1);
        if (if d < 5 then d else e) == 4 { FactorOf(n, 2, 2); }
      }
    }
  }

  /** A number below 19 * 19 without a prime factor below 19 is prime. */
  lemma TrialDivision(n: int)
    requires 18 < n < 361
    requires n % 2 != 0 && n % 3 != 0 && n % 5 != 0 && n % 7 != 0 && n % 11 != 0 && n % 13 != 0 && n % 17 != 0
    ensures IsPrime(n)
  {
    forall d | 2 <= d < n ensures n % d != 0 {
      if n % d == 0 {
        var e := n / d;
        assert n == d * e;
        if d <= 18 {
          SmallFactor(n, d);
        } else {
          Cofactor(n, d, e, 19);
          SmallFactor(n, e);
        }
      }
    }
  }

  lemma MulMonotone(a: int, b: int, c: int)
    requires a <= b && 0 <= c
    ensures a * c <= b * c
  {
    MulNonNegative(b - a, c);
  }

  lemma Cofactor(n: int, d: int, e: int, r: int)
    requires 0 < r <= d < n < r * r && n == d * e
    ensures 2 <= e < r && n % e == 0
  {
    if e <= 1 { MulMonotone(e, 1, d); }
    if e >= r {
      MulMonotone(r, e, d);
      MulMonotone(r, d, r);
    }
    ModUnique(n, e, d, 0);
  }

  /** A prime below 19 other than m divides m. */
  predicate HasSmallFactor(m: int) {
    || (m > 2 && m % 2 == 0) || (m > 3 && m % 3 == 0) || (m > 5 && m % 5 == 0) || (m > 7 && m % 7 == 0)
    || (m > 11 && m % 11 == 0) || (m > 13 && m % 13 == 0) || (m > 17 && m % 17 == 0)
  }

  // ----- The table, entry by entry

  /** Entry t of the primes: a prime, and composites up to the next entry. */
  ghost predicate PrimeOk(t: nat)
    requires t < 64
  {
    && IsPrime(PRIMES[t])
    && (t < 63 ==> PRIMES[t] < PRIMES[t + 1] && Gap(PRIMES[t], PRIMES[t + 1]))
  }

  ghost predicate Gap(p: int, next: int) {
    forall m :: p < m < next ==> HasSmallFactor(m)
  }

  predicate AllComposite(m: int, next: int)
    decreases next - m
  {
    m >= next || (HasSmallFactor(m) && AllComposite(m + 1, next))
  }

  lemma {:induction false} CompositeGap(m: int, next: int)
    requires AllComposite(m, next)
    ensures Gap(m - 1, next)
    decreases next - m
  {
    hide HasSmallFactor;
    if m < next { CompositeGap(m + 1, next); }
  }

  predicate Coprime(n: int) {
    if n < 4 then n == 2 || n == 3
    else if n < 19 then n % 2 != 0 && n % 3 != 0
    else n < 361 && n % 2 != 0 && n % 3 != 0 && n % 5 != 0 && n % 7 != 0 && n % 11 != 0 && n % 13 != 0 && n % 17 != 0
  }

  lemma CoprimePrime(n: int)
    requires Coprime(n)
    ensures IsPrime(n)
  {
    hide IsPrime;
    if n < 4 { TwoThreePrime(); } else if n < 19 { SmallPrime(n); } else { TrialDivision(n); }
  }

  lemma PrimeRow(t: nat, p: int, next: int)
    requires t < 64 && PRIMES[t] == p && Coprime(p) && (t < 63 ==> PRIMES[t + 1] == next)
    requires p < next && AllComposite(p + 1, next)
    ensures PrimeOk(t)
  {
    hide IsPrime, Gap, Coprime, AllComposite;
    CoprimePrime(p);
    CompositeGap(p + 1, next);
  }

  lemma EntriesFrom0()
    ensures PRIMES[0] == 2 && PRIMES[1] == 3 && PRIMES[2] == 5 && PRIMES[3] == 7
    ensures PRIMES[4] == 11 && PRIMES[5] == 13 && PRIMES[6] == 17 && PRIMES[7] == 19 && PRIMES[8] == 23
  {}

  lemma EntriesFrom8()
    ensures PRIMES[8] == 23 && PRIMES[9] == 29 && PRIMES[10] == 31 && PRIMES[11] == 37
    ensures PRIMES[12] == 41 && PRIMES[13] == 43 && PRIMES[14] == 47 && PRIMES[15] == 53 && PRIMES[16] == 59
  {}

  lemma EntriesFrom16()
    ensures PRIMES[16] == 59 && PRIMES[17] == 61 && PRIMES[18] == 67 && PRIMES[19] == 71
    ensures PRIMES[20] == 73 && PRIMES[21] == 79 && PRIMES[22] == 83 && PRIMES[23] == 89 && PRIMES[24] == 97
  {}

  lemma EntriesFrom24()
    ensures PRIMES[24] == 97 && PRIMES[25] == 101 && PRIMES[26] == 103 && PRIMES[27] == 107
    ensures PRIMES[28] == 109 && PRIMES[29] == 113 && PRIMES[30] == 127 && PRIMES[31] == 131 && PRIMES[32] == 137
  {}

  lemma EntriesFrom32()
    ensures PRIMES[32] == 137 && PRIMES[33] == 139 && PRIMES[34] == 149 && PRIMES[35] == 151
    ensures PRIMES[36] == 157 && PRIMES[37] == 163 && PRIMES[38] == 167 && PRIMES[39] == 173 && PRIMES[40] == 179
  {}

  lemma EntriesFrom40()
    ensures PRIMES[40] == 179 && PRIMES[41] == 181 && PRIMES[42] == 191 && PRIMES[43] == 193
    ensures PRIMES[44] == 197 && PRIMES[45] == 199 && PRIMES[46] == 211 && PRIMES[47] == 223 && PRIMES[48] == 227
  {}

  lemma EntriesFrom48()
    ensures PRIMES[48] == 227 && PRIMES[49] == 229 && PRIMES[50] == 233 && PRIMES[51] == 239
    ensures PRIMES[52] == 241 && PRIMES[53] == 251 && PRIMES[54] == 257 && PRIMES[55] == 263 && PRIMES[56] == 269
  {}

  lemma EntriesFrom56()
    ensures PRIMES[56] == 269 && PRIMES[57] == 271 && PRIMES[58] == 277 && PRIMES[59] == 281
    ensures PRIMES[60] == 283 && PRIMES[61] == 293 && PRIMES[62] == 307 && PRIMES[63] == 311
  {}

  lemma PrimesFrom0()
    ensures forall t :: 0 <= t < 8 ==> PrimeOk(t)
  {
    hide PrimeOk, PRIMES;
    EntriesFrom0();
    assert AllComposite(3, 3);
    PrimeRow(0, 2, 3);
    assert AllComposite(4, 5);
    PrimeRow(1, 3, 5);
    assert AllComposite(6, 7);
    PrimeRow(2, 5, 7);
    assert AllComposite(8, 11);
    PrimeRow(3, 7, 11);
    assert AllComposite(12, 13);
    PrimeRow(4, 11, 13);
    assert AllComposite(14, 17);
    PrimeRow(5, 13, 17);
    assert AllComposite(18, 19);
    PrimeRow(6, 17, 19);
    assert AllComposite(20, 23);
    PrimeRow(7, 19, 23);
  }

  lemma PrimesFrom8()
    ensures forall t :: 8 <= t < 16 ==> PrimeOk(t)
  {
    hide PrimeOk, PRIMES;
    EntriesFrom8();
    assert AllComposite(24, 29);
    PrimeRow(8, 23, 29);
    assert AllComposite(30, 31);
    PrimeRow(9, 29, 31);
    assert AllComposite(32, 37);
    PrimeRow(10, 31, 37);
    assert AllComposite(38, 41);
    PrimeRow(11, 37, 41);
    assert AllComposite(42, 43);
    PrimeRow(12, 41, 43);
    assert AllComposite(44, 47);
    PrimeRow(13, 43, 47);
    assert AllComposite(48, 53);
    PrimeRow(14, 47, 53);
    assert AllComposite(54, 59);
    PrimeRow(15, 53, 59);
  }

  lemma PrimesFrom16()
    ensures forall t :: 16 <= t < 24 ==> PrimeOk(t)
  {
    hide PrimeOk, PRIMES;
    EntriesFrom16();
    assert AllComposite(60, 61);
    PrimeRow(16, 59, 61);
    assert AllComposite(62, 67);
    PrimeRow(17, 61, 67);
    assert AllComposite(68, 71);
    PrimeRow(18, 67, 71);
    assert AllComposite(72, 73);
    PrimeRow(19, 71, 73);
    assert AllComposite(74, 79);
    PrimeRow(20, 73, 79);
    assert AllComposite(80, 83);
    PrimeRow(21, 79, 83);
    assert AllComposite(84, 89);
    PrimeRow(22, 83, 89);
    assert AllComposite(90, 97);
    PrimeRow(23, 89, 97);
  }

  lemma PrimesFrom24()
    ensures forall t :: 24 <= t < 32 ==> PrimeOk(t)
  {
    hide PrimeOk, PRIMES;
    EntriesFrom24();
    assert AllComposite(98, 101);
    PrimeRow(24, 97, 101);
    assert AllComposite(102, 103);
    PrimeRow(25, 101, 103);
    assert AllComposite(104, 107);
    PrimeRow(26, 103, 107);
    assert AllComposite(108, 109);
    PrimeRow(27, 107, 109);
    assert AllComposite(110, 113);
    PrimeRow(28, 109, 113);
    assert AllComposite(114, 127);
    PrimeRow(29, 113, 127);
    assert AllComposite(128, 131);
    PrimeRow(30, 127, 131);
    assert AllComposite(132, 137);
    PrimeRow(31, 131, 137);
  }

  lemma PrimesFrom32()
    ensures forall t :: 32 <= t < 40 ==> PrimeOk(t)
  {
    hide PrimeOk, PRIMES;
    EntriesFrom32();
    assert AllComposite(138, 139);
    PrimeRow(32, 137, 139);
    assert AllComposite(140, 149);
    PrimeRow(33, 139, 149);
    assert AllComposite(150, 151);
    PrimeRow(34, 149, 151);
    assert AllComposite(152, 157);
    PrimeRow(35, 151, 157);
    assert AllComposite(158, 163);
    PrimeRow(36, 157, 163);
    assert AllComposite(164, 167);
    PrimeRow(37, 163, 167);
    assert AllComposite(168, 173);
    PrimeRow(38, 167, 173);
    assert AllComposite(174, 179);
    PrimeRow(39, 173, 179);
  }

  lemma PrimesFrom40()
    ensures forall t :: 40 <= t < 48 ==> PrimeOk(t)
  {
    hide PrimeOk, PRIMES;
    EntriesFrom40();
    assert AllComposite(180, 181);
    PrimeRow(40, 179, 181);
    assert AllComposite(182, 191);
    PrimeRow(41, 181, 191);
    assert AllComposite(192, 193);
    PrimeRow(42, 191, 193);
    assert AllComposite(194, 197);
    PrimeRow(43, 193, 197);
    assert AllComposite(198, 199);
    PrimeRow(44, 197, 199);
    assert AllComposite(200, 211);
    PrimeRow(45, 199, 211);
    assert AllComposite(212, 223);
    PrimeRow(46, 211, 223);
    assert AllComposite(224, 227);
    PrimeRow(47, 223, 227);
  }

  lemma PrimesFrom48()
    ensures forall t :: 48 <= t < 56 ==> PrimeOk(t)
  {
    hide PrimeOk, PRIMES;
    EntriesFrom48();
    assert AllComposite(228, 229);
    PrimeRow(48, 227, 229);
    assert AllComposite(230, 233);
    PrimeRow(49, 229, 233);
    assert AllComposite(234, 239);
    PrimeRow(50, 233, 239);
    assert AllComposite(240, 241);
    PrimeRow(51, 239, 241);
    assert AllComposite(242, 251);
    PrimeRow(52, 241, 251);
    assert AllComposite(252, 257);
    PrimeRow(53, 251, 257);
    assert AllComposite(258, 263);
    PrimeRow(54, 257, 263);
    assert AllComposite(264, 269);
    PrimeRow(55, 263, 269);
  }

  lemma PrimesFrom56()
    ensures forall t :: 56 <= t < 64 ==> PrimeOk(t)
  {
    hide PrimeOk, PRIMES;
    EntriesFrom56();
    assert AllComposite(270, 271);
    PrimeRow(56, 269, 271);
    assert AllComposite(272, 277);
    PrimeRow(57, 271, 277);
    assert AllComposite(278, 281);
    PrimeRow(58, 277, 281);
    assert AllComposite(282, 283);
    PrimeRow(59, 281, 283);
    assert AllComposite(284, 293);
    PrimeRow(60, 283, 293);
    assert AllComposite(294, 307);
    PrimeRow(61, 293, 307);
    assert AllComposite(308, 311);
    PrimeRow(62, 307, 311);
    assert AllComposite(312, 312);
    PrimeRow(63, 311, 312);
  }

  lemma AllPrimes()
    ensures forall t :: 0 <= t < 64 ==> PrimeOk(t)
  {
    hide PrimeOk;
    PrimesFrom0();
    PrimesFrom8();
    PrimesFrom16();
    PrimesFrom24();
    PrimesFrom32();
    PrimesFrom40();
    PrimesFrom48();
    PrimesFrom56();
  }

  // ----- The t-th prime

  lemma GapNotPrime(p: int, next: int, m: int)
    requires Gap(p, next) && p < m < next
    ensures !IsPrime(m)
  {
    assert HasSmallFactor(m);
  }

  lemma FirstPrime()
    ensures PRIMES[0] == 2
  {}

  /** The primes below entry t are the entries before it. */
  lemma {:induction false} BelowEntry(t: nat)
    requires t < 64
    ensures IsPrime(PRIMES[t]) && |PrimesBelow(PRIMES[t])| == t
  {
    AllPrimes();
    assert PrimeOk(t);
    if t == 0 {
      FirstPrime();
      assert PrimesBelow(2) == {};
    } else {
      BelowEntry(t - 1);
      assert PrimeOk(t - 1);
      NextEntry(PRIMES[t - 1], PRIMES[t]);
    }
  }

  lemma NextEntry(p: int, next: int)
    requires IsPrime(p) && p < next && Gap(p, next)
    ensures PrimesBelow(next) == PrimesBelow(p) + {p} && p !in PrimesBelow(p)
  {
    hide IsPrime, Gap;
    assert p >= 2 by { AtLeastTwo(p); }
    forall q | q in PrimesBelow(next) ensures q in PrimesBelow(p) + {p} {
      if p < q { GapNotPrime(p, next, q); }
    }
  }

  lemma AtLeastTwo(p: int)
    requires IsPrime(p)
    ensures p >= 2
  {}

  lemma MorePrimes(p: int, q: int)
    requires p < q && IsPrime(p)
    ensures |PrimesBelow(p)| < |PrimesBelow(q)|
  {
    hide IsPrime;
    AtLeastTwo(p);
    Larger(PrimesBelow(p), PrimesBelow(q), p);
  }

  lemma Larger(a: set<int>, b: set<int>, x: int)
    requires a <= b && x in b && x !in a
    ensures |a| < |b|
  {
    assert b == (b - a) + a && x in b - a;
    assert |b| == |b - a| + |a|;
  }

  /** Entry t is the only prime with t primes below it. */
  lemma NthPrime(p: int, t: nat)
    requires t < 64 && IsPrime(p) && |PrimesBelow(p)| == t
    ensures p == PRIMES[t]
  {
    hide IsPrime, PrimesBelow;
    BelowEntry(t);
    if p < PRIMES[t] { MorePrimes(p, PRIMES[t]); }
    if PRIMES[t] < p { MorePrimes(PRIMES[t], p); }
  }
}
