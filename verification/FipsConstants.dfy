/** What the functions and constants of FIPS 180-4 are: choice and majority bit by bit; the round
    constants are the first 32 bits of the fractional parts of the cube roots of the first 64 primes
    (section 4.2.2), and the initial hash value those of the square roots of the first eight (5.3.3). */
module FipsConstants {
  import opened Fips180

  // ---- Choice and majority, bit by bit ----

  /** Whatever bits the mask m selects: where x has ones the choice is y, where it has zeros z. */
  lemma ChooseBits(x: Word, y: Word, z: Word, m: Word)
    ensures x & m == m ==> Ch(x, y, z) & m == y & m
    ensures x & m == 0 ==> Ch(x, y, z) & m == z & m
  {}

  /** Where two of the three agree, that is the majority. */
  lemma MajorityBits(x: Word, y: Word, z: Word, m: Word)
    ensures x & m == y & m || x & m == z & m ==> Maj(x, y, z) & m == x & m
    ensures y & m == z & m ==> Maj(x, y, z) & m == y & m
  {}

  // ---- The first 64 primes ----

  ghost predicate IsPrime(n: nat) { n >= 2 && forall d :: 2 <= d < n ==> n % d != 0 }

  /** How many primes there are up to n. */
  ghost function CountPrimes(n: nat): nat {
    if n == 0 then 0 else CountPrimes(n - 1) + (if IsPrime(n) then 1 else 0)
  }

  function PrimeRow(r: nat): (row: seq<nat>)
    requires r < 8
    ensures |row| == 8
  {
    match r
    case 0 => [2, 3, 5, 7, 11, 13, 17, 19]
    case 1 => [23, 29, 31, 37, 41, 43, 47, 53]
    case 2 => [59, 61, 67, 71, 73, 79, 83, 89]
    case 3 => [97, 101, 103, 107, 109, 113, 127, 131]
    case 4 => [137, 139, 149, 151, 157, 163, 167, 173]
    case 5 => [179, 181, 191, 193, 197, 199, 211, 223]
    case 6 => [227, 229, 233, 239, 241, 251, 257, 263]
    case _ => [269, 271, 277, 281, 283, 293, 307, 311]
  }

  function Prime(t: nat): nat
    requires t < 64
  {
    PrimeRow(t / 8)[t % 8]
  }

  /** n is one of the primes below 18, or none of them divides it. */
  predicate Sieved(n: nat) {
    && n >= 2
    && (n == 2 || n % 2 != 0) && (n == 3 || n % 3 != 0) && (n == 5 || n % 5 != 0) && (n == 7 || n % 7 != 0)
    && (n == 11 || n % 11 != 0) && (n == 13 || n % 13 != 0) && (n == 17 || n % 17 != 0)
  }

  lemma SmallDivisor(n: nat, d: nat, k: nat)
    requires 2 <= d <= 17 && k >= 2 && n == d * k
    ensures !Sieved(n)
  {
    match d
    case 4 => Factor(n, 2, 2 * k);
    case 6 => Factor(n, 2, 3 * k);
    case 8 => Factor(n, 2, 4 * k);
    case 9 => Factor(n, 3, 3 * k);
    case 10 => Factor(n, 2, 5 * k);
    case 12 => Factor(n, 2, 6 * k);
    case 14 => Factor(n, 2, 7 * k);
    case 15 => Factor(n, 3, 5 * k);
    case 16 => Factor(n, 2, 8 * k);
    case 2 => Factor(n, 2, k);
    case 3 => Factor(n, 3, k);
    case 5 => Factor(n, 5, k);
    case 7 => Factor(n, 7, k);
    case 11 => Factor(n, 11, k);
    case 13 => Factor(n, 13, k);
    case _ => Factor(n, 17, k);
  }

  lemma Factor(n: nat, q: nat, m: nat)
    requires m >= 2
    requires || (q == 2 && n == 2 * m) || (q == 3 && n == 3 * m) || (q == 5 && n == 5 * m) || (q == 7 && n == 7 * m)
             || (q == 11 && n == 11 * m) || (q == 13 && n == 13 * m) || (q == 17 && n == 17 * m)
    ensures !Sieved(n)
  {
    hide Sieved;
    if q == 2 { NotSieved(n, 2); }
    if q == 3 { NotSieved(n, 3); }
    if q == 5 { NotSieved(n, 5); }
    if q == 7 { NotSieved(n, 7); }
    if q == 11 { NotSieved(n, 11); }
    if q == 13 { NotSieved(n, 13); }
    if q == 17 { NotSieved(n, 17); }
  }

  lemma NotSieved(n: nat, q: nat)
    requires q == 2 || q == 3 || q == 5 || q == 7 || q == 11 || q == 13 || q == 17
    requires n % q == 0 && n != q
    ensures !Sieved(n)
  {}

  lemma BothLarge(d: nat, k: nat)
    requires d >= 18 && k >= 18
    ensures d * k >= 324
  {
    assert d * k >= 18 * k;
  }

  lemma Quotient(n: nat, d: nat)
    requires 2 <= d < n && n % d == 0
    ensures n == d * (n / d) && n / d >= 2
  {
    var k := n / d;
    assert n == d * k;
    assert k < 2 ==> d * k <= d;
  }

  /** Below 18 squared the sieve finds exactly the primes. */
  lemma SievedExactly(n: nat)
    requires n < 324
    ensures IsPrime(n) <==> Sieved(n)
  {
    if n >= 2 && !IsPrime(n) {
      var d :| 2 <= d < n && n % d == 0;
      Quotient(n, d);
      var k := n / d;
      if d <= 17 {
        SmallDivisor(n, d, k);
      } else {
        if k >= 18 { BothLarge(d, k); }
        SmallDivisor(n, k, d);
      }
    }
  }

  /** Seven numbers at a time, which keeps the evaluation shallow. */
  predicate NoneIn(lo: nat, hi: nat)
    decreases hi - lo
  {
    lo >= hi
    || (&& !Sieved(lo) && (lo + 1 < hi ==> !Sieved(lo + 1)) && (lo + 2 < hi ==> !Sieved(lo + 2))
        && (lo + 3 < hi ==> !Sieved(lo + 3)) && (lo + 4 < hi ==> !Sieved(lo + 4)) && (lo + 5 < hi ==> !Sieved(lo + 5))
        && (lo + 6 < hi ==> !Sieved(lo + 6)) && NoneIn(lo + 7, hi))
  }

  lemma {:induction false} NoneInAt(lo: nat, hi: nat, n: nat)
    requires lo <= n < hi && NoneIn(lo, hi)
    ensures !Sieved(n)
    decreases hi - lo
  {
    hide Sieved;
    if n >= lo + 7 { NoneInAt(lo + 7, hi, n); }
  }

  lemma {:induction false} CountSame(p: nat, q: nat)
    requires p <= q < 324 && NoneIn(p + 1, q + 1)
    ensures CountPrimes(q) == CountPrimes(p)
  {
    CountUpTo(p, q, p + 1, q + 1);
  }

  lemma {:induction false} CountUpTo(p: nat, q: nat, lo: nat, hi: nat)
    requires lo <= p + 1 && p <= q < hi <= 324 && NoneIn(lo, hi)
    ensures CountPrimes(q) == CountPrimes(p)
    decreases q - p
  {
    if p < q {
      NoneInAt(lo, hi, q);
      SievedExactly(q);
      CountUpTo(p, q - 1, lo, hi);
    }
  }

  /** q is the next number after p that passes the sieve. */
  predicate Follows(p: nat, q: nat) { p < q < 324 && Sieved(q) && NoneIn(p + 1, q) }

  predicate Next(t: nat)
    requires t < 64
  {
    Follows(if t == 0 then 1 else Prime(t - 1), Prime(t))
  }

  lemma CountNone()
    ensures CountPrimes(1) == 0
  {
    assert CountPrimes(0) == 0;
  }

  // ---- Roots ----

  function Number(w: Word): nat { w as nat }

  /** w is the first 32 binary digits after the point of the cube root of p, whose integer part is a. */
  predicate CubeRoot(p: nat, a: nat, w: nat) {
    var c := a * 0x1_0000_0000 + w;
    c * c * c <= p * 0x1_0000_0000_0000_0000_0000_0000 < (c + 1) * (c + 1) * (c + 1)
  }

  predicate SquareRoot(p: nat, a: nat, w: nat) {
    var c := a * 0x1_0000_0000 + w;
    c * c <= p * 0x1_0000_0000_0000_0000 < (c + 1) * (c + 1)
  }

  lemma Step(t: nat, p: nat, q: nat)
    requires t < 64 && p == (if t == 0 then 1 else Prime(t - 1)) && q == Prime(t) && Follows(p, q)
    ensures Next(t)
  {}

  ghost predicate IsFraction(t: nat)
    requires t < 64
  {
    exists a: nat :: CubeRoot(Prime(t), a, Number(RoundConstant(t)))
  }

  /** c is the root, scaled by 2^32. */
  lemma Root(t: nat, c: nat)
    requires t < 64 && c % 0x1_0000_0000 == Number(RoundConstant(t))
    requires c * c * c <= Prime(t) * 0x1_0000_0000_0000_0000_0000_0000 < (c + 1) * (c + 1) * (c + 1)
    ensures IsFraction(t)
  {
    hide Prime, RoundConstant, Number;
    var a := c / 0x1_0000_0000;
    assert a * 0x1_0000_0000 + Number(RoundConstant(t)) == c;
    assert CubeRoot(Prime(t), a, Number(RoundConstant(t)));
  }

  // The tables, piece by piece.

  lemma Next0()
    ensures forall t :: 0 <= t < 8 ==> Next(t)
  {
    hide Next;
    Step(0, 1, 2); Step(1, 2, 3); Step(2, 3, 5); Step(3, 5, 7);
    Step(4, 7, 11); Step(5, 11, 13); Step(6, 13, 17); Step(7, 17, 19);
  }

  lemma Next8()
    ensures forall t :: 8 <= t < 16 ==> Next(t)
  {
    hide Next;
    Step(8, 19, 23); Step(9, 23, 29); Step(10, 29, 31); Step(11, 31, 37);
    Step(12, 37, 41); Step(13, 41, 43); Step(14, 43, 47); Step(15, 47, 53);
  }

  lemma Next16()
    ensures forall t :: 16 <= t < 24 ==> Next(t)
  {
    hide Next;
    Step(16, 53, 59); Step(17, 59, 61); Step(18, 61, 67); Step(19, 67, 71);
    Step(20, 71, 73); Step(21, 73, 79); Step(22, 79, 83); Step(23, 83, 89);
  }

  lemma Next24()
    ensures forall t :: 24 <= t < 32 ==> Next(t)
  {
    hide Next;
    Step(24, 89, 97); Step(25, 97, 101); Step(26, 101, 103); Step(27, 103, 107);
    Step(28, 107, 109); Step(29, 109, 113); Step(30, 113, 127); Step(31, 127, 131);
  }

  lemma Next32()
    ensures forall t :: 32 <= t < 40 ==> Next(t)
  {
    hide Next;
    Step(32, 131, 137); Step(33, 137, 139); Step(34, 139, 149); Step(35, 149, 151);
    Step(36, 151, 157); Step(37, 157, 163); Step(38, 163, 167); Step(39, 167, 173);
  }

  lemma Next40()
    ensures forall t :: 40 <= t < 48 ==> Next(t)
  {
    hide Next;
    Step(40, 173, 179); Step(41, 179, 181); Step(42, 181, 191); Step(43, 191, 193);
    Step(44, 193, 197); Step(45, 197, 199); Step(46, 199, 211); Step(47, 211, 223);
  }

  lemma Next48()
    ensures forall t :: 48 <= t < 56 ==> Next(t)
  {
    hide Next;
    Step(48, 223, 227); Step(49, 227, 229); Step(50, 229, 233); Step(51, 233, 239);
    Step(52, 239, 241); Step(53, 241, 251); Step(54, 251, 257); Step(55, 257, 263);
  }

  lemma Next56()
    ensures forall t :: 56 <= t < 64 ==> Next(t)
  {
    hide Next;
    Step(56, 263, 269); Step(57, 269, 271); Step(58, 271, 277); Step(59, 277, 281);
    Step(60, 281, 283); Step(61, 283, 293); Step(62, 293, 307); Step(63, 307, 311);
  }

  lemma Roots0()
    ensures forall t :: 0 <= t < 8 ==> IsFraction(t)
  {
    hide IsFraction;
    Root(0, 0x1428a2f98); Root(1, 0x171374491); Root(2, 0x1b5c0fbcf); Root(3, 0x1e9b5dba5);
    Root(4, 0x23956c25b); Root(5, 0x259f111f1); Root(6, 0x2923f82a4); Root(7, 0x2ab1c5ed5);
  }

  lemma Roots8()
    ensures forall t :: 8 <= t < 16 ==> IsFraction(t)
  {
    hide IsFraction;
    Root(8, 0x2d807aa98); Root(9, 0x312835b01); Root(10, 0x3243185be); Root(11, 0x3550c7dc3);
    Root(12, 0x372be5d74); Root(13, 0x380deb1fe); Root(14, 0x39bdc06a7); Root(15, 0x3c19bf174);
  }

  lemma Roots16()
    ensures forall t :: 16 <= t < 24 ==> IsFraction(t)
  {
    hide IsFraction;
    Root(16, 0x3e49b69c1); Root(17, 0x3efbe4786); Root(18, 0x40fc19dc6); Root(19, 0x4240ca1cc);
    Root(20, 0x42de92c6f); Root(21, 0x44a7484aa); Root(22, 0x45cb0a9dc); Root(23, 0x476f988da);
  }

  lemma Roots24()
    ensures forall t :: 24 <= t < 32 ==> IsFraction(t)
  {
    hide IsFraction;
    Root(24, 0x4983e5152); Root(25, 0x4a831c66d); Root(26, 0x4b00327c8); Root(27, 0x4bf597fc7);
    Root(28, 0x4c6e00bf3); Root(29, 0x4d5a79147); Root(30, 0x506ca6351); Root(31, 0x514292967);
  }

  lemma Roots32()
    ensures forall t :: 32 <= t < 40 ==> IsFraction(t)
  {
    hide IsFraction;
    Root(32, 0x527b70a85); Root(33, 0x52e1b2138); Root(34, 0x54d2c6dfc); Root(35, 0x553380d13);
    Root(36, 0x5650a7354); Root(37, 0x5766a0abb); Root(38, 0x581c2c92e); Root(39, 0x592722c85);
  }

  lemma Roots40()
    ensures forall t :: 40 <= t < 48 ==> IsFraction(t)
  {
    hide IsFraction;
    Root(40, 0x5a2bfe8a1); Root(41, 0x5a81a664b); Root(42, 0x5c24b8b70); Root(43, 0x5c76c51a3);
    Root(44, 0x5d192e819); Root(45, 0x5d6990624); Root(46, 0x5f40e3585); Root(47, 0x6106aa070);
  }

  lemma Roots48()
    ensures forall t :: 48 <= t < 56 ==> IsFraction(t)
  {
    hide IsFraction;
    Root(48, 0x619a4c116); Root(49, 0x61e376c08); Root(50, 0x62748774c); Root(51, 0x634b0bcb5);
    Root(52, 0x6391c0cb3); Root(53, 0x64ed8aa4a); Root(54, 0x65b9cca4f); Root(55, 0x6682e6ff3);
  }

  lemma Roots56()
    ensures forall t :: 56 <= t < 64 ==> IsFraction(t)
  {
    hide IsFraction;
    Root(56, 0x6748f82ee); Root(57, 0x678a5636f); Root(58, 0x684c87814); Root(59, 0x68cc70208);
    Root(60, 0x690befffa); Root(61, 0x6a4506ceb); Root(62, 0x6bef9a3f7); Root(63, 0x6c67178f2);
  }

  lemma NextTable(t: nat)
    requires t < 64
    ensures Next(t)
  {
    hide Next;
    match t / 8
    case 0 => Next0();
    case 1 => Next8();
    case 2 => Next16();
    case 3 => Next24();
    case 4 => Next32();
    case 5 => Next40();
    case 6 => Next48();
    case _ => Next56();
  }

  lemma RootTable(t: nat)
    requires t < 64
    ensures IsFraction(t)
  {
    hide IsFraction;
    match t / 8
    case 0 => Roots0();
    case 1 => Roots8();
    case 2 => Roots16();
    case 3 => Roots24();
    case 4 => Roots32();
    case 5 => Roots40();
    case 6 => Roots48();
    case _ => Roots56();
  }

  /** Prime(t) is the prime number with exactly t primes before it. */
  lemma {:induction false} NthPrime(t: nat)
    requires t < 64
    ensures IsPrime(Prime(t)) && CountPrimes(Prime(t)) == t + 1
  {
    hide Prime, Sieved, NoneIn, IsPrime;
    NextTable(t);
    SievedExactly(Prime(t));
    if t == 0 {
      CountNone();
      CountSame(1, Prime(t) - 1);
    } else {
      NthPrime(t - 1);
      CountSame(Prime(t - 1), Prime(t) - 1);
    }
  }

  /** The round constants are the first 32 bits of the fractional parts of the cube roots of the
      first 64 primes. */
  lemma RoundConstantsExactly(t: nat)
    requires t < 64
    ensures exists a: nat :: CubeRoot(Prime(t), a, Number(RoundConstant(t)))
  {
    hide CubeRoot, Prime, Number, RoundConstant;
    RootTable(t);
  }

  ghost predicate IsSquareFraction(t: nat)
    requires t < 8
  {
    exists a: nat :: SquareRoot(Prime(t), a, Number(INITIAL_HASH[t]))
  }

  lemma SquareRootOf(t: nat, c: nat)
    requires t < 8 && c % 0x1_0000_0000 == Number(INITIAL_HASH[t])
    requires c * c <= Prime(t) * 0x1_0000_0000_0000_0000 < (c + 1) * (c + 1)
    ensures IsSquareFraction(t)
  {
    hide Prime, Number;
    var a := c / 0x1_0000_0000;
    assert a * 0x1_0000_0000 + Number(INITIAL_HASH[t]) == c;
    assert SquareRoot(Prime(t), a, Number(INITIAL_HASH[t]));
  }

  lemma SquareRoots()
    ensures forall t :: 0 <= t < 8 ==> IsSquareFraction(t)
  {
    hide IsSquareFraction;
    SquareRootOf(0, 0x16a09e667); SquareRootOf(1, 0x1bb67ae85); SquareRootOf(2, 0x23c6ef372); SquareRootOf(3, 0x2a54ff53a);
    SquareRootOf(4, 0x3510e527f); SquareRootOf(5, 0x39b05688c); SquareRootOf(6, 0x41f83d9ab); SquareRootOf(7, 0x45be0cd19);
  }

  /** The initial hash value is made of the square roots of the first eight. */
  lemma InitialHashExactly(t: nat)
    requires t < 8
    ensures exists a: nat :: SquareRoot(Prime(t), a, Number(INITIAL_HASH[t]))
  {
    hide Prime, Number;
    SquareRoots();
    assert IsSquareFraction(t);
  }
}
