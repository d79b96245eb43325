/** What FIPS 180-4 says of its constants, word functions and padding without giving them as code:
    roots of primes, bits, and an example. */
module Sha256Standard {
  import opened Sha256Model

  // ---------------------------------------------------------------- the constants, sections 4.2.2 and 5.3.3

  ghost predicate IsPrime(n: nat) {
    n >= 2 && forall d | 2 <= d < n :: n % d != 0
  }

  /** The first prime above n is p. */
  ghost predicate NextPrime(n: nat, p: nat) {
    n < p && IsPrime(p) && forall m | n < m < p :: !IsPrime(m)
  }

  const PRIMES: seq<nat> :=
    [2, 3, 5, 7, 11, 13, 17, 19, 23, 29, 31, 37, 41, 43, 47, 53] +
    [59, 61, 67, 71, 73, 79, 83, 89, 97, 101, 103, 107, 109, 113, 127, 131] +
    [137, 139, 149, 151, 157, 163, 167, 173, 179, 181, 191, 193, 197, 199, 211, 223] +
    [227, 229, 233, 239, 241, 251, 257, 263, 269, 271, 277, 281, 283, 293, 307, 311]

  /** k is the first 32 bits of the fractional part of the cube root of p. */
  ghost predicate CubeRootBits(p: nat, k: Word) {
    exists x: nat :: x % 0x1_0000_0000 == k as nat && IsCubeRoot(x, p)
  }

  predicate IsCubeRoot(x: nat, p: nat) {
    x * x * x <= p * 0x1_00000000_00000000_00000000 < (x + 1) * (x + 1) * (x + 1)
  }

  ghost predicate SquareRootBits(p: nat, k: Word) {
    exists x: nat :: x % 0x1_0000_0000 == k as nat && IsSquareRoot(x, p)
  }

  predicate IsSquareRoot(x: nat, p: nat) {
    x * x <= p * 0x1_00000000_00000000 < (x + 1) * (x + 1)
  }

  /** n has a divisor up to 17 other than itself. */
  predicate SmallFactor(n: nat) {
    (n > 2 && n % 2 == 0) || (n > 3 && n % 3 == 0) || (n > 5 && n % 5 == 0) || (n > 7 && n % 7 == 0)
    || (n > 11 && n % 11 == 0) || (n > 13 && n % 13 == 0) || (n > 17 && n % 17 == 0)
  }

  predicate AllFactored(n: nat, p: nat)
    decreases p - n
  {
    n >= p || (SmallFactor(n) && AllFactored(n + 1, p))
  }

  lemma {:induction false} FactoredAt(n: nat, p: nat, m: nat)
    requires AllFactored(n, p) && n <= m < p
    ensures !IsPrime(m)
    decreases p - n
  {
    if n < m {
      FactoredAt(n + 1, p, m);
    }
  }

  /** A proper divisor beyond 17 of a number below 18 * 18 has a cofactor up to 17. */
  lemma NoSmallFactor(p: nat)
    requires 2 <= p < 324 && !SmallFactor(p)
    ensures IsPrime(p)
  {
    hide SmallFactor;
    forall d | 2 <= d < p ensures p % d != 0 {
      if p % d == 0 {
        Exact(p, d);
        DivisorIsSmall(p, d, p / d);
      }
    }
  }

  lemma Exact(p: nat, d: nat)
    requires d > 0 && p % d == 0
    ensures p == d * (p / d)
  {
  }

  lemma DivisorIsSmall(p: nat, d: nat, e: nat)
    requires p == d * e && 2 <= d < p && p < 324
    ensures SmallFactor(p)
  {
    assert 2 <= e;
    if d >= 18 {
      assert e >= 18 ==> d * e >= 18 * 18;
      FactorUpTo17(p, e, d);
    } else {
      FactorUpTo17(p, d, e);
    }
  }

  lemma FactorUpTo17(p: nat, s: nat, o: nat)
    requires p == s * o && 2 <= s <= 17 && 2 <= o
    ensures SmallFactor(p)
  {
    var a := if s % 2 == 0 then 2 else if s % 3 == 0 then 3 else s;
    var m := s / a;
    assert a == 2 || a == 3 || a == 5 || a == 7 || a == 11 || a == 13 || a == 17;
    assert s == a * m;
    Divides(p, a, m, o);
  }

  lemma Divides(p: nat, a: nat, m: nat, o: nat)
    requires a == 2 || a == 3 || a == 5 || a == 7 || a == 11 || a == 13 || a == 17
    requires p == a * m * o && m > 0 && o >= 2
    ensures p % a == 0 && p > a
  {
    var k := m * o;
    assert k >= 2;
    assert p == a * k;
    Divided(a, k);
  }

  lemma Divided(a: nat, k: nat)
    requires a > 0
    ensures (a * k) % a == 0
  {
    var q, r := (a * k) / a, (a * k) % a;
    assert a * k == a * q + r;
    assert a * (k - q) == a * k - a * q;
    LessThanOne(a, k - q, r);
  }

  lemma LessThanOne(a: nat, x: int, r: nat)
    requires r < a && a * x == r
    ensures r == 0
  {
    assert x >= 1 ==> a * x >= a;
  }

  /** Constant t belongs to the t-th prime. */
  ghost predicate RootOfPrime(t: nat)
    requires t < 64
  {
    NextPrime(if t == 0 then 1 else PRIMES[t - 1], PRIMES[t]) && CubeRootBits(PRIMES[t], K[t])
  }

  lemma Root(t: nat, n: nat, p: nat, k: Word, x: nat)
    requires t < 64 && PRIMES[t] == p && K[t] == k && n == if t == 0 then 2 else PRIMES[t - 1] + 1
    requires 2 <= n <= p < 324 && !SmallFactor(p) && AllFactored(n, p)
    requires x % 0x1_0000_0000 == k as nat && IsCubeRoot(x, p)
    ensures RootOfPrime(t)
  {
    hide IsCubeRoot;
    NoSmallFactor(p);
    forall m | n <= m < p ensures !IsPrime(m) {
      FactoredAt(n, p, m);
    }
  }

  lemma Roots0(t: nat)
    requires 0 <= t < 2
    ensures RootOfPrime(t)
  {
    hide RootOfPrime;
    match t
    case 0 => Root(0, 2, 2, 0x428a2f98, 0x1428a2f98);
    case 1 => Root(1, 3, 3, 0x71374491, 0x171374491);
  }

  lemma Roots2(t: nat)
    requires 2 <= t < 4
    ensures RootOfPrime(t)
  {
    hide RootOfPrime;
    match t
    case 2 => Root(2, 4, 5, 0xb5c0fbcf, 0x1b5c0fbcf);
    case 3 => Root(3, 6, 7, 0xe9b5dba5, 0x1e9b5dba5);
  }

  lemma Roots4(t: nat)
    requires 4 <= t < 8
    ensures RootOfPrime(t)
  {
    hide RootOfPrime;
    match t
    case 4 => Root(4, 8, 11, 0x3956c25b, 0x23956c25b);
    case 5 => Root(5, 12, 13, 0x59f111f1, 0x259f111f1);
    case 6 => Root(6, 14, 17, 0x923f82a4, 0x2923f82a4);
    case 7 => Root(7, 18, 19, 0xab1c5ed5, 0x2ab1c5ed5);
  }

  lemma Roots8(t: nat)
    requires 8 <= t < 12
    ensures RootOfPrime(t)
  {
    hide RootOfPrime;
    match t
    case 8 => Root(8, 20, 23, 0xd807aa98, 0x2d807aa98);
    case 9 => Root(9, 24, 29, 0x12835b01, 0x312835b01);
    case 10 => Root(10, 30, 31, 0x243185be, 0x3243185be);
    case 11 => Root(11, 32, 37, 0x550c7dc3, 0x3550c7dc3);
  }

  lemma Roots12(t: nat)
    requires 12 <= t < 16
    ensures RootOfPrime(t)
  {
    hide RootOfPrime;
    match t
    case 12 => Root(12, 38, 41, 0x72be5d74, 0x372be5d74);
    case 13 => Root(13, 42, 43, 0x80deb1fe, 0x380deb1fe);
    case 14 => Root(14, 44, 47, 0x9bdc06a7, 0x39bdc06a7);
    case 15 => Root(15, 48, 53, 0xc19bf174, 0x3c19bf174);
  }

  lemma Roots16(t: nat)
    requires 16 <= t < 20
    ensures RootOfPrime(t)
  {
    hide RootOfPrime;
    match t
    case 16 => Root(16, 54, 59, 0xe49b69c1, 0x3e49b69c1);
    case 17 => Root(17, 60, 61, 0xefbe4786, 0x3efbe4786);
    case 18 => Root(18, 62, 67, 0x0fc19dc6, 0x40fc19dc6);
    case 19 => Root(19, 68, 71, 0x240ca1cc, 0x4240ca1cc);
  }

  lemma Roots20(t: nat)
    requires 20 <= t < 24
    ensures RootOfPrime(t)
  {
    hide RootOfPrime;
    match t
    case 20 => Root(20, 72, 73, 0x2de92c6f, 0x42de92c6f);
    case 21 => Root(21, 74, 79, 0x4a7484aa, 0x44a7484aa);
    case 22 => Root(22, 80, 83, 0x5cb0a9dc, 0x45cb0a9dc);
    case 23 => Root(23, 84, 89, 0x76f988da, 0x476f988da);
  }

  lemma Roots24(t: nat)
    requires 24 <= t < 28
    ensures RootOfPrime(t)
  {
    hide RootOfPrime;
    match t
    case 24 => Root(24, 90, 97, 0x983e5152, 0x4983e5152);
    case 25 => Root(25, 98, 101, 0xa831c66d, 0x4a831c66d);
    case 26 => Root(26, 102, 103, 0xb00327c8, 0x4b00327c8);
    case 27 => Root(27, 104, 107, 0xbf597fc7, 0x4bf597fc7);
  }

  lemma Roots28(t: nat)
    requires 28 <= t < 32
    ensures RootOfPrime(t)
  {
    hide RootOfPrime;
    match t
    case 28 => Root(28, 108, 109, 0xc6e00bf3, 0x4c6e00bf3);
    case 29 => Root(29, 110, 113, 0xd5a79147, 0x4d5a79147);
    case 30 => Root(30, 114, 127, 0x06ca6351, 0x506ca6351);
    case 31 => Root(31, 128, 131, 0x14292967, 0x514292967);
  }

  lemma Roots32(t: nat)
    requires 32 <= t < 36
    ensures RootOfPrime(t)
  {
    hide RootOfPrime;
    match t
    case 32 => Root(32, 132, 137, 0x27b70a85, 0x527b70a85);
    case 33 => Root(33, 138, 139, 0x2e1b2138, 0x52e1b2138);
    case 34 => Root(34, 140, 149, 0x4d2c6dfc, 0x54d2c6dfc);
    case 35 => Root(35, 150, 151, 0x53380d13, 0x553380d13);
  }

  lemma Roots36(t: nat)
    requires 36 <= t < 40
    ensures RootOfPrime(t)
  {
    hide RootOfPrime;
    match t
    case 36 => Root(36, 152, 157, 0x650a7354, 0x5650a7354);
    case 37 => Root(37, 158, 163, 0x766a0abb, 0x5766a0abb);
    case 38 => Root(38, 164, 167, 0x81c2c92e, 0x581c2c92e);
    case 39 => Root(39, 168, 173, 0x92722c85, 0x592722c85);
  }

  lemma Roots40(t: nat)
    requires 40 <= t < 44
    ensures RootOfPrime(t)
  {
    hide RootOfPrime;
    match t
    case 40 => Root(40, 174, 179, 0xa2bfe8a1, 0x5a2bfe8a1);
    case 41 => Root(41, 180, 181, 0xa81a664b, 0x5a81a664b);
    case 42 => Root(42, 182, 191, 0xc24b8b70, 0x5c24b8b70);
    case 43 => Root(43, 192, 193, 0xc76c51a3, 0x5c76c51a3);
  }

  lemma Roots44(t: nat)
    requires 44 <= t < 48
    ensures RootOfPrime(t)
  {
    hide RootOfPrime;
    match t
    case 44 => Root(44, 194, 197, 0xd192e819, 0x5d192e819);
    case 45 => Root(45, 198, 199, 0xd6990624, 0x5d6990624);
    case 46 => Root(46, 200, 211, 0xf40e3585, 0x5f40e3585);
    case 47 => Root(47, 212, 223, 0x106aa070, 0x6106aa070);
  }

  lemma Roots48(t: nat)
    requires 48 <= t < 52
    ensures RootOfPrime(t)
  {
    hide RootOfPrime;
    match t
    case 48 => Root(48, 224, 227, 0x19a4c116, 0x619a4c116);
    case 49 => Root(49, 228, 229, 0x1e376c08, 0x61e376c08);
    case 50 => Root(50, 230, 233, 0x2748774c, 0x62748774c);
    case 51 => Root(51, 234, 239, 0x34b0bcb5, 0x634b0bcb5);
  }

  lemma Roots52(t: nat)
    requires 52 <= t < 56
    ensures RootOfPrime(t)
  {
    hide RootOfPrime;
    match t
    case 52 => Root(52, 240, 241, 0x391c0cb3, 0x6391c0cb3);
    case 53 => Root(53, 242, 251, 0x4ed8aa4a, 0x64ed8aa4a);
    case 54 => Root(54, 252, 257, 0x5b9cca4f, 0x65b9cca4f);
    case 55 => Root(55, 258, 263, 0x682e6ff3, 0x6682e6ff3);
  }

  lemma Roots56(t: nat)
    requires 56 <= t < 60
    ensures RootOfPrime(t)
  {
    hide RootOfPrime;
    match t
    case 56 => Root(56, 264, 269, 0x748f82ee, 0x6748f82ee);
    case 57 => Root(57, 270, 271, 0x78a5636f, 0x678a5636f);
    case 58 => Root(58, 272, 277, 0x84c87814, 0x684c87814);
    case 59 => Root(59, 278, 281, 0x8cc70208, 0x68cc70208);
  }

  lemma Roots60(t: nat)
    requires 60 <= t < 64
    ensures RootOfPrime(t)
  {
    hide RootOfPrime;
    match t
    case 60 => Root(60, 282, 283, 0x90befffa, 0x690befffa);
    case 61 => Root(61, 284, 293, 0xa4506ceb, 0x6a4506ceb);
    case 62 => Root(62, 294, 307, 0xbef9a3f7, 0x6bef9a3f7);
    case 63 => Root(63, 308, 311, 0xc67178f2, 0x6c67178f2);
  }

  /** Section 4.2.2: the round constants are the first 32 bits of the fractional parts of the cube roots
      of the first sixty-four primes. */
  lemma RoundConstants(t: nat)
    requires t < 64
    ensures RootOfPrime(t)
  {
    hide RootOfPrime;
    if t < 2 {
      Roots0(t);
    } else if t < 4 {
      Roots2(t);
    } else if t < 8 {
      Roots4(t);
    } else if t < 12 {
      Roots8(t);
    } else if t < 16 {
      Roots12(t);
    } else if t < 20 {
      Roots16(t);
    } else if t < 24 {
      Roots20(t);
    } else if t < 28 {
      Roots24(t);
    } else if t < 32 {
      Roots28(t);
    } else if t < 36 {
      Roots32(t);
    } else if t < 40 {
      Roots36(t);
    } else if t < 44 {
      Roots40(t);
    } else if t < 48 {
      Roots44(t);
    } else if t < 52 {
      Roots48(t);
    } else if t < 56 {
      Roots52(t);
    } else if t < 60 {
      Roots56(t);
    } else {
      Roots60(t);
    }
  }

  lemma SquareRoot(p: nat, k: Word, x: nat)
    requires x % 0x1_0000_0000 == k as nat && IsSquareRoot(x, p)
    ensures SquareRootBits(p, k)
  {
  }

  /** Section 5.3.3: the initial hash value comes from the square roots of the first eight. */
  lemma InitialHash()
    ensures SquareRootBits(PRIMES[0], H0.a) && SquareRootBits(PRIMES[1], H0.b)
    ensures SquareRootBits(PRIMES[2], H0.c) && SquareRootBits(PRIMES[3], H0.d)
    ensures SquareRootBits(PRIMES[4], H0.e) && SquareRootBits(PRIMES[5], H0.f)
    ensures SquareRootBits(PRIMES[6], H0.g) && SquareRootBits(PRIMES[7], H0.h)
  {
    hide SquareRootBits;
    FirstEight();
    InitialHalf();
    SquareRoot(2, 0x6a09e667, 0x16a09e667);
    SquareRoot(3, 0xbb67ae85, 0x1bb67ae85);
    SquareRoot(5, 0x3c6ef372, 0x23c6ef372);
    SquareRoot(7, 0xa54ff53a, 0x2a54ff53a);
  }

  lemma FirstEight()
    ensures PRIMES[0] == 2 && PRIMES[1] == 3 && PRIMES[2] == 5 && PRIMES[3] == 7
    ensures PRIMES[4] == 11 && PRIMES[5] == 13 && PRIMES[6] == 17 && PRIMES[7] == 19
  {
  }

  lemma InitialHalf()
    ensures SquareRootBits(11, H0.e) && SquareRootBits(13, H0.f)
    ensures SquareRootBits(17, H0.g) && SquareRootBits(19, H0.h)
  {
    hide SquareRootBits;
    SquareRoot(11, 0x510e527f, 0x3510e527f);
    SquareRoot(13, 0x9b05688c, 0x39b05688c);
    SquareRoot(17, 0x1f83d9ab, 0x41f83d9ab);
    SquareRoot(19, 0x5be0cd19, 0x45be0cd19);
  }

  // ---------------------------------------------------------------- the word functions, section 4.1.2

  /** A bit's place in a word; sums of places are modulo 32. */
  type Place = bv5

  /** Bit i of a word, the least significant first. */
  predicate Bit(x: Word, i: Place) {
    (x >> i) & 1 == 1
  }

  /** An odd number of three bits is set. */
  predicate Odd(x: bool, y: bool, z: bool) {
    (x != y) != z
  }

  lemma XorShift(x: Word, y: Word, i: Place)
    ensures (x ^ y) >> i == (x >> i) ^ (y >> i)
  {
  }

  lemma XorLow(x: Word, y: Word)
    ensures (x ^ y) & 1 == 1 <==> (x & 1 == 1) != (y & 1 == 1)
  {
  }

  lemma XorBit(x: Word, y: Word, i: Place)
    ensures Bit(Xor(x, y), i) <==> Bit(x, i) != Bit(y, i)
  {
    XorShift(x, y, i);
    XorLow(x >> i, y >> i);
  }

  lemma OddBits(x: Word, y: Word, z: Word, i: Place)
    ensures Bit(Xor(Xor(x, y), z), i) <==> Odd(Bit(x, i), Bit(y, i), Bit(z, i))
  {
    hide Xor, Bit;
    XorBit(x, y, i);
    XorBit(Xor(x, y), z, i);
  }

  lemma AndBit(x: Word, y: Word, i: Place)
    ensures Bit(And(x, y), i) <==> Bit(x, i) && Bit(y, i)
  {
  }

  lemma NotBit(x: Word, i: Place)
    ensures Bit(Not(x), i) <==> !Bit(x, i)
  {
  }

  lemma Rotr2Bit(x: Word, i: Place)
    ensures Bit(x.RotateRight(2), i) <==> Bit(x, i + 2)
  {
  }

  lemma Rotr6Bit(x: Word, i: Place)
    ensures Bit(x.RotateRight(6), i) <==> Bit(x, i + 6)
  {
  }

  lemma Rotr7Bit(x: Word, i: Place)
    ensures Bit(x.RotateRight(7), i) <==> Bit(x, i + 7)
  {
  }

  lemma Rotr11Bit(x: Word, i: Place)
    ensures Bit(x.RotateRight(11), i) <==> Bit(x, i + 11)
  {
  }

  lemma Rotr13Bit(x: Word, i: Place)
    ensures Bit(x.RotateRight(13), i) <==> Bit(x, i + 13)
  {
  }

  lemma Rotr17Bit(x: Word, i: Place)
    ensures Bit(x.RotateRight(17), i) <==> Bit(x, i + 17)
  {
  }

  lemma Rotr18Bit(x: Word, i: Place)
    ensures Bit(x.RotateRight(18), i) <==> Bit(x, i + 18)
  {
  }

  lemma Rotr19Bit(x: Word, i: Place)
    ensures Bit(x.RotateRight(19), i) <==> Bit(x, i + 19)
  {
  }

  lemma Rotr22Bit(x: Word, i: Place)
    ensures Bit(x.RotateRight(22), i) <==> Bit(x, i + 22)
  {
  }

  lemma Rotr25Bit(x: Word, i: Place)
    ensures Bit(x.RotateRight(25), i) <==> Bit(x, i + 25)
  {
  }

  lemma ShrBits(x: Word, i: Place)
    ensures Bit(Shr(3, x), i) <==> i < 29 && Bit(x, i + 3)
    ensures Bit(Shr(10, x), i) <==> i < 22 && Bit(x, i + 10)
  {
  }

  lemma BigSigmaBits(x: Word, i: Place)
    ensures Bit(BigSigma0(x), i) <==> Odd(Bit(x, i + 2), Bit(x, i + 13), Bit(x, i + 22))
    ensures Bit(BigSigma1(x), i) <==> Odd(Bit(x, i + 6), Bit(x, i + 11), Bit(x, i + 25))
  {
    hide Xor, Bit, Odd;
    Rotr2Bit(x, i);
    Rotr13Bit(x, i);
    Rotr22Bit(x, i);
    Rotr6Bit(x, i);
    Rotr11Bit(x, i);
    Rotr25Bit(x, i);
    OddBits(x.RotateRight(2), x.RotateRight(13), x.RotateRight(22), i);
    OddBits(x.RotateRight(6), x.RotateRight(11), x.RotateRight(25), i);
  }

  /** The shifts of the small functions bring in zeros. */
  lemma SmallSigmaBits(x: Word, i: Place)
    ensures Bit(SmallSigma0(x), i) <==> Odd(Bit(x, i + 7), Bit(x, i + 18), i < 29 && Bit(x, i + 3))
    ensures Bit(SmallSigma1(x), i) <==> Odd(Bit(x, i + 17), Bit(x, i + 19), i < 22 && Bit(x, i + 10))
  {
    hide Xor, Shr, Bit, Odd;
    Rotr7Bit(x, i);
    Rotr18Bit(x, i);
    Rotr17Bit(x, i);
    Rotr19Bit(x, i);
    ShrBits(x, i);
    OddBits(x.RotateRight(7), x.RotateRight(18), Shr(3, x), i);
    OddBits(x.RotateRight(17), x.RotateRight(19), Shr(10, x), i);
  }

  /** Ch chooses between two bits, and Maj takes the majority of three. */
  lemma ChoiceBits(x: Word, y: Word, z: Word, i: Place)
    ensures Bit(Ch(x, y, z), i) <==> if Bit(x, i) then Bit(y, i) else Bit(z, i)
    ensures Bit(Maj(x, y, z), i) <==>
              (Bit(x, i) && Bit(y, i)) || (Bit(x, i) && Bit(z, i)) || (Bit(y, i) && Bit(z, i))
  {
    hide Xor, And, Not, Bit;
    AndBit(x, y, i);
    AndBit(x, z, i);
    AndBit(y, z, i);
    NotBit(x, i);
    AndBit(Not(x), z, i);
    XorBit(And(x, y), And(Not(x), z), i);
    OddBits(And(x, y), And(x, z), And(y, z), i);
  }

  // ---------------------------------------------------------------- padding, section 5.1.1

  /** Bytes read as one number, the most significant first. */
  function Value(s: seq<Byte>): nat {
    if s == [] then 0 else 256 * Value(s[..|s| - 1]) + s[|s| - 1] as nat
  }

  lemma {:induction false} NatBytesValue(n: nat, k: nat)
    requires n < Pow256(k)
    ensures Value(NatBytes(n, k)) == n
  {
    hide ToByte;
    if k > 0 {
      NatBytesValue(n / 256, k - 1);
      LastByte(n, k);
    }
  }

  lemma LastByte(n: nat, k: nat)
    requires k > 0
    ensures NatBytes(n, k)[..k - 1] == NatBytes(n / 256, k - 1) && NatBytes(n, k)[k - 1] as nat == n % 256
  {
  }

  lemma EightPowers()
    ensures Pow256(8) == 0x1_0000_0000_0000_0000
  {
  }

  /** The message, a one bit, as few zeros as fill the last block, and the length in bits. */
  lemma PaddedShape(msg: seq<Byte>)
    requires 8 * |msg| < 0x1_0000_0000_0000_0000
    ensures var m, n := Padded(msg), |msg|;
            && |m| % 64 == 0 && n + 9 <= |m| < n + 9 + 64
            && m[..n] == msg && m[n] == 0x80 && (forall i | n < i < |m| - 8 :: m[i] == 0)
            && Value(m[|m| - 8..]) == 8 * n
  {
    hide NatBytes, Value;
    EightPowers();
    NatBytesValue(8 * |msg|, 8);
    PaddingZeros(|msg| % 64);
    assert Padded(msg)[|Padded(msg)| - 8..] == NatBytes(8 * |msg|, 8);
  }

  // ---------------------------------------------------------------- blocks, section 6.2.2

  /** The hash of one block, and of blocks that follow others. */
  lemma {:induction false} ChainLaw(s: State, x: seq<Byte>, y: seq<Byte>)
    requires |x| % 64 == 0 && |y| % 64 == 0
    ensures |y| == 64 ==> HashBlocks(s, y) == Compress(s, y)
    ensures (|x| + |y|) % 64 == 0 && HashBlocks(s, x + y) == HashBlocks(HashBlocks(s, x), y)
    decreases |x|
  {
    hide Compress;
    if |y| == 64 {
      assert y[..64] == y && y[64..] == [];
    }
    if x == [] {
      assert x + y == y;
    } else {
      WholeBlock(|x|);
      WholeBlock(|x| + |y|);
      ChainLaw(Compress(s, x[..64]), x[64..], y);
      assert (x + y)[..64] == x[..64] && (x + y)[64..] == x[64..] + y;
    }
  }
}
