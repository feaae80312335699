/**
 What the functions and constants of the SHA-256 definition mean, said in other words than their definitions: bit by bit
 for the logical functions, octet by octet for words, and by prime numbers and their roots for the constants.
 */
module Sha256Facts {
  import opened Sha256Spec

  // ---------------------------------------------------------------- logical functions and words

  /** Where a bit of `x` is set the bit of `y` is chosen, elsewhere that of `z`. */
  lemma ChChooses(x: bv32, y: bv32, z: bv32)
    ensures Ch(x, y, z) & x == y & x && Ch(x, y, z) & !x == z & !x
  {
  }

  /** A bit is set where at least two of the three are, and clear where at least two are clear. */
  lemma MajOfTwo(x: bv32, y: bv32, z: bv32)
    ensures Maj(x, y, z) & x & y == x & y && Maj(x, y, z) & !x & !y == 0
  {
  }

  /** Whichever two they are. */
  lemma MajOrder(x: bv32, y: bv32, z: bv32)
    ensures Maj(x, z, y) == Maj(x, y, z) == Maj(y, z, x)
  {
  }

  /** The four sums of rotations: each turns the word round by its three amounts, or shifts it by the last. */
  lemma SigmasTurn(x: bv32)
    ensures UpperSigma0(x) == ((x >> 2) | (x << 30)) ^ ((x >> 13) | (x << 19)) ^ ((x >> 22) | (x << 10))
    ensures UpperSigma1(x) == ((x >> 6) | (x << 26)) ^ ((x >> 11) | (x << 21)) ^ ((x >> 25) | (x << 7))
    ensures LowerSigma0(x) == ((x >> 7) | (x << 25)) ^ ((x >> 18) | (x << 14)) ^ (x >> 3)
    ensures LowerSigma1(x) == ((x >> 17) | (x << 15)) ^ ((x >> 19) | (x << 13)) ^ (x >> 10)
  {
  }

  /** The first octet of a word is its most significant one. */
  lemma WordOfFour(a: Octet, b: Octet, c: Octet, d: Octet)
    ensures var w := Word([a, b, c, d], 0);
            && w >> 24 == a as bv32 && (w >> 16) & 0xFF == b as bv32
            && (w >> 8) & 0xFF == c as bv32 && w & 0xFF == d as bv32
    ensures WordOctets(Word([a, b, c, d], 0)) == [a, b, c, d]
  {
  }

  lemma OctetsOfWord(w: bv32)
    ensures Word(WordOctets(w), 0) == w
  {
  }

  function Digit(n: nat): (d: Octet) {
    (n % 256) as bv8
  }

  lemma NestedQuotients(n: nat)
    ensures n / 256 / 256 == n / 0x1_0000 && n / 256 / 256 / 256 == n / 0x100_0000
  {
  }

  lemma FourDigits(n: nat)
    ensures BigEndian(n, 4) == [Digit(n / 256 / 256 / 256), Digit(n / 256 / 256), Digit(n / 256), Digit(n)]
  {
    BigEndianStep(n / 256 / 256 / 256, 0);
    BigEndianStep(n / 256 / 256, 1);
    BigEndianStep(n / 256, 2);
    BigEndianStep(n, 3);
  }

  lemma BigEndianStep(n: nat, k: nat)
    ensures BigEndian(n, k + 1) == BigEndian(n / 256, k) + [Digit(n)]
  {
  }

  /** The octets of `n`, most significant first, are its digits to base 256. */
  lemma BigEndianDigits(n: nat)
    ensures BigEndian(n, 4) == [(n / 0x100_0000 % 256) as bv8, (n / 0x1_0000 % 256) as bv8, (n / 0x100 % 256) as bv8,
                                (n % 256) as bv8]
  {
    NestedQuotients(n);
    FourDigits(n);
  }

  /** And the word they make has those octets. */
  lemma WordOfNumber(n: nat)
    ensures WordOctets(Word(BigEndian(n, 4), 0)) == BigEndian(n, 4)
  {
    var bs := BigEndian(n, 4);
    assert bs == [bs[0], bs[1], bs[2], bs[3]];
    WordOfFour(bs[0], bs[1], bs[2], bs[3]);
  }

  // ---------------------------------------------------------------- prime numbers

  const PRIME_ROWS: seq<seq<nat>> := [
    [2, 3, 5, 7, 11, 13, 17, 19],
    [23, 29, 31, 37, 41, 43, 47, 53],
    [59, 61, 67, 71, 73, 79, 83, 89],
    [97, 101, 103, 107, 109, 113, 127, 131],
    [137, 139, 149, 151, 157, 163, 167, 173],
    [179, 181, 191, 193, 197, 199, 211, 223],
    [227, 229, 233, 239, 241, 251, 257, 263],
    [269, 271, 277, 281, 283, 293, 307, 311]]

  function Prime(t: nat): (p: nat)
    requires t < 64
  {
    PRIME_ROWS[t / 8][t % 8]
  }

  predicate Divides(d: nat, n: nat)
    requires d > 0
  {
    n % d == 0
  }

  ghost predicate IsPrime(n: nat) {
    n >= 2 && forall d: nat :: 2 <= d < n ==> !Divides(d, n)
  }

  /** A proper divisor that is one of the primes up to 17. */
  predicate HasSmallFactor(n: nat) {
    || (n % 2 == 0 && n != 2) || (n % 3 == 0 && n != 3) || (n % 5 == 0 && n != 5) || (n % 7 == 0 && n != 7)
    || (n % 11 == 0 && n != 11) || (n % 13 == 0 && n != 13) || (n % 17 == 0 && n != 17)
  }

  /** The smaller of two factors of a number below 19 * 19 is at most 18. */
  lemma SmallerFactor(n: nat, d: nat) returns (e: nat)
    requires 2 <= d < n < 361 && Divides(d, n)
    ensures 2 <= e <= 18 && e < n && Divides(e, n)
  {
    var q := n / d;
    assert n == q * d;
    if d <= 18 {
      e := d;
    } else {
      e := q;
      assert q >= 19 ==> q * d >= 19 * d;
      assert q <= 1 ==> q * d <= d;
      ProductDivides(q, d);
    }
  }

  lemma ProductDivides(q: nat, d: nat)
    requires q > 0
    ensures Divides(q, q * d)
  {
    var r := q * d % q;
    var c := q * d / q;
    assert q * d == q * c + r;
    assert q * (d - c) == r;
    assert d - c >= 1 ==> q * (d - c) >= q;
    assert d - c <= -1 ==> q * (c - d) >= q;
  }

  /** The least prime factor of a number from 2 to 18. */
  function LeastFactor(e: nat): (p: nat)
    requires 2 <= e <= 18
    ensures p == 2 || p == 3 || p == 5 || p == 7 || p == 11 || p == 13 || p == 17
    ensures p <= e && e == e / p * p
  {
    if e % 2 == 0 then 2 else if e % 3 == 0 then 3 else e
  }

  lemma FactorIsSmall(n: nat, e: nat)
    requires 2 <= e <= 18 && e < n && Divides(e, n)
    ensures HasSmallFactor(n)
  {
    FactorDivides(n, e, LeastFactor(e));
    SmallFactor(n, LeastFactor(e));
  }

  lemma FactorDivides(n: nat, e: nat, p: nat)
    requires p > 0 && e > 0 && Divides(e, n) && e == e / p * p
    ensures Divides(p, n)
  {
    var q, c := n / e, e / p;
    assert n == q * e;
    Regroup(q, c, p);
    ProductDivides(p, q * c);
  }

  lemma Regroup(q: nat, c: nat, p: nat)
    ensures q * (c * p) == p * (q * c)
  {
  }

  lemma SmallFactor(n: nat, p: nat)
    requires p == 2 || p == 3 || p == 5 || p == 7 || p == 11 || p == 13 || p == 17
    requires p < n && n % p == 0
    ensures HasSmallFactor(n)
  {
  }

  lemma PrimeIff(n: nat)
    requires 2 <= n < 361
    ensures IsPrime(n) <==> !HasSmallFactor(n)
  {
    if !IsPrime(n) {
      var d: nat :| 2 <= d < n && Divides(d, n);
      var e := SmallerFactor(n, d);
      FactorIsSmall(n, e);
    }
    if HasSmallFactor(n) {
      assert Divides(2, n) || Divides(3, n) || Divides(5, n) || Divides(7, n) || Divides(11, n) || Divides(13, n)
             || Divides(17, n);
    }
  }

  predicate Composite(n: nat, next: nat) {
    n < next ==> HasSmallFactor(n)
  }

  /** The next prime after `p` is `next`: every number between them has a small factor. */
  predicate Gap(p: nat, next: nat) {
    && p < next <= p + 14
    && Composite(p + 1, next) && Composite(p + 2, next) && Composite(p + 3, next) && Composite(p + 4, next)
    && Composite(p + 5, next) && Composite(p + 6, next) && Composite(p + 7, next) && Composite(p + 8, next)
    && Composite(p + 9, next) && Composite(p + 10, next) && Composite(p + 11, next) && Composite(p + 12, next)
    && Composite(p + 13, next)
  }

  lemma GapMeans(p: nat, next: nat, n: nat)
    requires Gap(p, next) && p < n < next
    ensures HasSmallFactor(n)
  {
    assert n == p + 1 || n == p + 2 || n == p + 3 || n == p + 4 || n == p + 5 || n == p + 6 || n == p + 7
           || n == p + 8 || n == p + 9 || n == p + 10 || n == p + 11 || n == p + 12 || n == p + 13;
    assert Composite(n, next);
  }

  // ---------------------------------------------------------------- the constants

  /** `k` is the first 32 bits of the fractional part of the cube root of `p`: the cube root of `p * 2^96` lies between
      `w * 2^32 + k` and the next integer, `w` being the integer part. */
  predicate CubeFraction(p: nat, w: nat, k: nat) {
    var r := w * 0x1_0000_0000 + k;
    r * r * r <= p * 0x1_0000_0000_0000_0000_0000_0000 < (r + 1) * (r + 1) * (r + 1)
  }

  predicate SquareFraction(p: nat, w: nat, k: nat) {
    var r := w * 0x1_0000_0000 + k;
    r * r <= p * 0x1_0000_0000_0000_0000 < (r + 1) * (r + 1)
  }

  /** The integer part of the cube root of a number below 343. */
  function CubeRoot(p: nat): (w: nat) {
    if p < 1 then 0 else if p < 8 then 1 else if p < 27 then 2 else if p < 64 then 3 else if p < 125 then 4
    else if p < 216 then 5 else 6
  }

  lemma RootMeans(p: nat)
    requires p < 343
    ensures var w := CubeRoot(p); w * w * w <= p < (w + 1) * (w + 1) * (w + 1)
  {
  }

  predicate Follows(p: nat, next: nat) {
    2 <= p <= 311 && !HasSmallFactor(p) && Gap(p, next)
  }

  predicate RootConstant(p: nat, k: nat) {
    CubeFraction(p, CubeRoot(p), k)
  }

  /** The constants as numbers. */
  const CONSTANT_ROWS: seq<seq<nat>> := [
    [0x428a2f98, 0x71374491, 0xb5c0fbcf, 0xe9b5dba5, 0x3956c25b, 0x59f111f1, 0x923f82a4, 0xab1c5ed5],
    [0xd807aa98, 0x12835b01, 0x243185be, 0x550c7dc3, 0x72be5d74, 0x80deb1fe, 0x9bdc06a7, 0xc19bf174],
    [0xe49b69c1, 0xefbe4786, 0x0fc19dc6, 0x240ca1cc, 0x2de92c6f, 0x4a7484aa, 0x5cb0a9dc, 0x76f988da],
    [0x983e5152, 0xa831c66d, 0xb00327c8, 0xbf597fc7, 0xc6e00bf3, 0xd5a79147, 0x06ca6351, 0x14292967],
    [0x27b70a85, 0x2e1b2138, 0x4d2c6dfc, 0x53380d13, 0x650a7354, 0x766a0abb, 0x81c2c92e, 0x92722c85],
    [0xa2bfe8a1, 0xa81a664b, 0xc24b8b70, 0xc76c51a3, 0xd192e819, 0xd6990624, 0xf40e3585, 0x106aa070],
    [0x19a4c116, 0x1e376c08, 0x2748774c, 0x34b0bcb5, 0x391c0cb3, 0x4ed8aa4a, 0x5b9cca4f, 0x682e6ff3],
    [0x748f82ee, 0x78a5636f, 0x84c87814, 0x8cc70208, 0x90befffa, 0xa4506ceb, 0xbef9a3f7, 0xc67178f2]]

  function Constant(t: nat): (k: nat)
    requires t < 64
  {
    CONSTANT_ROWS[t / 8][t % 8]
  }

  predicate IsConstant(t: nat)
    requires t < 64
  {
    K(t) as nat == Constant(t)
  }

  /** The prime number after entry `t`. */
  function Next(t: nat): (p: nat)
    requires t < 64
  {
    if t < 63 then Prime(t + 1) else 313
  }

  lemma Follows0()
    ensures Follows(2, 3) && Follows(3, 5) && Follows(5, 7) && Follows(7, 11)
    ensures Follows(11, 13) && Follows(13, 17) && Follows(17, 19) && Follows(19, 23)
  {
  }

  lemma Roots0()
    ensures RootConstant(2, 0x428a2f98) && RootConstant(3, 0x71374491)
    ensures RootConstant(5, 0xb5c0fbcf) && RootConstant(7, 0xe9b5dba5)
  {
  }

  lemma Roots1()
    ensures RootConstant(11, 0x3956c25b) && RootConstant(13, 0x59f111f1)
    ensures RootConstant(17, 0x923f82a4) && RootConstant(19, 0xab1c5ed5)
  {
  }

  lemma Words0()
    ensures IsConstant(0) && IsConstant(1) && IsConstant(2) && IsConstant(3)
    ensures IsConstant(4) && IsConstant(5) && IsConstant(6) && IsConstant(7)
  {
  }

  lemma Word0(t: nat)
    requires 0 <= t < 8
    ensures IsConstant(t)
  {
    Words0();
  }

  lemma Row0(t: nat)
    requires 0 <= t < 8
    ensures Follows(Prime(t), Next(t)) && RootConstant(Prime(t), Constant(t))
  {
    Follows0();
    Roots0();
    Roots1();
  }

  lemma Follows1()
    ensures Follows(23, 29) && Follows(29, 31) && Follows(31, 37) && Follows(37, 41)
    ensures Follows(41, 43) && Follows(43, 47) && Follows(47, 53) && Follows(53, 59)
  {
  }

  lemma Roots2()
    ensures RootConstant(23, 0xd807aa98) && RootConstant(29, 0x12835b01)
    ensures RootConstant(31, 0x243185be) && RootConstant(37, 0x550c7dc3)
  {
  }

  lemma Roots3()
    ensures RootConstant(41, 0x72be5d74) && RootConstant(43, 0x80deb1fe)
    ensures RootConstant(47, 0x9bdc06a7) && RootConstant(53, 0xc19bf174)
  {
  }

  lemma Words1()
    ensures IsConstant(8) && IsConstant(9) && IsConstant(10) && IsConstant(11)
    ensures IsConstant(12) && IsConstant(13) && IsConstant(14) && IsConstant(15)
  {
  }

  lemma Word1(t: nat)
    requires 8 <= t < 16
    ensures IsConstant(t)
  {
    Words1();
  }

  lemma Row1(t: nat)
    requires 8 <= t < 16
    ensures Follows(Prime(t), Next(t)) && RootConstant(Prime(t), Constant(t))
  {
    Follows1();
    Roots2();
    Roots3();
  }

  lemma Follows2()
    ensures Follows(59, 61) && Follows(61, 67) && Follows(67, 71) && Follows(71, 73)
    ensures Follows(73, 79) && Follows(79, 83) && Follows(83, 89) && Follows(89, 97)
  {
  }

  lemma Roots4()
    ensures RootConstant(59, 0xe49b69c1) && RootConstant(61, 0xefbe4786)
    ensures RootConstant(67, 0x0fc19dc6) && RootConstant(71, 0x240ca1cc)
  {
  }

  lemma Roots5()
    ensures RootConstant(73, 0x2de92c6f) && RootConstant(79, 0x4a7484aa)
    ensures RootConstant(83, 0x5cb0a9dc) && RootConstant(89, 0x76f988da)
  {
  }

  lemma Words2()
    ensures IsConstant(16) && IsConstant(17) && IsConstant(18) && IsConstant(19)
    ensures IsConstant(20) && IsConstant(21) && IsConstant(22) && IsConstant(23)
  {
  }

  lemma Word2(t: nat)
    requires 16 <= t < 24
    ensures IsConstant(t)
  {
    Words2();
  }

  lemma Row2(t: nat)
    requires 16 <= t < 24
    ensures Follows(Prime(t), Next(t)) && RootConstant(Prime(t), Constant(t))
  {
    Follows2();
    Roots4();
    Roots5();
  }

  lemma Follows3()
    ensures Follows(97, 101) && Follows(101, 103) && Follows(103, 107) && Follows(107, 109)
    ensures Follows(109, 113) && Follows(113, 127) && Follows(127, 131) && Follows(131, 137)
  {
  }

  lemma Roots6()
    ensures RootConstant(97, 0x983e5152) && RootConstant(101, 0xa831c66d)
    ensures RootConstant(103, 0xb00327c8) && RootConstant(107, 0xbf597fc7)
  {
  }

  lemma Roots7()
    ensures RootConstant(109, 0xc6e00bf3) && RootConstant(113, 0xd5a79147)
    ensures RootConstant(127, 0x06ca6351) && RootConstant(131, 0x14292967)
  {
  }

  lemma Words3()
    ensures IsConstant(24) && IsConstant(25) && IsConstant(26) && IsConstant(27)
    ensures IsConstant(28) && IsConstant(29) && IsConstant(30) && IsConstant(31)
  {
  }

  lemma Word3(t: nat)
    requires 24 <= t < 32
    ensures IsConstant(t)
  {
    Words3();
  }

  lemma Row3(t: nat)
    requires 24 <= t < 32
    ensures Follows(Prime(t), Next(t)) && RootConstant(Prime(t), Constant(t))
  {
    Follows3();
    Roots6();
    Roots7();
  }

  lemma Follows4()
    ensures Follows(137, 139) && Follows(139, 149) && Follows(149, 151) && Follows(151, 157)
    ensures Follows(157, 163) && Follows(163, 167) && Follows(167, 173) && Follows(173, 179)
  {
  }

  lemma Roots8()
    ensures RootConstant(137, 0x27b70a85) && RootConstant(139, 0x2e1b2138)
    ensures RootConstant(149, 0x4d2c6dfc) && RootConstant(151, 0x53380d13)
  {
  }

  lemma Roots9()
    ensures RootConstant(157, 0x650a7354) && RootConstant(163, 0x766a0abb)
    ensures RootConstant(167, 0x81c2c92e) && RootConstant(173, 0x92722c85)
  {
  }

  lemma Words4()
    ensures IsConstant(32) && IsConstant(33) && IsConstant(34) && IsConstant(35)
    ensures IsConstant(36) && IsConstant(37) && IsConstant(38) && IsConstant(39)
  {
  }

  lemma Word4(t: nat)
    requires 32 <= t < 40
    ensures IsConstant(t)
  {
    Words4();
  }

  lemma Row4(t: nat)
    requires 32 <= t < 40
    ensures Follows(Prime(t), Next(t)) && RootConstant(Prime(t), Constant(t))
  {
    Follows4();
    Roots8();
    Roots9();
  }

  lemma Follows5()
    ensures Follows(179, 181) && Follows(181, 191) && Follows(191, 193) && Follows(193, 197)
    ensures Follows(197, 199) && Follows(199, 211) && Follows(211, 223) && Follows(223, 227)
  {
  }

  lemma Roots10()
    ensures RootConstant(179, 0xa2bfe8a1) && RootConstant(181, 0xa81a664b)
    ensures RootConstant(191, 0xc24b8b70) && RootConstant(193, 0xc76c51a3)
  {
  }

  lemma Roots11()
    ensures RootConstant(197, 0xd192e819) && RootConstant(199, 0xd6990624)
    ensures RootConstant(211, 0xf40e3585) && RootConstant(223, 0x106aa070)
  {
  }

  lemma Words5()
    ensures IsConstant(40) && IsConstant(41) && IsConstant(42) && IsConstant(43)
    ensures IsConstant(44) && IsConstant(45) && IsConstant(46) && IsConstant(47)
  {
  }

  lemma Word5(t: nat)
    requires 40 <= t < 48
    ensures IsConstant(t)
  {
    Words5();
  }

  lemma Row5(t: nat)
    requires 40 <= t < 48
    ensures Follows(Prime(t), Next(t)) && RootConstant(Prime(t), Constant(t))
  {
    Follows5();
    Roots10();
    Roots11();
  }

  lemma Follows6()
    ensures Follows(227, 229) && Follows(229, 233) && Follows(233, 239) && Follows(239, 241)
    ensures Follows(241, 251) && Follows(251, 257) && Follows(257, 263) && Follows(263, 269)
  {
  }

  lemma Roots12()
    ensures RootConstant(227, 0x19a4c116) && RootConstant(229, 0x1e376c08)
    ensures RootConstant(233, 0x2748774c) && RootConstant(239, 0x34b0bcb5)
  {
  }

  lemma Roots13()
    ensures RootConstant(241, 0x391c0cb3) && RootConstant(251, 0x4ed8aa4a)
    ensures RootConstant(257, 0x5b9cca4f) && RootConstant(263, 0x682e6ff3)
  {
  }

  lemma Words6()
    ensures IsConstant(48) && IsConstant(49) && IsConstant(50) && IsConstant(51)
    ensures IsConstant(52) && IsConstant(53) && IsConstant(54) && IsConstant(55)
  {
  }

  lemma Word6(t: nat)
    requires 48 <= t < 56
    ensures IsConstant(t)
  {
    Words6();
  }

  lemma Row6(t: nat)
    requires 48 <= t < 56
    ensures Follows(Prime(t), Next(t)) && RootConstant(Prime(t), Constant(t))
  {
    Follows6();
    Roots12();
    Roots13();
  }

  lemma Follows7()
    ensures Follows(269, 271) && Follows(271, 277) && Follows(277, 281) && Follows(281, 283)
    ensures Follows(283, 293) && Follows(293, 307) && Follows(307, 311) && Follows(311, 313)
  {
  }

  lemma Roots14()
    ensures RootConstant(269, 0x748f82ee) && RootConstant(271, 0x78a5636f)
    ensures RootConstant(277, 0x84c87814) && RootConstant(281, 0x8cc70208)
  {
  }

  lemma Roots15()
    ensures RootConstant(283, 0x90befffa) && RootConstant(293, 0xa4506ceb)
    ensures RootConstant(307, 0xbef9a3f7) && RootConstant(311, 0xc67178f2)
  {
  }

  lemma Words7()
    ensures IsConstant(56) && IsConstant(57) && IsConstant(58) && IsConstant(59)
    ensures IsConstant(60) && IsConstant(61) && IsConstant(62) && IsConstant(63)
  {
  }

  lemma Word7(t: nat)
    requires 56 <= t < 64
    ensures IsConstant(t)
  {
    Words7();
  }

  lemma Row7(t: nat)
    requires 56 <= t < 64
    ensures Follows(Prime(t), Next(t)) && RootConstant(Prime(t), Constant(t))
  {
    Follows7();
    Roots14();
    Roots15();
  }

  lemma WordsFit(t: nat)
    requires t < 64
    ensures IsConstant(t)
  {
    if t < 8 {
      Word0(t);
    } else if t < 16 {
      Word1(t);
    } else if t < 24 {
      Word2(t);
    } else if t < 32 {
      Word3(t);
    } else if t < 40 {
      Word4(t);
    } else if t < 48 {
      Word5(t);
    } else if t < 56 {
      Word6(t);
    } else {
      Word7(t);
    }
  }

  lemma EntriesFit(t: nat)
    requires t < 64
    ensures Follows(Prime(t), Next(t)) && RootConstant(Prime(t), Constant(t))
  {
    if t < 8 {
      Row0(t);
    } else if t < 16 {
      Row1(t);
    } else if t < 24 {
      Row2(t);
    } else if t < 32 {
      Row3(t);
    } else if t < 40 {
      Row4(t);
    } else if t < 48 {
      Row5(t);
    } else if t < 56 {
      Row6(t);
    } else {
      Row7(t);
    }
  }

  /** The table holds the prime numbers in order, from 2 on and without a gap. */
  lemma PrimesInOrder(t: nat, n: nat)
    requires t < 64
    ensures Prime(0) == 2 && IsPrime(Prime(t))
    ensures t < 63 ==> Prime(t) < Prime(t + 1) && (Prime(t) < n < Prime(t + 1) ==> !IsPrime(n))
  {
    EntriesFit(t);
    PrimeIff(Prime(t));
    if t < 63 && Prime(t) < n < Prime(t + 1) {
      EntriesFit(t + 1);
      GapMeans(Prime(t), Prime(t + 1), n);
      PrimeIff(n);
    }
  }

  /** Section 4.2.2: the constants are the first 32 bits of the fractional parts of the cube roots of the first 64 prime
      numbers. */
  lemma ConstantsAreRoots(t: nat)
    requires t < 64
    ensures K(t) as nat == Constant(t)
    ensures var w := CubeRoot(Prime(t));
            var r := w * 0x1_0000_0000 + Constant(t);
            && w * w * w <= Prime(t) < (w + 1) * (w + 1) * (w + 1)
            && r * r * r <= Prime(t) * 0x1_0000_0000_0000_0000_0000_0000 < (r + 1) * (r + 1) * (r + 1)
  {
    EntriesFit(t);
    WordsFit(t);
    RootMeans(Prime(t));
  }

  /** Section 5.3.3: the initial hash value is made of the first 32 bits of the fractional parts of the square roots of
      the first eight. */
  lemma InitialValueIsRoots()
    ensures SquareFraction(Prime(0), 1, H0.a as nat)
    ensures SquareFraction(Prime(1), 1, H0.b as nat)
    ensures SquareFraction(Prime(2), 2, H0.c as nat)
    ensures SquareFraction(Prime(3), 2, H0.d as nat)
    ensures SquareFraction(Prime(4), 3, H0.e as nat)
    ensures SquareFraction(Prime(5), 3, H0.f as nat)
    ensures SquareFraction(Prime(6), 4, H0.g as nat)
    ensures SquareFraction(Prime(7), 4, H0.h as nat)
  {
  }
}
