/** SHA-256 as sections 4 to 6 of FIPS 180-4 define it, and HMAC as section 2 of RFC 2104 defines it. */
module Sha256Spec {

  const BLOCK: nat := 64

  type Octet = bv8

  // ---------------------------------------------------------------- section 4: functions and constants

  function UpperSigma0(x: bv32): (r: bv32) { x.RotateRight(2) ^ x.RotateRight(13) ^ x.RotateRight(22) }
  function UpperSigma1(x: bv32): (r: bv32) { x.RotateRight(6) ^ x.RotateRight(11) ^ x.RotateRight(25) }
  function LowerSigma0(x: bv32): (r: bv32) { x.RotateRight(7) ^ x.RotateRight(18) ^ (x >> 3) }
  function LowerSigma1(x: bv32): (r: bv32) { x.RotateRight(17) ^ x.RotateRight(19) ^ (x >> 10) }
  function Ch(x: bv32, y: bv32, z: bv32): (r: bv32) { (x & y) ^ (!x & z) }
  function Maj(x: bv32, y: bv32, z: bv32): (r: bv32) { (x & y) ^ (x & z) ^ (y & z) }

  /** Addition modulo 2^32. */
  function Plus(x: bv32, y: bv32): (r: bv32) { x + y }
  function Sum4(w: bv32, x: bv32, y: bv32, z: bv32): (r: bv32) { w + x + y + z }

  /** The constants of section 4.2.2, eight to a row. */
  const K_ROWS: seq<seq<bv32>> := [
    [0x428a2f98, 0x71374491, 0xb5c0fbcf, 0xe9b5dba5, 0x3956c25b, 0x59f111f1, 0x923f82a4, 0xab1c5ed5],
    [0xd807aa98, 0x12835b01, 0x243185be, 0x550c7dc3, 0x72be5d74, 0x80deb1fe, 0x9bdc06a7, 0xc19bf174],
    [0xe49b69c1, 0xefbe4786, 0x0fc19dc6, 0x240ca1cc, 0x2de92c6f, 0x4a7484aa, 0x5cb0a9dc, 0x76f988da],
    [0x983e5152, 0xa831c66d, 0xb00327c8, 0xbf597fc7, 0xc6e00bf3, 0xd5a79147, 0x06ca6351, 0x14292967],
    [0x27b70a85, 0x2e1b2138, 0x4d2c6dfc, 0x53380d13, 0x650a7354, 0x766a0abb, 0x81c2c92e, 0x92722c85],
    [0xa2bfe8a1, 0xa81a664b, 0xc24b8b70, 0xc76c51a3, 0xd192e819, 0xd6990624, 0xf40e3585, 0x106aa070],
    [0x19a4c116, 0x1e376c08, 0x2748774c, 0x34b0bcb5, 0x391c0cb3, 0x4ed8aa4a, 0x5b9cca4f, 0x682e6ff3],
    [0x748f82ee, 0x78a5636f, 0x84c87814, 0x8cc70208, 0x90befffa, 0xa4506ceb, 0xbef9a3f7, 0xc67178f2]]

  function K(t: nat): (k: bv32)
    requires t < 64
  {
    K_ROWS[t / 8][t % 8]
  }

  // ---------------------------------------------------------------- section 5: padding and the initial value

  /** The `k` low octets of `n`, most significant first. */
  function BigEndian(n: nat, k: nat): (bs: seq<Octet>)
    ensures |bs| == k
  {
    if k == 0 then [] else BigEndian(n / 256, k - 1) + [(n % 256) as bv8]
  }

  /** The number of zero octets between the 1 bit's octet and the 64-bit length: the least that fills a block. */
  function ZeroOctets(l: nat): (k: nat)
    ensures k < BLOCK && (l + 1 + k) % BLOCK == 56
  {
    (119 - l % BLOCK) % BLOCK
  }

  function Zeros(k: nat): (z: seq<Octet>)
    ensures |z| == k
  {
    seq(k, _ => 0)
  }

  lemma LengthFillsBlock(x: nat)
    requires x % BLOCK == 56
    ensures (x + 8) % BLOCK == 0
  {
  }

  /** Section 5.1.1: the message, the bit 1, zero bits, and the length in bits. */
  function Pad(m: seq<Octet>): (p: seq<Octet>)
    ensures |p| % BLOCK == 0
  {
    PadWith(m, BigEndian(8 * |m|, 8))
  }

  /** Padding that ends in the eight octets `length`. */
  function PadWith(m: seq<Octet>, length: seq<Octet>): (p: seq<Octet>)
    requires |length| == 8
    ensures |p| % BLOCK == 0
  {
    LengthFillsBlock(|m| + 1 + ZeroOctets(|m|));
    m + [0x80] + Zeros(ZeroOctets(|m|)) + length
  }

  /** Eight working or hash words. */
  datatype Hash = Hash(a: bv32, b: bv32, c: bv32, d: bv32, e: bv32, f: bv32, g: bv32, h: bv32)

  /** Section 5.3.3. */
  const H0: Hash := Hash(0x6a09e667, 0xbb67ae85, 0x3c6ef372, 0xa54ff53a, 0x510e527f, 0x9b05688c, 0x1f83d9ab, 0x5be0cd19)

  // ---------------------------------------------------------------- section 6.2.2: computation

  function Word(p: seq<Octet>, off: nat): (w: bv32)
    requires off + 4 <= |p|
  {
    ((p[off] as bv32) << 24) | ((p[off + 1] as bv32) << 16) | ((p[off + 2] as bv32) << 8) | (p[off + 3] as bv32)
  }

  /** The message schedule. */
  function Schedule(block: seq<Octet>, t: nat): (w: bv32)
    requires |block| == BLOCK && t < 64
  {
    if t < 16 then Word(block, 4 * t)
    else Sum4(LowerSigma1(Schedule(block, t - 2)), Schedule(block, t - 7),
              LowerSigma0(Schedule(block, t - 15)), Schedule(block, t - 16))
  }

  function T1(e: bv32, f: bv32, g: bv32, h: bv32, k: bv32, w: bv32): (r: bv32) {
    Plus(Plus(Plus(Plus(h, UpperSigma1(e)), Ch(e, f, g)), k), w)
  }

  function T2(a: bv32, b: bv32, c: bv32): (r: bv32) {
    Plus(UpperSigma0(a), Maj(a, b, c))
  }

  /** One round: h, g and f move up, e gets d + T1; d, c and b move up, a gets T1 + T2. */
  function Round(v: Hash, k: bv32, w: bv32): (r: Hash) {
    var t1, t2 := T1(v.e, v.f, v.g, v.h, k, w), T2(v.a, v.b, v.c);
    Hash(Plus(t1, t2), v.a, v.b, v.c, Plus(v.d, t1), v.e, v.f, v.g)
  }

  /** The working variables after `t` rounds. */
  function Rounds(v: Hash, block: seq<Octet>, t: nat): (r: Hash)
    requires |block| == BLOCK && t <= 64
  {
    if t == 0 then v else Round(Rounds(v, block, t - 1), K(t - 1), Schedule(block, t - 1))
  }

  function AddHash(x: Hash, y: Hash): (r: Hash) {
    Hash(Plus(x.a, y.a), Plus(x.b, y.b), Plus(x.c, y.c), Plus(x.d, y.d),
         Plus(x.e, y.e), Plus(x.f, y.f), Plus(x.g, y.g), Plus(x.h, y.h))
  }

  function Compress(v: Hash, block: seq<Octet>): (r: Hash)
    requires |block| == BLOCK
  {
    AddHash(v, Rounds(v, block, 64))
  }

  /** The hash value after all blocks of `p`. */
  function HashBlocks(v: Hash, p: seq<Octet>): (r: Hash)
    requires |p| % BLOCK == 0
    decreases |p|
  {
    if p == [] then v else HashBlocks(Compress(v, p[..BLOCK]), p[BLOCK..])
  }

  function WordOctets(w: bv32): (bs: seq<Octet>)
    ensures |bs| == 4
  {
    [((w >> 24) & 0xFF) as bv8, ((w >> 16) & 0xFF) as bv8, ((w >> 8) & 0xFF) as bv8, (w & 0xFF) as bv8]
  }

  function HashOctets(v: Hash): (bs: seq<Octet>)
    ensures |bs| == 32
  {
    WordOctets(v.a) + WordOctets(v.b) + WordOctets(v.c) + WordOctets(v.d)
    + WordOctets(v.e) + WordOctets(v.f) + WordOctets(v.g) + WordOctets(v.h)
  }

  function Sha256(m: seq<Octet>): (digest: seq<Octet>)
    ensures |digest| == 32
  {
    HashOctets(HashBlocks(H0, Pad(m)))
  }

  // ---------------------------------------------------------------- RFC 2104, section 2

  function Xor(bs: seq<Octet>, x: Octet): (r: seq<Octet>)
    ensures |r| == |bs|
  {
    seq(|bs|, i requires 0 <= i < |bs| => bs[i] ^ x)
  }

  /** H(K XOR opad, H(K XOR ipad, text)) for a key no longer than a block, extended with zeros to a block. */
  function Hmac(key: seq<Octet>, text: seq<Octet>): (mac: seq<Octet>)
    requires |key| <= BLOCK
    ensures |mac| == 32
  {
    var k := key + Zeros(BLOCK - |key|);
    Sha256(Xor(k, 0x5c) + Sha256(Xor(k, 0x36) + text))
  }

  // ---------------------------------------------------------------- blocks compose

  lemma {:induction false} HashBlocksAppend(v: Hash, p: seq<Octet>, q: seq<Octet>)
    requires |p| % BLOCK == 0 && |q| % BLOCK == 0
    ensures HashBlocks(v, p + q) == HashBlocks(HashBlocks(v, p), q)
    decreases |p|
  {
    if p == [] {
      assert p + q == q;
    } else {
      assert (p + q)[..BLOCK] == p[..BLOCK] && (p + q)[BLOCK..] == p[BLOCK..] + q;
      HashBlocksAppend(Compress(v, p[..BLOCK]), p[BLOCK..], q);
    }
  }

  lemma HashOneBlock(v: Hash, p: seq<Octet>)
    requires |p| == BLOCK
    ensures HashBlocks(v, p) == Compress(v, p)
  {
    assert p[..BLOCK] == p && p[BLOCK..] == [];
  }
}
