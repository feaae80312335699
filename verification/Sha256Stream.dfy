/** The streaming SHA-256 of the library: an in-place block buffer, in-place rounds, and two padding cases. */
module Sha256Stream {
  import opened Base
  import opened Sha256Spec

  const TWO61: nat := 0x2000_0000_0000_0000

  // ---------------------------------------------------------------- the rotations and sums of the code

  method SmallSigma0(x: bv32) returns (r: bv32)
    ensures r == LowerSigma0(x)
  {
    r := ((x >> 7) | (x << 25)) ^ ((x >> 18) | (x << 14)) ^ (x >> 3);
  }

  method SmallSigma1(x: bv32) returns (r: bv32)
    ensures r == LowerSigma1(x)
  {
    r := ((x >> 17) | (x << 15)) ^ ((x >> 19) | (x << 13)) ^ (x >> 10);
  }

  method BigSigma0(x: bv32) returns (r: bv32)
    ensures r == UpperSigma0(x)
  {
    r := ((x >> 2) | (x << 30)) ^ ((x >> 13) | (x << 19)) ^ ((x >> 22) | (x << 10));
  }

  method BigSigma1(x: bv32) returns (r: bv32)
    ensures r == UpperSigma1(x)
  {
    r := ((x >> 6) | (x << 26)) ^ ((x >> 11) | (x << 21)) ^ ((x >> 25) | (x << 7));
  }

  method Choice(e: bv32, f: bv32, g: bv32) returns (r: bv32)
    ensures r == Ch(e, f, g)
  {
    r := (e & f) ^ (!e & g);
  }

  method Majority(a: bv32, b: bv32, c: bv32) returns (r: bv32)
    ensures r == Maj(a, b, c)
  {
    r := (a & b) ^ (a & c) ^ (b & c);
  }

  /** Unsigned 32-bit addition. */
  method Add(x: bv32, y: bv32) returns (r: bv32)
    ensures r == Plus(x, y)
  {
    r := x + y;
  }

  /** The four-term sum of the schedule, whose terms the code adds in the opposite order. */
  method SumOfFour(a: bv32, b: bv32, c: bv32, d: bv32) returns (r: bv32)
    ensures r == Sum4(d, c, b, a)
  {
    r := a + b + c + d;
  }

  /** `load_be32`. */
  method LoadBe32(p: seq<Octet>, off: nat) returns (w: bv32)
    requires off + 4 <= |p|
    ensures w == Word(p, off)
  {
    w := ((p[off] as bv32) << 24) | ((p[off + 1] as bv32) << 16) | ((p[off + 2] as bv32) << 8) | (p[off + 3] as bv32);
  }

  /** The hash words of an array. */
  function HashOf(h: seq<bv32>): (v: Hash)
    requires |h| == 8
  {
    Hash(h[0], h[1], h[2], h[3], h[4], h[5], h[6], h[7])
  }

  /** The number of octets in the whole blocks of a message. */
  function Full(m: seq<Octet>): (n: nat)
    ensures n <= |m| && n % BLOCK == 0 && |m| - n < BLOCK
  {
    |m| - |m| % BLOCK
  }

  lemma JoinedParts(m: seq<Octet>, data: seq<Octet>, off: nat, take: nat)
    requires off + take <= |data|
    ensures m + data[..off] + data[off..off + take] == m + data[..off + take]
  {
  }

  lemma AbsorbPart(m: seq<Octet>, d: seq<Octet>)
    requires |m| - Full(m) + |d| < BLOCK
    ensures Full(m + d) == Full(m) && (m + d)[..Full(m)] == m[..Full(m)] && (m + d)[Full(m)..] == m[Full(m)..] + d
  {
  }

  lemma FullWhenWhole(m: seq<Octet>)
    requires |m| % BLOCK == 0
    ensures Full(m) == |m|
  {
  }

  lemma NextMultiple(x: nat)
    requires x % BLOCK == 0
    ensures (x + BLOCK) % BLOCK == 0
  {
  }

  /** Octets that complete a block extend the hash by one compression. */
  lemma AbsorbBlock(m: seq<Octet>, d: seq<Octet>)
    requires |m| - Full(m) + |d| == BLOCK
    ensures Full(m + d) == |m + d|
    ensures HashBlocks(H0, m + d) == Compress(HashBlocks(H0, m[..Full(m)]), m[Full(m)..] + d)
  {
    var last := m[Full(m)..] + d;
    NextMultiple(Full(m));
    FullWhenWhole(m + d);
    assert m + d == m[..Full(m)] + last;
    HashBlocksAppend(H0, m[..Full(m)], last);
    HashOneBlock(HashBlocks(H0, m[..Full(m)]), last);
  }

  /** One turn of the second schedule loop. */
  method NextWord(block: seq<Octet>, w: array<bv32>, i: nat) returns (x: bv32)
    requires |block| == BLOCK && w.Length == 64 && 16 <= i < 64
    requires forall t :: 0 <= t < i ==> w[t] == Schedule(block, t)
    ensures x == Schedule(block, i)
  {
    var s0 := SmallSigma0(w[i - 15]);
    var s1 := SmallSigma1(w[i - 2]);
    x := SumOfFour(w[i - 16], s0, w[i - 7], s1);
  }

  /** The first schedule loop: sixteen words from the block. */
  method LoadWords(block: seq<Octet>) returns (w: array<bv32>)
    requires |block| == BLOCK
    ensures w.Length == 64 && fresh(w)
    ensures forall t :: 0 <= t < 16 ==> w[t] == Schedule(block, t)
  {
    w := new bv32[64](_ => 0);
    for i := 0 to 16
      invariant forall t :: 0 <= t < i ==> w[t] == Schedule(block, t)
    {
      w[i] := LoadBe32(block, i * 4);
    }
  }

  /** The whole schedule: the rest comes from earlier words. */
  method ExpandBlock(block: seq<Octet>) returns (w: array<bv32>)
    requires |block| == BLOCK
    ensures w.Length == 64 && fresh(w)
    ensures forall t :: 0 <= t < 64 ==> w[t] == Schedule(block, t)
  {
    w := LoadWords(block);
    for i := 16 to 64
      invariant forall t :: 0 <= t < i ==> w[t] == Schedule(block, t)
    {
      w[i] := NextWord(block, w, i);
    }
  }

  /** The two sums of one turn of the round loop. */
  method RoundSums(a: bv32, b: bv32, c: bv32, e: bv32, f: bv32, g: bv32, h: bv32, k: bv32, w: bv32)
    returns (temp1: bv32, temp2: bv32)
    ensures temp1 == T1(e, f, g, h, k, w) && temp2 == T2(a, b, c)
  {
    var s1 := BigSigma1(e);
    var ch := Choice(e, f, g);
    temp1 := Add(h, s1);
    temp1 := Add(temp1, ch);
    temp1 := Add(temp1, k);
    temp1 := Add(temp1, w);
    var s0 := BigSigma0(a);
    var maj := Majority(a, b, c);
    temp2 := Add(s0, maj);
  }

  /** The round loop: the eight working variables are shifted in place, one assignment after the other. */
  method RoundLoop(v0: Hash, block: seq<Octet>) returns (v: Hash)
    requires |block| == BLOCK
    ensures v == Rounds(v0, block, 64)
  {
    var words := ExpandBlock(block);
    var a, b, c, d := v0.a, v0.b, v0.c, v0.d;
    var e, f, g, h := v0.e, v0.f, v0.g, v0.h;
    for i := 0 to 64
      invariant Hash(a, b, c, d, e, f, g, h) == Rounds(v0, block, i)
      invariant forall t :: 0 <= t < 64 ==> words[t] == Schedule(block, t)
    {
      assert words[i] == Schedule(block, i);
      var temp1, temp2 := RoundSums(a, b, c, e, f, g, h, K(i), words[i]);
      NextRound(v0, block, i);
      h := g;
      g := f;
      f := e;
      e := Add(d, temp1);
      d := c;
      c := b;
      b := a;
      a := Add(temp1, temp2);
    }
    v := Hash(a, b, c, d, e, f, g, h);
  }

  lemma NextRound(v0: Hash, block: seq<Octet>, i: nat)
    requires |block| == BLOCK && i < 64
    ensures Rounds(v0, block, i + 1) == Round(Rounds(v0, block, i), K(i), Schedule(block, i))
  {
  }

  class Sha256State {
    const h: array<bv32>
    const block: array<Octet>
    var totalBytes: nat
    var blockUsed: nat
    /** Everything fed to the state so far. */
    ghost var message: seq<Octet>

    ghost predicate Shape()
      reads this
    {
      h.Length == 8 && block.Length == BLOCK
    }

    /** The hash words cover the whole blocks of `m` and the buffer holds the rest. */
    ghost predicate Holds(m: seq<Octet>)
      reads this, h, block
    {
      && Shape()
      && blockUsed == |m| - Full(m)
      && HashOf(h[..]) == HashBlocks(H0, m[..Full(m)])
      && block[..blockUsed] == m[Full(m)..]
    }

    ghost predicate Valid()
      reads this, h, block
    {
      Holds(message) && totalBytes == |message| && |message| < TWO61
    }

    /** `sha256_init`. */
    constructor ()
      ensures Valid() && message == [] && fresh(h) && fresh(block)
    {
      h := new bv32[8](i => if i == 0 then 0x6a09e667 else if i == 1 then 0xbb67ae85 else if i == 2 then 0x3c6ef372
                            else if i == 3 then 0xa54ff53a else if i == 4 then 0x510e527f else if i == 5 then 0x9b05688c
                            else if i == 6 then 0x1f83d9ab else 0x5be0cd19);
      block := new Octet[BLOCK](_ => 0);
      totalBytes, blockUsed, message := 0, 0, [];
    }

    /** `sha256_transform`: the in-place rounds over the buffered block compute the compression function. */
    method Transform()
      requires Shape()
      modifies h
      ensures HashOf(h[..]) == Compress(old(HashOf(h[..])), block[..])
    {
      var v := RoundLoop(HashOf(h[..]), block[..]);
      AddIn(v);
    }

    method AddIn(v: Hash)
      requires Shape()
      modifies h
      ensures HashOf(h[..]) == AddHash(old(HashOf(h[..])), v)
    {
      h[0] := Add(h[0], v.a);
      h[1] := Add(h[1], v.b);
      h[2] := Add(h[2], v.c);
      h[3] := Add(h[3], v.d);
      h[4] := Add(h[4], v.e);
      h[5] := Add(h[5], v.f);
      h[6] := Add(h[6], v.g);
      h[7] := Add(h[7], v.h);
    }

    /** Copies `d` into the buffer at `at`. */
    method Fill(at: nat, d: seq<Octet>)
      requires Shape() && at + |d| <= BLOCK
      modifies block
      ensures block[..] == old(block[..])[..at] + d + old(block[..])[at + |d|..]
    {
      for i := 0 to |d|
        invariant block[..] == old(block[..])[..at] + d[..i] + old(block[..])[at + i..]
      {
        block[at + i] := d[i];
      }
    }

    /** One turn of the update loop: as much input as fits the buffer, and a compression when it is full. */
    method Absorb(d: seq<Octet>, ghost m: seq<Octet>)
      requires Holds(m) && |d| <= BLOCK - blockUsed
      modifies this`blockUsed, h, block
      ensures Holds(m + d)
    {
      Fill(blockUsed, d);
      blockUsed := blockUsed + |d|;
      assert block[..blockUsed] == m[Full(m)..] + d;
      if blockUsed == BLOCK {
        assert block[..] == m[Full(m)..] + d;
        AbsorbBlock(m, d);
        Transform();
        blockUsed := 0;
        assert (m + d)[..Full(m + d)] == m + d;
      } else {
        AbsorbPart(m, d);
      }
    }

    /** The loop of `sha256_update`. */
    method Feed(data: seq<Octet>, ghost m: seq<Octet>)
      requires Holds(m)
      modifies this`blockUsed, h, block
      ensures Holds(m + data)
    {
      var off := 0;
      assert m + data[..0] == m;
      while off < |data|
        invariant off <= |data| && Holds(m + data[..off])
      {
        var room := BLOCK - blockUsed;
        var take := if |data| - off < room then |data| - off else room;
        Absorb(data[off..off + take], m + data[..off]);
        JoinedParts(m, data, off, take);
        off := off + take;
      }
      assert data[..off] == data;
    }

    /** `sha256_update`. */
    method Update(data: seq<Octet>)
      requires Valid() && |message| + |data| < TWO61
      modifies this, h, block
      ensures Valid() && message == old(message) + data
    {
      totalBytes := totalBytes + |data|;
      Feed(data, message);
      message := message + data;
    }

    /** Writes the length of the message in bits, most significant octet first, at the end of the buffer. */
    method FillLength(bits: nat)
      requires Shape()
      modifies block
      ensures block[..] == old(block[..])[..56] + BigEndian(bits, 8)
    {
      for i := 0 to 8
        invariant block[..56] == old(block[..])[..56]
        invariant block[56..56 + i] == BigEndian(bits, 8)[..i]
      {
        block[56 + i] := ShiftedOctet(bits, 7 - i);
        BigEndianOctet(bits, 8, i);
        assert block[56..56 + i + 1] == block[56..56 + i] + [block[56 + i]];
      }
      assert block[..] == block[..56] + block[56..64];
    }

    /** The padding of `sha256_final` when the length still fits behind the 0x80. */
    method PadInOne(r: nat, length: nat)
      requires Holds(message) && r == blockUsed < 56
      modifies this`blockUsed, h, block
      ensures HashOf(h[..]) == HashBlocks(H0, PadWith(message, BigEndian(length, 8)))
    {
      Fill(r, [0x80]);
      Fill(r + 1, Zeros(55 - r));
      FillLength(length);
      assert block[..] == Marked(message, 55 - r) + BigEndian(length, 8);
      PadOneBlock(message, r, BigEndian(length, 8));
      Transform();
    }

    /** And when it does not: the rest of this block is zeros and the length ends the next one. */
    method PadInTwo(r: nat, length: nat)
      requires Holds(message) && r == blockUsed && 56 <= r < 64
      modifies this`blockUsed, h, block
      ensures HashOf(h[..]) == HashBlocks(H0, PadWith(message, BigEndian(length, 8)))
    {
      Fill(r, [0x80]);
      Fill(r + 1, Zeros(63 - r));
      assert block[..] == Marked(message, 63 - r);
      Transform();
      Fill(0, Zeros(56));
      FillLength(length);
      assert block[..] == Zeros(56) + BigEndian(length, 8);
      PadTwoBlocks(message, r, BigEndian(length, 8));
      Transform();
    }

    /** The two padding cases. */
    method PadMessage()
      requires Valid()
      modifies this`blockUsed, h, block
      ensures HashOf(h[..]) == HashBlocks(H0, Pad(message))
    {
      var length := 8 * totalBytes;
      if blockUsed + 1 > 56 {
        PadInTwo(blockUsed, length);
      } else {
        PadInOne(blockUsed, length);
      }
    }

    /** `sha256_final`: the digest of everything fed so far. */
    method Final() returns (digest: seq<Octet>)
      requires Valid()
      modifies this, h, block
      ensures digest == Sha256(old(message))
    {
      PadMessage();
      digest := DigestOf(h[..]);
      DigestMeaning(HashOf(h[..]), message);
    }
  }

  lemma DigestMeaning(v: Hash, m: seq<Octet>)
    requires v == HashBlocks(H0, Pad(m))
    ensures HashOctets(v) == Sha256(m)
  {
  }

  /** `static_cast<uint8_t>(bits >> (8 * k))`. */
  function ShiftedOctet(bits: nat, k: nat): (b: Octet) {
    (bits / Pow256(k) % 256) as bv8
  }

  lemma {:induction false} BigEndianOctet(n: nat, k: nat, i: nat)
    requires i < k
    ensures BigEndian(n, k)[i] == ShiftedOctet(n, k - 1 - i)
  {
    if i == k - 1 {
    } else {
      BigEndianOctet(n / 256, k - 1, i);
      DivideTwice(n, Pow256(k - 2 - i));
    }
  }

  lemma DivideTwice(n: nat, d: nat)
    requires d > 0
    ensures n / 256 / d == n / (256 * d)
  {
    var q, r := n / 256, n % 256;
    var p, s := q / d, q % d;
    assert n == 256 * (d * p + s) + r;
    assert n == (256 * d) * p + (256 * s + r);
    QuotientIs(n, 256 * d, p, 256 * s + r);
  }

  lemma QuotientIs(n: nat, d: nat, q: nat, r: nat)
    requires d > 0 && r < d && n == d * q + r
    ensures n / d == q
  {
    var x: int := n / d - q;
    assert d * x == r - n % d;
    assert x >= 1 ==> d * x >= d;
    assert x <= -1 ==> d * (-x) >= d;
  }

  /** The digest loop: the eight words, big-endian. */
  method DigestOf(h: seq<bv32>) returns (digest: seq<Octet>)
    requires |h| == 8
    ensures digest == HashOctets(HashOf(h))
  {
    digest := [];
    for i := 0 to 8
      invariant digest == OctetsOf(h, i)
    {
      digest := digest + [((h[i] >> 24) & 0xFF) as bv8, ((h[i] >> 16) & 0xFF) as bv8, ((h[i] >> 8) & 0xFF) as bv8,
                          (h[i] & 0xFF) as bv8];
    }
    EightWords(h);
  }

  /** The octets of the first `k` words. */
  function OctetsOf(ws: seq<bv32>, k: nat): (bs: seq<Octet>)
    requires k <= |ws|
  {
    if k == 0 then [] else OctetsOf(ws, k - 1) + WordOctets(ws[k - 1])
  }

  lemma EightWords(h: seq<bv32>)
    requires |h| == 8
    ensures OctetsOf(h, 8) == HashOctets(HashOf(h))
  {
    assert OctetsOf(h, 1) == WordOctets(h[0]);
    assert OctetsOf(h, 3) == OctetsOf(h, 1) + WordOctets(h[1]) + WordOctets(h[2]);
    assert OctetsOf(h, 5) == OctetsOf(h, 3) + WordOctets(h[3]) + WordOctets(h[4]);
    assert OctetsOf(h, 7) == OctetsOf(h, 5) + WordOctets(h[5]) + WordOctets(h[6]);
  }

  /** The octets after the whole blocks, the 0x80 and `k` zeros. */
  function Marked(m: seq<Octet>, k: nat): (p: seq<Octet>)
    ensures |p| == |m| - Full(m) + 1 + k
  {
    m[Full(m)..] + [0x80] + Zeros(k)
  }

  lemma ZeroCount(m: seq<Octet>, r: nat)
    requires r == |m| - Full(m)
    ensures ZeroOctets(|m|) == if r < 56 then 55 - r else 119 - r
  {
  }

  lemma PadOneBlock(m: seq<Octet>, r: nat, length: seq<Octet>)
    requires r == |m| - Full(m) && r < 56 && |length| == 8
    ensures HashBlocks(H0, PadWith(m, length))
         == Compress(HashBlocks(H0, m[..Full(m)]), Marked(m, 55 - r) + length)
  {
    var last := Marked(m, 55 - r) + length;
    ZeroCount(m, r);
    assert PadWith(m, length) == m[..Full(m)] + last;
    HashBlocksAppend(H0, m[..Full(m)], last);
    HashOneBlock(HashBlocks(H0, m[..Full(m)]), last);
  }

  lemma PadTwoBlocksSplit(m: seq<Octet>, r: nat, length: seq<Octet>)
    requires r == |m| - Full(m) && r >= 56 && |length| == 8
    ensures PadWith(m, length) == m[..Full(m)] + (Marked(m, 63 - r) + (Zeros(56) + length))
  {
    ZeroCount(m, r);
    assert Zeros(119 - r) == Zeros(63 - r) + Zeros(56);
  }

  lemma PadTwoBlocks(m: seq<Octet>, r: nat, length: seq<Octet>)
    requires r == |m| - Full(m) && r >= 56 && |length| == 8
    ensures HashBlocks(H0, PadWith(m, length))
         == Compress(Compress(HashBlocks(H0, m[..Full(m)]), Marked(m, 63 - r)), Zeros(56) + length)
  {
    var v := HashBlocks(H0, m[..Full(m)]);
    var first, second := Marked(m, 63 - r), Zeros(56) + length;
    PadTwoBlocksSplit(m, r, length);
    HashBlocksAppend(H0, m[..Full(m)], first + second);
    HashBlocksAppend(v, first, second);
    HashOneBlock(v, first);
    HashOneBlock(Compress(v, first), second);
  }

  /** The concatenation of the chunks. */
  function Joined(chunks: seq<seq<Octet>>): (m: seq<Octet>) {
    if chunks == [] then [] else Joined(chunks[..|chunks| - 1]) + chunks[|chunks| - 1]
  }

  lemma {:induction false} JoinedPrefix(chunks: seq<seq<Octet>>, k: nat)
    requires k < |chunks|
    ensures Joined(chunks[..k + 1]) == Joined(chunks[..k]) + chunks[k]
    ensures |Joined(chunks[..k + 1])| <= |Joined(chunks)|
    decreases |chunks|
  {
    assert chunks[..k + 1][..k] == chunks[..k];
    if k + 1 < |chunks| {
      assert chunks[..|chunks| - 1][..k + 1] == chunks[..k + 1] && chunks[..|chunks| - 1][..k] == chunks[..k];
      JoinedPrefix(chunks[..|chunks| - 1], k);
    } else {
      assert chunks[..k + 1] == chunks;
    }
  }

  /** Whatever way a message is split into updates, the digest is that of the whole message. */
  method HashChunks(chunks: seq<seq<Octet>>) returns (digest: seq<Octet>)
    requires |Joined(chunks)| < TWO61
    ensures digest == Sha256(Joined(chunks))
  {
    var state := new Sha256State();
    for i := 0 to |chunks|
      invariant fresh(state) && fresh(state.h) && fresh(state.block)
      invariant state.Valid() && state.message == Joined(chunks[..i])
    {
      JoinedPrefix(chunks, i);
      state.Update(chunks[i]);
    }
    assert chunks[..|chunks|] == chunks;
    digest := state.Final();
  }
}
