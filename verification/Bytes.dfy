/** Little-endian integers in byte memory, and what a store leaves unchanged. */
module Bytes {
  import opened Base

  type Byte = b: int | 0 <= b < 256

  /** The value of a little-endian byte string. */
  function FromLE(bs: seq<Byte>): (v: nat) {
    if bs == [] then 0 else bs[0] + 256 * FromLE(bs[1..])
  }

  /** The first byte is the least significant. */
  lemma FromLEOf(a: Byte, b: Byte, c: Byte, d: Byte)
    ensures FromLE([a, b]) == a + 0x100 * b && FromLE([a, b, c, d]) == a + 0x100 * b + 0x1_0000 * c + 0x100_0000 * d
  {
    assert [a, b][1..] == [b] && [b][1..] == [];
    assert [a, b, c, d][1..] == [b, c, d] && [b, c, d][1..] == [c, d] && [c, d][1..] == [d] && [d][1..] == [];
    assert FromLE([d]) == d && FromLE([c, d]) == c + 0x100 * FromLE([d]);
    assert FromLE([b, c, d]) == b + 0x100 * FromLE([c, d]);
  }

  /** And a longer value is its low bytes and its high ones. */
  lemma {:induction false} FromLEJoin(bs: seq<Byte>, hs: seq<Byte>)
    ensures FromLE(bs + hs) == FromLE(bs) + Pow256(|bs|) * FromLE(hs)
    decreases |bs|
  {
    if bs == [] {
      assert bs + hs == hs;
    } else {
      FromLEJoin(bs[1..], hs);
      assert (bs + hs)[1..] == bs[1..] + hs;
      Distributes(FromLE(bs[1..]), Pow256(|bs| - 1), FromLE(hs));
    }
  }

  lemma Distributes(a: nat, p: nat, h: nat)
    ensures 256 * (a + p * h) == 256 * a + 256 * p * h
  {
  }

  /** The `k` low bytes of `v`, little-endian. */
  function ToLE(v: nat, k: nat): (bs: seq<Byte>)
    ensures |bs| == k
  {
    if k == 0 then [] else [v % 256] + ToLE(v / 256, k - 1)
  }

  lemma {:induction false} RoundTripLE(v: nat, k: nat)
    requires v < Pow256(k)
    ensures FromLE(ToLE(v, k)) == v
  {
    if k == 0 {
    } else {
      RoundTripLE(v / 256, k - 1);
      assert ToLE(v, k)[1..] == ToLE(v / 256, k - 1);
    }
  }

  lemma Widths()
    ensures Pow256(2) == 0x1_0000 && Pow256(4) == 0x1_0000_0000 && Pow256(8) == 0x1_0000_0000_0000_0000
  {
    assert Pow256(1) == 256;
    assert Pow256(3) == 256 * Pow256(2);
    assert Pow256(5) == 256 * Pow256(4);
    assert Pow256(7) == 256 * Pow256(6) == 256 * 256 * Pow256(5);
  }

  /** The integer of width `k` stored at `off`. */
  function Load(m: seq<Byte>, off: nat, k: nat): (v: nat)
    requires off + k <= |m|
  {
    FromLE(m[off..off + k])
  }

  /** Memory after the bytes `bs` are stored at `off`. */
  function Splice(m: seq<Byte>, off: nat, bs: seq<Byte>): (r: seq<Byte>)
    requires off + |bs| <= |m|
    ensures |r| == |m|
  {
    m[..off] + bs + m[off + |bs|..]
  }

  function StoreLE(m: seq<Byte>, off: nat, k: nat, v: nat): (r: seq<Byte>)
    requires off + k <= |m|
    ensures |r| == |m|
  {
    Splice(m, off, ToLE(v, k))
  }

  /** A store changes no byte outside its range. */
  lemma SpliceElsewhere(m: seq<Byte>, off: nat, bs: seq<Byte>, lo: nat, hi: nat)
    requires off + |bs| <= |m| && lo <= hi <= |m|
    requires hi <= off || off + |bs| <= lo
    ensures Splice(m, off, bs)[lo..hi] == m[lo..hi]
  {
  }

  lemma SpliceHere(m: seq<Byte>, off: nat, bs: seq<Byte>)
    requires off + |bs| <= |m|
    ensures Splice(m, off, bs)[off..off + |bs|] == bs
  {
  }

  lemma LoadStored(m: seq<Byte>, off: nat, k: nat, v: nat)
    requires off + k <= |m| && v < Pow256(k)
    ensures Load(StoreLE(m, off, k, v), off, k) == v
  {
    SpliceHere(m, off, ToLE(v, k));
    RoundTripLE(v, k);
  }

  lemma LoadElsewhere(m: seq<Byte>, off: nat, bs: seq<Byte>, at: nat, k: nat)
    requires off + |bs| <= |m| && at + k <= |m|
    requires at + k <= off || off + |bs| <= at
    ensures Load(Splice(m, off, bs), at, k) == Load(m, at, k)
  {
    SpliceElsewhere(m, off, bs, at, at + k);
  }

  /** memcpy of `bs` into an array. */
  method Copy(a: array<Byte>, off: nat, bs: seq<Byte>)
    requires off + |bs| <= a.Length
    modifies a
    ensures a[..] == Splice(old(a[..]), off, bs)
  {
    for i := 0 to |bs|
      invariant a[..off] == old(a[..off])
      invariant a[off..off + i] == bs[..i]
      invariant a[off + i..] == old(a[off + i..])
    {
      a[off + i] := bs[i];
      assert a[off..off + i + 1] == a[off..off + i] + [bs[i]];
      assert a[off + i..][1..] == a[off + i + 1..];
    }
    assert a[..] == a[..off] + a[off..off + |bs|] + a[off + |bs|..];
  }
}
