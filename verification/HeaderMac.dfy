/** HMAC-SHA256 over the immutable part of a segment header: signing, constant-time comparison and verification. */
module HeaderMac {
  import opened Base
  import opened Sha256Spec
  import opened Sha256Stream

  const IMMUTABLE: nat := 128
  const MAC_END: nat := 160
  const FLAGS_OFFSET: nat := 12

  type Header = h: seq<Octet> | |h| == HEADER_SIZE witness Zeros(HEADER_SIZE)

  /** A key that was found and parsed, or none. */
  datatype KeyOption = NoKey | Key(bytes: seq<Octet>)

  datatype Verdict = Accepted | PermissionDenied | CorruptedHeader

  predicate KeyOk(key: KeyOption) {
    key.Key? ==> |key.bytes| == 32
  }

  /** The key extended with zeros to a block. */
  function BlockKey(key: seq<Octet>): (k: seq<Octet>)
    requires |key| <= BLOCK
    ensures |k| == BLOCK
  {
    key + Zeros(BLOCK - |key|)
  }

  /** The loop that builds the inner and outer pads. */
  method KeyPads(key: seq<Octet>) returns (ipad: seq<Octet>, opad: seq<Octet>)
    requires |key| <= BLOCK
    ensures ipad == Xor(BlockKey(key), 0x36) && opad == Xor(BlockKey(key), 0x5c)
  {
    ipad, opad := [], [];
    for i := 0 to BLOCK
      invariant |ipad| == i && |opad| == i
      invariant forall j :: 0 <= j < i ==> ipad[j] == BlockKey(key)[j] ^ 0x36 && opad[j] == BlockKey(key)[j] ^ 0x5c
    {
      var b: Octet := if i < |key| then key[i] else 0;
      ipad := ipad + [b ^ 0x36];
      opad := opad + [b ^ 0x5c];
    }
  }

  /** Two updates of a fresh state hash the concatenation. */
  method HashTwo(x: seq<Octet>, y: seq<Octet>) returns (digest: seq<Octet>)
    requires |x| + |y| < TWO61
    ensures digest == Sha256(x + y)
  {
    var state := new Sha256State();
    state.Update(x);
    assert [] + x == x;
    state.Update(y);
    digest := state.Final();
  }

  /** `hmac_sha256`. */
  method HmacSha256(key: seq<Octet>, data: seq<Octet>) returns (mac: seq<Octet>)
    requires |key| == 32 && BLOCK + |data| < TWO61
    ensures mac == Hmac(key, data)
    ensures var pad := (x: Octet) => seq(64, i requires 0 <= i < 64 => if i < 32 then key[i] ^ x else x);
            mac == Sha256(pad(0x5c) + Sha256(pad(0x36) + data))
  {
    var ipad, opad := KeyPads(key);
    var inner := HashTwo(ipad, data);
    mac := HashTwo(opad, inner);
    PadBytes(key, 0x36);
    PadBytes(key, 0x5c);
  }

  /** The padded key, byte by byte: 32 bytes of the key and 32 of zero, each combined with the pad byte. */
  lemma PadBytes(key: seq<Octet>, x: Octet)
    requires |key| == 32
    ensures Xor(BlockKey(key), x) == seq(64, i requires 0 <= i < 64 => if i < 32 then key[i] ^ x else x)
  {
    var k := BlockKey(key);
    assert forall i :: 0 <= i < 64 ==> k[i] == if i < 32 then key[i] else 0;
    assert forall i :: 0 <= i < 64 ==> Xor(k, x)[i] == k[i] ^ x;
    ZeroXor(x);
  }

  lemma ZeroXor(x: Octet)
    ensures 0 ^ x == x
  {
  }

  lemma DifferenceBits(diff: Octet, x: Octet, y: Octet)
    ensures diff | (x ^ y) == 0 <==> diff == 0 && x == y
  {
  }

  /** `digest_equal`: no early exit, and true exactly on equal digests. */
  method DigestEqual(lhs: seq<Octet>, rhs: seq<Octet>) returns (equal: bool)
    requires |lhs| == |rhs|
    ensures equal <==> lhs == rhs
  {
    var diff: Octet := 0;
    for i := 0 to |rhs|
      invariant diff == 0 <==> lhs[..i] == rhs[..i]
    {
      DifferenceBits(diff, lhs[i], rhs[i]);
      assert lhs[..i + 1] == lhs[..i] + [lhs[i]] && rhs[..i + 1] == rhs[..i] + [rhs[i]];
      diff := diff | (lhs[i] ^ rhs[i]);
    }
    assert lhs[..|rhs|] == lhs && rhs[..|rhs|] == rhs;
    equal := diff == 0;
  }

  // ---------------------------------------------------------------- headers

  /** Bit 0 of the little-endian flags word. */
  predicate HmacEnabled(h: Header) {
    h[FLAGS_OFFSET] & 1 != 0
  }

  function Mac(h: Header): (mac: seq<Octet>)
    ensures |mac| == 32
  {
    h[IMMUTABLE..MAC_END]
  }

  function WithMac(h: Header, mac: seq<Octet>): (r: Header)
    requires |mac| == 32
  {
    h[..IMMUTABLE] + mac + h[MAC_END..]
  }

  function Computed(h: Header, key: seq<Octet>): (mac: seq<Octet>)
    requires |key| == 32
    ensures |mac| == 32
  {
    Hmac(key, h[..IMMUTABLE])
  }

  /** The header after signing, if signing is possible. */
  function Signed(h: Header, key: KeyOption): (r: (Header, Verdict))
    requires KeyOk(key)
  {
    if !HmacEnabled(h) then (WithMac(h, Zeros(32)), Accepted)
    else if key.NoKey? then (h, PermissionDenied)
    else (WithMac(h, Computed(h, key.bytes)), Accepted)
  }

  function Verified(h: Header, key: KeyOption): (v: Verdict)
    requires KeyOk(key)
  {
    if !HmacEnabled(h) && Mac(h) == Zeros(32) then Accepted
    else if key.NoKey? then PermissionDenied
    else if Mac(h) == Computed(h, key.bytes) then Accepted
    else CorruptedHeader
  }

  lemma SignedParts(h: Header, key: KeyOption)
    requires KeyOk(key)
    ensures var r := Signed(h, key).0;
            && r[..128] == h[..128] && r[160..] == h[160..]
            && (HmacEnabled(h) && key.Key? ==> r[128..160] == Hmac(key.bytes, h[..128]))
            && (!HmacEnabled(h) ==> r[128..160] == Zeros(32) && forall i :: 128 <= i < 160 ==> r[i] == 0)
  {
    if !HmacEnabled(h) {
      assert forall i :: 128 <= i < 160 ==> Signed(h, key).0[i] == Zeros(32)[i - 128];
    }
  }

  /** `sign_header_if_enabled` on the header in place. */
  method SignHeaderIfEnabled(header: array<Octet>, key: KeyOption) returns (v: Verdict)
    requires header.Length == HEADER_SIZE && KeyOk(key)
    modifies header
    ensures (header[..], v) == Signed(old(header[..]), key)
    ensures header[..128] == old(header[..128]) && header[160..] == old(header[160..])
    ensures old(header[12]) & 1 != 0 && key.Key? ==>
              v == Accepted && header[128..160] == Hmac(key.bytes, old(header[..128]))
    ensures old(header[12]) & 1 != 0 && key.NoKey? ==> v == PermissionDenied && header[..] == old(header[..])
    ensures old(header[12]) & 1 == 0 ==> v == Accepted && forall i :: 128 <= i < 160 ==> header[i] == 0
  {
    SignedParts(header[..], key);
    if header[FLAGS_OFFSET] & 1 == 0 {
      PutMac(header, Zeros(32));
      return Accepted;
    }
    if key.NoKey? {
      return PermissionDenied;
    }
    ghost var h := header[..];
    PutMac(header, Zeros(32));
    assert header[..IMMUTABLE] == h[..IMMUTABLE];
    var digest := HmacSha256(key.bytes, header[..IMMUTABLE]);
    PutMac(header, digest);
    assert WithMac(WithMac(h, Zeros(32)), digest) == WithMac(h, digest);
    v := Accepted;
  }

  /** Copies a MAC into its field. */
  method PutMac(header: array<Octet>, mac: seq<Octet>)
    requires header.Length == HEADER_SIZE && |mac| == 32
    modifies header
    ensures header[..] == WithMac(old(header[..]), mac)
  {
    for i := 0 to 32
      invariant header[..] == old(header[..])[..IMMUTABLE] + mac[..i] + old(header[..])[IMMUTABLE + i..]
    {
      header[IMMUTABLE + i] := mac[i];
    }
  }

  lemma ZeroMac(h: Header)
    ensures Mac(h) == Zeros(32) <==> forall i :: 128 <= i < 160 ==> h[i] == 0
  {
    if forall i :: 128 <= i < 160 ==> h[i] == 0 {
      assert Mac(h) == Zeros(32);
    }
    if Mac(h) == Zeros(32) {
      assert forall i :: 128 <= i < 160 ==> h[i] == Mac(h)[i - 128];
    }
  }

  /** `verify_header_hmac`. */
  method VerifyHeaderHmac(h: Header, key: KeyOption) returns (v: Verdict)
    requires KeyOk(key)
    ensures v == Verified(h, key)
    ensures key.Key? ==>
              && v != PermissionDenied
              && (v == Accepted <==> h[128..160] == Hmac(key.bytes, h[..128])
                                     || (h[12] & 1 == 0 && forall i :: 128 <= i < 160 ==> h[i] == 0))
    ensures key.NoKey? ==>
              && v != CorruptedHeader
              && (v == Accepted <==> h[12] & 1 == 0 && forall i :: 128 <= i < 160 ==> h[i] == 0)
  {
    ZeroMac(h);
    var any := HasMacBytes(h);
    if h[FLAGS_OFFSET] & 1 == 0 && !any {
      return Accepted;
    }
    if key.NoKey? {
      return PermissionDenied;
    }
    var digest := HmacSha256(key.bytes, h[..IMMUTABLE]);
    var equal := DigestEqual(Mac(h), digest);
    v := if equal then Accepted else CorruptedHeader;
  }

  /** `has_hmac_bytes`. */
  method HasMacBytes(h: Header) returns (any: bool)
    ensures any <==> Mac(h) != Zeros(32)
  {
    any := false;
    for i := 0 to 32
      invariant any <==> exists j :: 0 <= j < i && Mac(h)[j] != 0
    {
      if h[IMMUTABLE + i] != 0 {
        assert Mac(h)[i] != 0;
        any := true;
      }
    }
    if !any {
      assert Mac(h) == Zeros(32);
    }
  }

  // ---------------------------------------------------------------- what the pair guarantees

  lemma WithMacParts(h: Header, mac: seq<Octet>)
    requires |mac| == 32
    ensures var r := WithMac(h, mac);
            Mac(r) == mac && r[..IMMUTABLE] == h[..IMMUTABLE] && (HmacEnabled(r) <==> HmacEnabled(h))
  {
    var r := WithMac(h, mac);
    assert r[FLAGS_OFFSET] == r[..IMMUTABLE][FLAGS_OFFSET] == h[..IMMUTABLE][FLAGS_OFFSET];
  }

  /** Whatever signing produces verifies under the same key, and goes on verifying however the bytes from 160 on, the
      mutable part of the header, change. */
  lemma SignThenVerify(h: Header, key: KeyOption, later: Header)
    requires KeyOk(key) && Signed(h, key).1 == Accepted
    requires later[..MAC_END] == Signed(h, key).0[..MAC_END]
    ensures Verified(Signed(h, key).0, key) == Accepted && Verified(later, key) == Accepted
  {
    var s := Signed(h, key).0;
    var mac := if HmacEnabled(h) then Computed(h, key.bytes) else Zeros(32);
    WithMacParts(h, mac);
    assert later[..IMMUTABLE] == later[..MAC_END][..IMMUTABLE] == s[..MAC_END][..IMMUTABLE] == s[..IMMUTABLE];
    assert Mac(later) == later[..MAC_END][IMMUTABLE..] == s[..MAC_END][IMMUTABLE..] == Mac(s);
    assert later[FLAGS_OFFSET] == later[..IMMUTABLE][FLAGS_OFFSET] == s[..IMMUTABLE][FLAGS_OFFSET];
  }

  /** Signing twice is signing once. */
  lemma SignIdempotent(h: Header, key: KeyOption)
    requires KeyOk(key)
    ensures Signed(Signed(h, key).0, key) == Signed(h, key)
  {
    if Signed(h, key).1 == Accepted {
      var mac := if HmacEnabled(h) then Computed(h, key.bytes) else Zeros(32);
      WithMacParts(h, mac);
      assert WithMac(WithMac(h, mac), mac) == WithMac(h, mac);
    }
  }

  /** With a key, a header is accepted exactly if it carries the MAC of its own immutable bytes, or has both its flag
      cleared and its MAC zeroed; whatever else is altered after a signing. */
  lemma AcceptedMeans(h: Header, key: seq<Octet>)
    requires |key| == 32
    ensures Verified(h, Key(key)) == Accepted
       <==> || h[128..160] == Hmac(key, h[..128])
            || (h[12] & 1 == 0 && forall i :: 128 <= i < 160 ==> h[i] == 0)
  {
    ZeroMac(h);
  }

  /** Two headers with the flag on that carry one MAC and are both accepted under one key have immutable bytes of one
      and the same HMAC: altering them takes a collision. */
  lemma SharedMac(h: Header, g: Header, key: seq<Octet>)
    requires |key| == 32 && h[12] & 1 != 0 && g[12] & 1 != 0 && h[128..160] == g[128..160]
    requires Verified(h, Key(key)) == Accepted && Verified(g, Key(key)) == Accepted
    ensures Hmac(key, h[..128]) == Hmac(key, g[..128])
  {
    AcceptedMeans(h, key);
    AcceptedMeans(g, key);
  }

  /** Until it is signed, a header with the flag set is rejected, unless the MAC of its immutable bytes happens to be 32
      zero bytes. */
  lemma UnsignedIsRejected(h: Header, key: KeyOption)
    requires KeyOk(key) && HmacEnabled(h) && Mac(h) == Zeros(32)
    ensures Verified(h, key) == Accepted <==> key.Key? && Hmac(key.bytes, h[..128]) == Zeros(32)
  {
  }
}
