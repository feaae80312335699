/** Fixed-width arithmetic of the memory layout: mask alignment and the record ring's offsets. */
module Layout {
  import opened Base

  const CACHE_LINE: nat := 64
  const CURSOR_SIZE: nat := 64
  const SLOT_WORD_SIZE: nat := 8
  const RECORD_HEADER_SIZE: nat := 16

  // ---------------------------------------------------------------- bit masks

  /** Bitwise conjunction of two naturals. */
  function And(x: nat, y: nat): (r: nat)
    decreases x
  {
    if x == 0 || y == 0 then 0 else 2 * And(x / 2, y / 2) + (if x % 2 == 1 && y % 2 == 1 then 1 else 0)
  }

  function Pow2(k: nat): (r: nat)
    ensures r >= 1
  {
    if k == 0 then 1 else 2 * Pow2(k - 1)
  }

  /** 64-bit complement. */
  function Not64(x: nat): (r: nat)
    requires x < U64
    ensures r < U64
  {
    U64 - 1 - x
  }

  /** `align_up` as the code computes it, on 64-bit words. */
  function AlignUp(value: nat, alignment: nat): (r: nat)
    requires 0 < alignment < U64
  {
    And((value + alignment - 1) % U64, Not64(alignment - 1))
  }

  lemma Pow2Add(a: nat, b: nat)
    ensures Pow2(a + b) == Pow2(a) * Pow2(b)
    decreases b
  {
    if b == 0 {
    } else {
      Pow2Add(a, b - 1);
      assert Pow2(a + b) == 2 * Pow2(a + b - 1) == 2 * (Pow2(a) * Pow2(b - 1)) == Pow2(a) * (2 * Pow2(b - 1));
    }
  }

  /** `x` with its low k bits off. */
  function Floor(x: nat, k: nat): (r: nat)
    decreases k
  {
    if k == 0 then x else 2 * Floor(x / 2, k - 1)
  }

  lemma {:induction false} FloorIsMultiple(x: nat, k: nat)
    ensures Floor(x, k) == x - x % Pow2(k)
    decreases k
  {
    if k == 0 {
    } else {
      FloorIsMultiple(x / 2, k - 1);
      HalfRemainder(x, Pow2(k - 1));
    }
  }

  /** Masking with w-k ones above k zeroes clears the low k bits. */
  lemma {:induction false} MaskClearsLowBits(x: nat, w: nat, k: nat)
    requires k <= w && x < Pow2(w)
    ensures Pow2(k) <= Pow2(w)
    ensures And(x, Pow2(w) - Pow2(k)) == Floor(x, k)
    decreases w
  {
    Pow2Monotone(k, w);
    if k == 0 {
      AndOnes(x, w);
    } else {
      MaskClearsLowBits(x / 2, w - 1, k - 1);
      AndEven(x, Pow2(w - 1) - Pow2(k - 1));
    }
  }

  /** The last bit of an even mask is off, and the rest masks the half. */
  lemma AndEven(x: nat, y: nat)
    ensures And(x, 2 * y) == 2 * And(x / 2, y)
  {
    assert 2 * y / 2 == y && 2 * y % 2 == 0;
  }

  lemma {:induction false} AndOnes(x: nat, w: nat)
    requires x < Pow2(w)
    ensures And(x, Pow2(w) - 1) == x
    decreases w
  {
    if w == 0 {
    } else {
      AndOnes(x / 2, w - 1);
      assert (Pow2(w) - 1) / 2 == Pow2(w - 1) - 1;
    }
  }

  lemma {:induction false} Pow2Monotone(a: nat, b: nat)
    requires a <= b
    ensures Pow2(a) <= Pow2(b)
    decreases b
  {
    if a == b {
    } else {
      Pow2Monotone(a, b - 1);
    }
  }

  /** The low k bits of x are its last bit and the low k-1 bits of its half. */
  lemma HalfRemainder(x: nat, m: nat)
    requires m > 0
    ensures x - x % (2 * m) == 2 * (x / 2 - x / 2 % m)
  {
    var h := x / 2;
    var q, r := h / m, h % m;
    assert h == q * m + r;
    var low := 2 * r + x % 2;
    assert x == q * (2 * m) + low;
    RemainderOf(x, 2 * m, q, low);
  }

  lemma RemainderOf(x: nat, m: nat, q: nat, r: nat)
    requires m > 0 && r < m && x == q * m + r
    ensures x % m == r
  {
    var d: int := x / m - q;
    assert d * m == r - x % m;
    assert d >= 1 ==> d * m >= m;
    assert d <= -1 ==> (-d) * m >= m;
  }

  lemma Pow2Of16()
    ensures Pow2(16) == 65536
  {
    assert Pow2(8) == 256;
    Pow2Add(8, 8);
  }

  lemma Pow2Of64()
    ensures Pow2(64) == U64 && Pow2(6) == 64 && Pow2(3) == 8
  {
    assert Pow2(32) == U32 by {
      Pow2Of16();
      Pow2Add(16, 16);
    }
    Pow2Add(32, 32);
  }

  lemma FloorMultiple(x: nat, a: nat)
    requires a > 0
    ensures (x - x % a) % a == 0
  {
    var q := x / a;
    assert x - x % a == q * a;
    RemainderOf(q * a, a, q, 0);
  }

  /** The mask form of `align_up` clears the low bits of the raised value, if raising it does not wrap. */
  lemma AlignUpClears(value: nat, k: nat)
    requires k < 64 && value + Pow2(k) - 1 < U64
    ensures 0 < Pow2(k) < U64 && AlignUp(value, Pow2(k)) == Floor(value + Pow2(k) - 1, k)
  {
    Pow2Of64();
    Pow2Monotone(k + 1, 64);
    MaskClearsLowBits(value + Pow2(k) - 1, 64, k);
    AlignUpMask(value, Pow2(k));
  }

  /** And so is the greatest multiple of the alignment not above the raised value. */
  lemma AlignUpFloor(value: nat, k: nat)
    requires k < 64 && value + Pow2(k) - 1 < U64
    ensures 0 < Pow2(k) < U64
    ensures AlignUp(value, Pow2(k)) == (value + Pow2(k) - 1) - (value + Pow2(k) - 1) % Pow2(k)
  {
    AlignUpClears(value, k);
    FloorIsMultiple(value + Pow2(k) - 1, k);
  }

  lemma AlignUpMask(value: nat, a: nat)
    requires 0 < a < U64 && value + a - 1 < U64
    ensures AlignUp(value, a) == And(value + a - 1, U64 - a)
  {
    SmallRemainder(value + a - 1);
  }

  lemma ProductMonotone(a: nat, b: nat, c: nat)
    requires a <= b
    ensures a * c <= b * c
  {
    assert (b - a) * c >= 0;
  }

  /** `align_up` rounds up to a multiple of a power-of-two alignment and less than one alignment beyond its
      argument, unless the sum wraps. */
  lemma AlignUpLeast(value: nat, k: nat)
    requires k < 64 && value + Pow2(k) - 1 < U64
    ensures 0 < Pow2(k) < U64
    ensures AlignUp(value, Pow2(k)) % Pow2(k) == 0 && value <= AlignUp(value, Pow2(k)) < value + Pow2(k)
  {
    AlignUpFloor(value, k);
    FloorMultiple(value + Pow2(k) - 1, Pow2(k));
  }

  lemma CloseMultiples(r: nat, m: nat, a: nat)
    requires a > 0 && r % a == 0 && m % a == 0 && r < m + a
    ensures r <= m
  {
    var c, d := r / a, m / a;
    assert r == c * a && m == d * a;
    ProductOrder(c, d, a);
    ProductOrder(d, c, a);
  }

  /** No smaller multiple will do. */
  lemma AlignUpMinimal(value: nat, k: nat, m: nat)
    requires k < 64 && value + Pow2(k) - 1 < U64
    requires m % Pow2(k) == 0 && m >= value
    ensures 0 < Pow2(k) < U64 && AlignUp(value, Pow2(k)) <= m
  {
    AlignUpLeast(value, k);
    CloseMultiples(AlignUp(value, Pow2(k)), m, Pow2(k));
  }

  lemma AlignUpTo8(value: nat)
    requires value + 7 < U64
    ensures AlignUp(value, 8) % 8 == 0 && value <= AlignUp(value, 8) < value + 8
  {
    Pow2Of64();
    AlignUpLeast(value, 3);
  }

  lemma AlignUpTo64(value: nat)
    requires value + 63 < U64
    ensures AlignUp(value, 64) % 64 == 0 && value <= AlignUp(value, 64) < value + 64
  {
    Pow2Of64();
    AlignUpLeast(value, 6);
  }

  // ---------------------------------------------------------------- record ring

  function RecordAreaOffset(recordMax: nat): (r: nat) {
    AlignUp((2 * CURSOR_SIZE + SLOT_WORD_SIZE * recordMax) % U64, 8)
  }

  /** Stride of a record slot, truncated to 32 bits as the code returns it. */
  function RecordStrideFor(maxPayload: nat): (r: nat) {
    AlignUp(RECORD_HEADER_SIZE + maxPayload, CACHE_LINE) % U32
  }

  function PayloadSizeFor(recordMax: nat, stride: nat): (r: nat) {
    if recordMax == 0 || stride < RECORD_HEADER_SIZE then 0
    else (RecordAreaOffset(recordMax) + recordMax * stride) % U64
  }

  lemma RecordAreaExact(recordMax: nat)
    requires recordMax < U32
    ensures RecordAreaOffset(recordMax) == 128 + 8 * recordMax
  {
    var v := 2 * CURSOR_SIZE + SLOT_WORD_SIZE * recordMax;
    assert v == 8 * (16 + recordMax);
    SmallRemainder(v);
    AlignUpEightfold(v, 16 + recordMax);
  }

  lemma AlignUpEightfold(v: nat, q: nat)
    requires v == 8 * q && v + 7 < U64
    ensures AlignUp(v, 8) == v
  {
    AlignUpTo8(v);
    EightfoldBetween(AlignUp(v, 8), q);
  }

  lemma SmallRemainder(x: nat)
    requires x < U64
    ensures x % U64 == x
  {
  }

  lemma EightfoldBetween(r: nat, q: nat)
    requires r % 8 == 0 && 8 * q <= r < 8 * q + 8
    ensures r == 8 * q
  {
    var c := r / 8;
    assert r == 8 * c;
  }

  /** The stride holds a header and the whole payload exactly up to 2^32 - 80 payload bytes; beyond that the
      32-bit result wraps to 0 or 64. */
  lemma StrideHoldsPayload(maxPayload: nat)
    requires maxPayload < U32
    ensures RecordStrideFor(maxPayload) >= RECORD_HEADER_SIZE + maxPayload <==> maxPayload <= U32 - 80
    ensures RecordStrideFor(maxPayload) % CACHE_LINE == 0
    ensures maxPayload > U32 - 80 ==> RecordStrideFor(maxPayload) == 0 || RecordStrideFor(maxPayload) == 64
  {
    AlignUpTo64(16 + maxPayload);
    LineMultiple(16 + maxPayload, AlignUp(16 + maxPayload, 64));
    TruncatedLine(16 + maxPayload, AlignUp(16 + maxPayload, 64));
  }

  lemma TruncatedLine(x: nat, r: nat)
    requires x <= r && r % 64 == 0 && (if x <= U32 - 64 then r <= U32 - 64 else r == U32 || r == U32 + 64)
    ensures r % U32 % 64 == 0 && (x <= U32 - 64 ==> r % U32 == r)
    ensures x > U32 - 64 ==> r % U32 == 0 || r % U32 == 64
  {
  }

  lemma LineMultiple(x: nat, r: nat)
    requires x < U32 + 16 && r % 64 == 0 && x <= r < x + 64
    ensures x <= U32 - 64 ==> r <= U32 - 64
    ensures x > U32 - 64 ==> r == U32 || r == U32 + 64
  {
    var lines := r / 64;
    assert r == 64 * lines;
  }

  /** The required size never wraps for a stride the ring computes itself. */
  lemma RequiredSizeExact(recordMax: nat, maxPayload: nat)
    requires 0 < recordMax < U32 && maxPayload < U32
    ensures var stride := RecordStrideFor(maxPayload);
            stride >= RECORD_HEADER_SIZE ==>
              PayloadSizeFor(recordMax, stride) == 128 + 8 * recordMax + recordMax * stride
  {
    StrideHoldsPayload(maxPayload);
    SizeOfLines(recordMax, RecordStrideFor(maxPayload));
  }

  lemma SizeOfLines(recordMax: nat, stride: nat)
    requires 0 < recordMax < U32 && stride < U32 && stride % CACHE_LINE == 0
    ensures stride >= RECORD_HEADER_SIZE ==>
              PayloadSizeFor(recordMax, stride) == 128 + 8 * recordMax + recordMax * stride
  {
    if stride >= RECORD_HEADER_SIZE {
      SizeBound(recordMax, stride);
    }
  }

  lemma ProductBound(recordMax: nat, stride: nat)
    requires recordMax < U32 && stride <= U32 - 9
    ensures 128 + 8 * recordMax + recordMax * stride < U64
  {
    ProductMonotone(stride, U32 - 9, recordMax);
    assert stride * recordMax == recordMax * stride;
  }

  /** Nor for any stride up to 2^32 - 9. */
  lemma SizeBound(recordMax: nat, stride: nat)
    requires 0 < recordMax < U32 && RECORD_HEADER_SIZE <= stride <= U32 - 9
    ensures PayloadSizeFor(recordMax, stride) == 128 + 8 * recordMax + recordMax * stride
  {
    var product := recordMax * stride;
    RecordAreaExact(recordMax);
    ProductBound(recordMax, stride);
    SmallRemainder(128 + 8 * recordMax + product);
  }

  /** `i` strides, by repeated addition so that proofs need no products; `RowsIsProduct` says it is `i * stride`. */
  function Rows(i: nat, stride: nat): (r: nat) {
    if i == 0 then 0 else Rows(i - 1, stride) + stride
  }

  lemma {:induction false} RowsIsProduct(i: nat, stride: nat)
    ensures Rows(i, stride) == i * stride
  {
    if i == 0 {
    } else {
      RowsIsProduct(i - 1, stride);
      assert i * stride == (i - 1) * stride + stride;
    }
  }

  lemma {:induction false} RowsApart(i: nat, j: nat, stride: nat)
    requires i < j
    ensures Rows(i, stride) + stride <= Rows(j, stride)
    decreases j
  {
    if i + 1 == j {
    } else {
      RowsApart(i, j - 1, stride);
    }
  }

  /** Bytes a ring of `n` slots occupies. */
  function RingSize(n: nat, stride: nat): (r: nat) {
    128 + 8 * n + Rows(n, stride)
  }

  /** First byte of record slot `i`. */
  function RecordOffset(n: nat, stride: nat, i: nat): (r: nat) {
    128 + 8 * n + Rows(i, stride)
  }

  function SlotWordOffset(i: nat): (r: nat) {
    128 + 8 * i
  }

  /** The offsets are those of `slot_header` and `record_bytes`, and the size is the one the ring requires. */
  lemma OffsetsAreTheCodes(n: nat, stride: nat, i: nat)
    requires 0 < n < U32 && RECORD_HEADER_SIZE <= stride <= U32 - 9 && i < n
    ensures RecordOffset(n, stride, i) == RecordAreaOffset(n) + i * stride
    ensures RingSize(n, stride) == PayloadSizeFor(n, stride)
  {
    RecordAreaExact(n);
    SizeBound(n, stride);
    RowsIsProduct(i, stride);
    RowsIsProduct(n, stride);
  }

  /** Cursors, slot words and record slots are pairwise disjoint and inside the required size. */
  lemma RegionsDisjoint(n: nat, stride: nat, i: nat, j: nat)
    requires i < j < n
    ensures 2 * CURSOR_SIZE <= SlotWordOffset(i) && SlotWordOffset(i) + SLOT_WORD_SIZE <= SlotWordOffset(j)
    ensures SlotWordOffset(j) + SLOT_WORD_SIZE <= RecordOffset(n, stride, 0) <= RecordOffset(n, stride, i)
    ensures RecordOffset(n, stride, i) + stride <= RecordOffset(n, stride, j)
    ensures RecordOffset(n, stride, j) + stride <= RingSize(n, stride)
  {
    RowsApart(i, j, stride);
    RowsApart(j, n, stride);
  }
}
