/**
 The record ring in its shared-memory bytes: two cursors, `recordMax` sequence words and `recordMax` record
 slots in one byte array, with the real offsets and record header. The methods are one uncontended call each;
 `RingProtocol` has the interleavings.
 */
module RingMemory {
  import opened Base
  import opened Bytes
  import opened Layout
  import opened Slots
  import opened RingProtocol
  import opened RingInvariant
  import opened RingView

  const MPSC: nat := 2
  const SINGLE: nat := 1

  /** 2^63, below which the signed difference of two cursors is exact. */
  const CURSOR_LIMIT: nat := 0x8000_0000_0000_0000

  /** Memory can hold a ring of `n` slots. */
  predicate Roomy(m: seq<Byte>, n: nat, stride: nat) {
    0 < n < U32 && RECORD_HEADER_SIZE <= stride < U32 && RingSize(n, stride) <= |m|
  }

  lemma RecordInside(n: nat, stride: nat, i: nat)
    requires i < n
    ensures RecordOffset(n, stride, 0) <= RecordOffset(n, stride, i)
    ensures RecordOffset(n, stride, i) + stride <= RingSize(n, stride)
  {
    RowsApart(i, n, stride);
  }

  function WordAt(m: seq<Byte>, n: nat, stride: nat, i: nat): (w: nat)
    requires Roomy(m, n, stride) && i < n
  {
    Load(m, SlotWordOffset(i), 8)
  }

  function CellAt(m: seq<Byte>, base: nat, stride: nat): (c: Cell)
    requires RECORD_HEADER_SIZE <= stride && base + stride <= |m|
    ensures |c.bytes| == stride - RECORD_HEADER_SIZE
  {
    Cell(Load(m, base, 4), Load(m, base + 4, 2), Load(m, base + 6, 2), Load(m, base + 8, 8),
         m[base + 16..base + stride])
  }

  function RecordAt(m: seq<Byte>, n: nat, stride: nat, i: nat): (c: Cell)
    requires Roomy(m, n, stride) && i < n
    ensures |c.bytes| == stride - RECORD_HEADER_SIZE
  {
    RecordInside(n, stride, i);
    CellAt(m, RecordOffset(n, stride, i), stride)
  }

  /** What the bytes mean. */
  function Decode(m: seq<Byte>, n: nat, stride: nat, lost: nat): (v: View)
    requires Roomy(m, n, stride)
    ensures Sized(v) && v.n == n
  {
    View(n, stride - RECORD_HEADER_SIZE, Load(m, 0, 8), Load(m, 64, 8), lost,
         seq(n, i requires 0 <= i < n => WordAt(m, n, stride, i)),
         seq(n, i requires 0 <= i < n => RecordAt(m, n, stride, i)))
  }

  /** Where the parts of the view lie: the head at byte 0, the tail at byte 64, the slot words from byte 128 on, eight
      bytes each, and the records behind them, each with its length, type, flags and user value before its bytes. */
  lemma DecodeIs(m: seq<Byte>, n: nat, stride: nat, lost: nat, i: nat)
    requires Roomy(m, n, stride) && i < n
    ensures var v := Decode(m, n, stride, lost);
            var base := 128 + 8 * n + i * stride;
            && base + stride <= |m|
            && v.head == FromLE(m[0..8]) && v.tail == FromLE(m[64..72])
            && v.seqs[i] == FromLE(m[128 + 8 * i..136 + 8 * i])
            && v.cells[i] == Cell(FromLE(m[base..base + 4]), FromLE(m[base + 4..base + 6]),
                                  FromLE(m[base + 6..base + 8]), FromLE(m[base + 8..base + 16]),
                                  m[base + 16..base + stride])
  {
    RowsIsProduct(i, stride);
    RecordInside(n, stride, i);
  }

  // ---------------------------------------------------------------- what each store does to the meaning

  lemma CellElsewhere(m: seq<Byte>, off: nat, bs: seq<Byte>, base: nat, stride: nat)
    requires off + |bs| <= |m| && RECORD_HEADER_SIZE <= stride && base + stride <= |m|
    requires base + stride <= off || off + |bs| <= base
    ensures CellAt(Splice(m, off, bs), base, stride) == CellAt(m, base, stride)
  {
    LoadElsewhere(m, off, bs, base, 4);
    LoadElsewhere(m, off, bs, base + 4, 2);
    LoadElsewhere(m, off, bs, base + 6, 2);
    LoadElsewhere(m, off, bs, base + 8, 8);
    SpliceElsewhere(m, off, bs, base + 16, base + stride);
  }

  /** A store before the record area leaves every record alone. */
  lemma RecordsUntouched(m: seq<Byte>, n: nat, stride: nat, off: nat, bs: seq<Byte>)
    requires Roomy(m, n, stride) && off + |bs| <= RecordOffset(n, stride, 0)
    ensures forall i :: 0 <= i < n ==> RecordAt(Splice(m, off, bs), n, stride, i) == RecordAt(m, n, stride, i)
  {
    forall i | 0 <= i < n ensures RecordAt(Splice(m, off, bs), n, stride, i) == RecordAt(m, n, stride, i) {
      RecordInside(n, stride, i);
      CellElsewhere(m, off, bs, RecordOffset(n, stride, i), stride);
    }
  }

  /** A store outside the slot words leaves every slot word alone. */
  lemma WordsUntouched(m: seq<Byte>, n: nat, stride: nat, off: nat, bs: seq<Byte>)
    requires Roomy(m, n, stride) && off + |bs| <= |m|
    requires off + |bs| <= 128 || 128 + 8 * n <= off
    ensures forall i :: 0 <= i < n ==> WordAt(Splice(m, off, bs), n, stride, i) == WordAt(m, n, stride, i)
  {
    forall i | 0 <= i < n ensures WordAt(Splice(m, off, bs), n, stride, i) == WordAt(m, n, stride, i) {
      LoadElsewhere(m, off, bs, SlotWordOffset(i), 8);
    }
  }

  lemma StoreHead(m: seq<Byte>, n: nat, stride: nat, lost: nat, x: nat)
    requires Roomy(m, n, stride) && x < U64
    ensures Decode(StoreLE(m, 0, 8, x), n, stride, lost) == Decode(m, n, stride, lost).(head := x)
  {
    Widths();
    LoadStored(m, 0, 8, x);
    LoadElsewhere(m, 0, ToLE(x, 8), 64, 8);
    WordsUntouched(m, n, stride, 0, ToLE(x, 8));
    RecordsUntouched(m, n, stride, 0, ToLE(x, 8));
  }

  lemma StoreTail(m: seq<Byte>, n: nat, stride: nat, lost: nat, x: nat)
    requires Roomy(m, n, stride) && x < U64
    ensures Decode(StoreLE(m, 64, 8, x), n, stride, lost) == Decode(m, n, stride, lost).(tail := x)
  {
    Widths();
    LoadStored(m, 64, 8, x);
    LoadElsewhere(m, 64, ToLE(x, 8), 0, 8);
    WordsUntouched(m, n, stride, 64, ToLE(x, 8));
    RecordsUntouched(m, n, stride, 64, ToLE(x, 8));
  }

  lemma StoreWord(m: seq<Byte>, n: nat, stride: nat, lost: nat, i: nat, x: nat)
    requires Roomy(m, n, stride) && i < n && x < U64
    ensures Decode(StoreLE(m, SlotWordOffset(i), 8, x), n, stride, lost)
         == Decode(m, n, stride, lost).(seqs := Decode(m, n, stride, lost).seqs[i := x])
  {
    var off, bs := SlotWordOffset(i), ToLE(x, 8);
    var m' := Splice(m, off, bs);
    Widths();
    LoadElsewhere(m, off, bs, 0, 8);
    LoadElsewhere(m, off, bs, 64, 8);
    RecordsUntouched(m, n, stride, off, bs);
    forall j | 0 <= j < n ensures WordAt(m', n, stride, j) == if j == i then x else WordAt(m, n, stride, j) {
      if j == i { LoadStored(m, off, 8, x); } else { LoadElsewhere(m, off, bs, SlotWordOffset(j), 8); }
    }
    assert Decode(m', n, stride, lost).seqs == Decode(m, n, stride, lost).seqs[i := x];
  }

  /** The bytes of a stored record: length, type, flags, user value, payload. */
  function RecordBytes(st: Stored): (bs: seq<Byte>)
    ensures |bs| == RECORD_HEADER_SIZE + |st.data|
  {
    ToLE(|st.data|, 4) + ToLE(st.typ, 2) + ToLE(st.flags, 2) + ToLE(st.user, 8) + st.data
  }

  predicate Encodable(st: Stored) {
    |st.data| < U32 && st.typ < 0x1_0000 && st.flags < 0x1_0000 && st.user < U64
  }

  lemma PartOfSplice(m: seq<Byte>, off: nat, bs: seq<Byte>, lo: nat, hi: nat)
    requires off + |bs| <= |m| && lo <= hi <= |bs|
    ensures Splice(m, off, bs)[off + lo..off + hi] == bs[lo..hi]
  {
  }

  lemma RecordBytesParts(st: Stored)
    ensures var bs := RecordBytes(st);
            && bs[0..4] == ToLE(|st.data|, 4) && bs[4..6] == ToLE(st.typ, 2) && bs[6..8] == ToLE(st.flags, 2)
            && bs[8..16] == ToLE(st.user, 8) && bs[16..] == st.data
  {
  }

  lemma CellWritten(m: seq<Byte>, base: nat, stride: nat, st: Stored)
    requires RECORD_HEADER_SIZE <= stride && base + stride <= |m|
    requires Encodable(st) && |st.data| <= stride - RECORD_HEADER_SIZE
    ensures CellAt(Splice(m, base, RecordBytes(st)), base, stride) == Filled(CellAt(m, base, stride), st)
  {
    var bs := RecordBytes(st);
    var m' := Splice(m, base, bs);
    Widths();
    RecordBytesParts(st);
    PartOfSplice(m, base, bs, 0, 4);
    PartOfSplice(m, base, bs, 4, 6);
    PartOfSplice(m, base, bs, 6, 8);
    PartOfSplice(m, base, bs, 8, 16);
    RoundTripLE(|st.data|, 4);
    RoundTripLE(st.typ, 2);
    RoundTripLE(st.flags, 2);
    RoundTripLE(st.user, 8);
    DataOfSplice(m, base, stride, bs, st.data);
  }

  lemma DataOfSplice(m: seq<Byte>, base: nat, stride: nat, bs: seq<Byte>, data: seq<Byte>)
    requires base + stride <= |m| && 16 <= |bs| <= stride && bs[16..] == data
    ensures Splice(m, base, bs)[base + 16..base + stride] == data + m[base + 16..base + stride][|data|..]
  {
  }

  lemma RecordApart(n: nat, stride: nat, i: nat, j: nat)
    requires i < n && j < n && i != j
    ensures RecordOffset(n, stride, i) + stride <= RecordOffset(n, stride, j)
         || RecordOffset(n, stride, j) + stride <= RecordOffset(n, stride, i)
  {
    if i < j { RowsApart(i, j, stride); } else { RowsApart(j, i, stride); }
  }

  lemma WriteRecord(m: seq<Byte>, n: nat, stride: nat, lost: nat, i: nat, st: Stored)
    requires Roomy(m, n, stride) && i < n && Encodable(st) && |st.data| <= stride - RECORD_HEADER_SIZE
    ensures RecordOffset(n, stride, i) + |RecordBytes(st)| <= |m|
    ensures Decode(Splice(m, RecordOffset(n, stride, i), RecordBytes(st)), n, stride, lost)
         == Decode(m, n, stride, lost).(cells :=
              Decode(m, n, stride, lost).cells[i := Filled(Decode(m, n, stride, lost).cells[i], st)])
  {
    RecordInside(n, stride, i);
    var off, bs := RecordOffset(n, stride, i), RecordBytes(st);
    var m' := Splice(m, off, bs);
    LoadElsewhere(m, off, bs, 0, 8);
    LoadElsewhere(m, off, bs, 64, 8);
    WordsUntouched(m, n, stride, off, bs);
    forall j | 0 <= j < n
      ensures RecordAt(m', n, stride, j)
           == if j == i then Filled(RecordAt(m, n, stride, i), st) else RecordAt(m, n, stride, j)
    {
      RecordInside(n, stride, j);
      if j == i {
        CellWritten(m, off, stride, st);
      } else {
        RecordApart(n, stride, i, j);
        CellElsewhere(m, off, bs, RecordOffset(n, stride, j), stride);
      }
    }
    var v := Decode(m, n, stride, lost);
    assert Decode(m', n, stride, lost).cells == v.cells[i := Filled(v.cells[i], st)];
    assert Decode(m', n, stride, lost).seqs == v.seqs;
  }

  lemma SpliceTwice(m: seq<Byte>, off: nat, a: seq<Byte>, b: seq<Byte>)
    requires off + |a| + |b| <= |m|
    ensures Splice(Splice(m, off, a), off + |a|, b) == Splice(m, off, a + b)
  {
  }

  // ---------------------------------------------------------------- a cleared ring

  /** The view of cleared memory whose first `k` slot words have been numbered. */
  function NumberedView(n: nat, cap: nat, k: nat): (v: View)
    requires n > 0
    ensures Sized(v)
  {
    EmptyView(n, cap).(seqs := seq(n, i => if i < k then i else 0))
  }

  lemma {:induction false} ZeroValue(bs: seq<Byte>)
    requires forall i :: 0 <= i < |bs| ==> bs[i] == 0
    ensures FromLE(bs) == 0
  {
    if bs == [] {
    } else {
      ZeroValue(bs[1..]);
    }
  }

  lemma ZeroCell(m: seq<Byte>, base: nat, stride: nat)
    requires RECORD_HEADER_SIZE <= stride && base + stride <= |m|
    requires forall i :: base <= i < base + stride ==> m[i] == 0
    ensures CellAt(m, base, stride) == Cell(0, 0, 0, 0, seq(stride - RECORD_HEADER_SIZE, _ => 0))
  {
    ZeroValue(m[base..base + 4]);
    ZeroValue(m[base + 4..base + 6]);
    ZeroValue(m[base + 6..base + 8]);
    ZeroValue(m[base + 8..base + 16]);
  }

  lemma ZeroDecode(m: seq<Byte>, n: nat, stride: nat)
    requires Roomy(m, n, stride)
    requires forall i :: 0 <= i < RingSize(n, stride) ==> m[i] == 0
    ensures Decode(m, n, stride, 0) == NumberedView(n, stride - RECORD_HEADER_SIZE, 0)
  {
    ZeroValue(m[0..8]);
    ZeroValue(m[64..72]);
    forall i | 0 <= i < n ensures WordAt(m, n, stride, i) == 0 {
      ZeroValue(m[SlotWordOffset(i)..SlotWordOffset(i) + 8]);
    }
    forall i | 0 <= i < n
      ensures RecordAt(m, n, stride, i) == Cell(0, 0, 0, 0, seq(stride - RECORD_HEADER_SIZE, _ => 0))
    {
      RecordInside(n, stride, i);
      ZeroCell(m, RecordOffset(n, stride, i), stride);
    }
    var v, w := Decode(m, n, stride, 0), NumberedView(n, stride - RECORD_HEADER_SIZE, 0);
    assert v.seqs == w.seqs && v.cells == w.cells;
  }

  /** The size `initialize` asks for is the size of the ring. */
  lemma RequiredIsRingSize(records: nat, maxPayload: nat)
    requires records < U32 && maxPayload < U32
    requires PayloadSizeFor(records, RecordStrideFor(maxPayload)) != 0
    ensures var s := RecordStrideFor(maxPayload);
            0 < records && RECORD_HEADER_SIZE <= s < U32 && PayloadSizeFor(records, s) == RingSize(records, s)
  {
    RequiredSizeExact(records, maxPayload);
    RowsIsProduct(records, RecordStrideFor(maxPayload));
  }

  lemma ExactSize(n: nat, stride: nat)
    requires 0 < n < U32 && RECORD_HEADER_SIZE <= stride && RingSize(n, stride) < U64
    ensures PayloadSizeFor(n, stride) == RingSize(n, stride)
  {
    SizeIsRemainder(n, stride);
    SmallRemainder(RingSize(n, stride));
  }

  /** The code's size is the ring's, modulo 2^64. */
  lemma SizeIsRemainder(n: nat, stride: nat)
    requires 0 < n < U32 && RECORD_HEADER_SIZE <= stride
    ensures PayloadSizeFor(n, stride) == RingSize(n, stride) % U64
  {
    RecordAreaExact(n);
    RowsIsProduct(n, stride);
  }

  lemma OnceWrapped(x: nat)
    requires U64 <= x < 2 * U64
    ensures x % U64 == x - U64
  {
  }

  /** The size test of `bind`, on 64-bit words. */
  predicate BindAccepts(n: nat, stride: nat, length: nat) {
    PayloadSizeFor(n, stride) != 0 && PayloadSizeFor(n, stride) <= length
  }

  ghost predicate BindFits(n: nat, stride: nat) {
    forall length: nat :: BindAccepts(n, stride, length) ==> RingSize(n, stride) <= length
  }

  /** No metadata of 32-bit fields describes a ring of exactly 2^64 bytes: with n = 2^32 - d slots and a stride of
      2^32 + e - 8 bytes, d * e = 128 would need e = d. */
  lemma NeverExactly2To64(n: nat, stride: nat)
    requires 0 < n < U32 && stride < U32
    ensures 128 + 8 * n + n * stride != U64
  {
    var d: int, e: int := U32 - n, stride + 8 - U32;
    assert n * (stride + 8) == 8 * n + n * stride;
    ShiftedProduct(d, e);
    if e <= 0 {
      SmallerProduct(n, stride + 8);
    } else {
      NoSquare(d, e);
    }
  }

  lemma ShiftedProduct(d: int, e: int)
    ensures (U32 - d) * (U32 + e) == U64 + (e - d) * U32 - d * e
  {
    assert U32 * U32 == U64;
    assert (U32 - d) * (U32 + e) == U32 * (U32 + e) - d * (U32 + e);
    assert d * (U32 + e) == d * U32 + d * e;
  }

  lemma SmallerProduct(n: nat, m: nat)
    requires n < U32 && m <= U32
    ensures n * m <= U64 - U32
  {
    ProductMonotone(m, U32, n);
    assert m * n == n * m;
  }

  lemma NoSquare(d: nat, e: nat)
    requires 0 < d < U32 && 0 < e < 8
    ensures (e - d) * U32 - d * e != -128
  {
    if d > e {
      assert (e - d) * U32 + U32 <= 0;
    } else {
      assert d < 8;
    }
  }

  lemma SizeBelowTwice(n: nat, stride: nat)
    requires 0 < n < U32 && stride < U32
    ensures 128 + 8 * n + n * stride < 2 * U64
  {
    ProductMonotone(stride, U32, n);
    assert stride * n == n * stride;
  }

  /** Everything `bind` accepts, for every payload length, is a ring inside the payload exactly when the size of the
      ring is below 2^64. */
  lemma BindFitsIff(n: nat, stride: nat)
    requires 0 < n < U32 && RECORD_HEADER_SIZE <= stride < U32
    ensures BindFits(n, stride) <==> RingSize(n, stride) < U64
  {
    RowsIsProduct(n, stride);
    if RingSize(n, stride) < U64 {
      ExactSize(n, stride);
    } else {
      NeverExactly2To64(n, stride);
      SizeBelowTwice(n, stride);
      WrappedSize(n, stride);
      assert BindAccepts(n, stride, RingSize(n, stride) - U64);
    }
  }

  lemma WrappedSize(n: nat, stride: nat)
    requires 0 < n < U32 && RECORD_HEADER_SIZE <= stride < U32 && U64 < RingSize(n, stride) < 2 * U64
    ensures PayloadSizeFor(n, stride) == RingSize(n, stride) - U64
  {
    SizeIsRemainder(n, stride);
    OnceWrapped(RingSize(n, stride));
  }

  /** For instance 2^32 - 7 slots of 2^32 - 1 bytes, which `bind` accepts on 79 bytes. */
  lemma BindAcceptsTooMuch()
    ensures BindAccepts(U32 - 7, U32 - 1, 79) && RingSize(U32 - 7, U32 - 1) > 79
  {
    var n, stride := U32 - 7, U32 - 1;
    RowsIsProduct(n, stride);
    ShiftedProduct(7, 7);
    WrappedSize(n, stride);
  }

  // ---------------------------------------------------------------- the ring object

  datatype PushResult = PushOk | RingFull | CorruptedHeader

  predicate FitsHeader(msg: Message) {
    msg.typ < 0x1_0000 && msg.flags < 0x1_0000 && msg.user < U64
  }

  lemma StoredEncodable(msg: Message, cap: nat)
    requires FitsHeader(msg) && cap < U32
    ensures Encodable(Store(msg, cap))
  {
  }

  /** A ring view over a payload array. The metadata fields are those of `RecordRingMeta`. */
  class RecordRing {
    var recordMax: nat
    var stride: nat
    var producerMode: nat
    var consumerMode: nat
    var lost: nat
    const payload: array<Byte>

    constructor (payload: array<Byte>)
      ensures this.payload == payload && recordMax == 0
    {
      this.payload := payload;
      recordMax, stride, producerMode, consumerMode, lost := 0, 0, 0, 0, 0;
    }

    predicate ValidMeta()
      reads this
    {
      recordMax != 0 && stride >= RECORD_HEADER_SIZE && producerMode == MPSC && consumerMode == SINGLE
    }

    /** The metadata describes a ring that fits the payload. */
    predicate Bound()
      reads this, payload
    {
      ValidMeta() && Roomy(payload[..], recordMax, stride)
    }

    /** The meaning of the payload bytes. */
    function Meaning(): (v: View)
      requires Bound()
      reads this, payload
      ensures Sized(v) && v.n == recordMax
    {
      Decode(payload[..], recordMax, stride, lost)
    }

    /** Runs that end before a cursor reaches 2^63, where the signed difference of the code is exact. */
    predicate InRange()
      requires Bound()
      reads this, payload
    {
      var v := Meaning();
      v.head + v.n < CURSOR_LIMIT && v.tail + 1 < CURSOR_LIMIT
    }

    /** The payload bytes after the ring. */
    function Beyond(): (bs: seq<Byte>)
      requires Bound()
      reads this, payload
    {
      payload[RingSize(recordMax, stride)..]
    }

    method StoreHeadCursor(x: nat)
      requires Bound() && x < U64
      modifies payload
      ensures Bound() && Meaning() == old(Meaning()).(head := x) && Beyond() == old(Beyond())
    {
      ghost var m := payload[..];
      Copy(payload, 0, ToLE(x, 8));
      StoreHead(m, recordMax, stride, lost, x);
      SpliceElsewhere(m, 0, ToLE(x, 8), RingSize(recordMax, stride), payload.Length);
    }

    method StoreTailCursor(x: nat)
      requires Bound() && x < U64
      modifies payload
      ensures Bound() && Meaning() == old(Meaning()).(tail := x) && Beyond() == old(Beyond())
    {
      ghost var m := payload[..];
      Copy(payload, 64, ToLE(x, 8));
      StoreTail(m, recordMax, stride, lost, x);
      SpliceElsewhere(m, 64, ToLE(x, 8), RingSize(recordMax, stride), payload.Length);
    }

    method StoreSlotWord(i: nat, x: nat)
      requires Bound() && i < recordMax && x < U64
      modifies payload
      ensures Bound() && Meaning() == old(Meaning()).(seqs := old(Meaning()).seqs[i := x]) && Beyond() == old(Beyond())
    {
      ghost var m := payload[..];
      Copy(payload, SlotWordOffset(i), ToLE(x, 8));
      StoreWord(m, recordMax, stride, lost, i, x);
      SpliceElsewhere(m, SlotWordOffset(i), ToLE(x, 8), RingSize(recordMax, stride), payload.Length);
    }

    /** memset of the first `k` bytes. */
    method Clear(k: nat)
      requires k <= payload.Length
      modifies payload
      ensures forall i :: 0 <= i < k ==> payload[i] == 0
      ensures payload[k..] == old(payload[k..])
    {
      for i := 0 to k
        invariant forall j :: 0 <= j < i ==> payload[j] == 0
        invariant payload[k..] == old(payload[k..])
      {
        payload[i] := 0;
      }
    }

    /** The store loop over the slot words of a cleared ring. */
    method NumberSlots()
      requires Bound() && lost == 0 && Meaning() == NumberedView(recordMax, stride - RECORD_HEADER_SIZE, 0)
      modifies payload
      ensures Bound() && Meaning() == EmptyView(recordMax, stride - RECORD_HEADER_SIZE)
      ensures Beyond() == old(Beyond())
    {
      for i := 0 to recordMax
        invariant Bound() && Meaning() == NumberedView(recordMax, stride - RECORD_HEADER_SIZE, i)
        invariant Beyond() == old(Beyond())
      {
        StoreSlotWord(i, i);
        assert NumberedView(recordMax, stride - RECORD_HEADER_SIZE, i).seqs[i := i]
            == NumberedView(recordMax, stride - RECORD_HEADER_SIZE, i + 1).seqs;
      }
      assert NumberedView(recordMax, stride - RECORD_HEADER_SIZE, recordMax).seqs
          == EmptyView(recordMax, stride - RECORD_HEADER_SIZE).seqs;
    }

    /** Clears the bytes of the ring, resets its cursors and numbers its slots. */
    method Format(required: nat)
      requires Bound() && lost == 0 && required == RingSize(recordMax, stride)
      modifies payload
      ensures Bound() && Meaning() == EmptyView(recordMax, stride - RECORD_HEADER_SIZE)
      ensures Beyond() == old(Beyond())
    {
      Clear(required);
      ZeroDecode(payload[..], recordMax, stride);
      StoreHeadCursor(0);
      StoreTailCursor(0);
      NumberSlots();
    }

    /** Checks the geometry, clears the ring bytes and numbers the slots; bytes beyond the ring keep their
        values. Fails, changing nothing, when the size is not usable or the payload is too small or misaligned. */
    method Initialize(records: nat, maxPayload: nat, aligned: bool) returns (ok: bool)
      requires records < U32 && maxPayload < U32
      modifies this, payload
      ensures var required := PayloadSizeFor(records, RecordStrideFor(maxPayload));
              ok <==> required != 0 && required <= payload.Length && aligned
      ensures !ok ==> unchanged(this) && unchanged(payload)
      ensures ok ==> Bound() && recordMax == records && stride == RecordStrideFor(maxPayload)
                     && Meaning() == EmptyView(records, stride - RECORD_HEADER_SIZE)
      ensures ok ==> RingSize(records, stride) <= payload.Length
                     && payload[RingSize(records, stride)..] == old(payload[..])[RingSize(records, stride)..]
    {
      var s := RecordStrideFor(maxPayload);
      var required := PayloadSizeFor(records, s);
      if required == 0 || payload.Length < required || !aligned {
        return false;
      }
      RequiredIsRingSize(records, maxPayload);
      recordMax, stride, producerMode, consumerMode, lost := records, s, MPSC, SINGLE, 0;
      Format(required);
      ok := true;
    }

    /** `bind` to a payload that holds a ring already. `BindFitsIff` says when what it accepts is a ring inside the
        payload. */
    method Bind(aligned: bool) returns (ok: bool)
      requires recordMax < U32 && stride < U32
      ensures ok <==> ValidMeta() && aligned && BindAccepts(recordMax, stride, payload.Length)
      ensures RingSize(recordMax, stride) < U64 ==> (ok <==> Bound() && aligned)
    {
      if !ValidMeta() || !aligned {
        return false;
      }
      var required := PayloadSizeFor(recordMax, stride);
      if RingSize(recordMax, stride) < U64 {
        ExactSize(recordMax, stride);
      }
      ok := required != 0 && required <= payload.Length;
    }

    /** The retry loop of a push, run without contention: each compare-and-swap succeeds unless `weak` says it
        fails spuriously. */
    method ClaimTail(weak: seq<bool>) returns (pos: nat, claimed: bool)
      requires Bound() && InRange() && |weak| == RETRY_BUDGET
      modifies payload
      ensures Bound()
      ensures pos == old(Meaning()).tail
      ensures claimed <==> old(Meaning()).seqs[Slot(pos, recordMax)] == pos && false in weak
      ensures Meaning() == if claimed then old(Meaning()).(tail := pos + 1) else old(Meaning())
      ensures !claimed ==> payload[..] == old(payload[..])
    {
      pos := Load(payload[..], 64, 8);
      var retry := 0;
      while retry < RETRY_BUDGET
        invariant retry <= RETRY_BUDGET && payload[..] == old(payload[..]) && pos == old(Meaning()).tail
        invariant old(Meaning()).seqs[Slot(pos, recordMax)] == pos ==> forall i :: 0 <= i < retry ==> weak[i]
        decreases RETRY_BUDGET - retry
      {
        SlotIsRemainder(pos, recordMax);
        var word := Load(payload[..], SlotWordOffset(pos % recordMax), 8);
        assert word == old(Meaning()).seqs[Slot(pos, recordMax)];
        if word == pos {
          if !weak[retry] {
            StoreTailCursor(pos + 1);
            claimed := true;
            return;
          }
        } else if word < pos {
          claimed := false;
          return;
        } else {
          pos := Load(payload[..], 64, 8);
        }
        retry := retry + 1;
      }
      claimed := false;
    }

    /** The five stores of a record at `base`. */
    method StoreRecordBytes(base: nat, st: Stored)
      requires base + RECORD_HEADER_SIZE + |st.data| <= payload.Length
      modifies payload
      ensures payload[..] == Splice(old(payload[..]), base, RecordBytes(st))
    {
      ghost var m := payload[..];
      var len, typ, flags, user := ToLE(|st.data|, 4), ToLE(st.typ, 2), ToLE(st.flags, 2), ToLE(st.user, 8);
      Copy(payload, base, len);
      Copy(payload, base + 4, typ);
      SpliceTwice(m, base, len, typ);
      Copy(payload, base + 6, flags);
      SpliceTwice(m, base, len + typ, flags);
      Copy(payload, base + 8, user);
      SpliceTwice(m, base, len + typ + flags, user);
      Copy(payload, base + 16, st.data);
      SpliceTwice(m, base, len + typ + flags + user, st.data);
    }

    /** Writes a record into slot `i`. */
    method StoreRecord(i: nat, st: Stored)
      requires Bound() && i < recordMax && Encodable(st) && |st.data| <= stride - RECORD_HEADER_SIZE
      modifies payload
      ensures Bound()
      ensures Meaning() == old(Meaning()).(cells := old(Meaning()).cells[i := Filled(old(Meaning()).cells[i], st)])
    {
      ghost var m := payload[..];
      RecordInside(recordMax, stride, i);
      StoreRecordBytes(RecordOffset(recordMax, stride, i), st);
      WriteRecord(m, recordMax, stride, lost, i, st);
    }

    /** `try_push`: claims the tail, writes the truncated record, publishes it; or counts a loss. */
    method TryPush(msg: Message, weak: seq<bool>) returns (r: PushResult)
      requires FitsHeader(msg) && |weak| == RETRY_BUDGET
      requires ValidMeta() ==> Bound() && InRange()
      modifies this`lost, payload
      ensures old(ValidMeta()) <==> r != CorruptedHeader
      ensures r == CorruptedHeader ==> lost == old(lost) && unchanged(payload)
      ensures r != CorruptedHeader ==>
                Bound() && (Meaning(), r == PushOk) == PushView(old(Meaning()), msg, false in weak)
      ensures r == PushOk ==>
                Carries(Meaning().cells[Slot(old(Meaning()).tail, recordMax)], msg, stride - RECORD_HEADER_SIZE)
      ensures r == RingFull ==> lost == old(lost) + 1 && payload[..] == old(payload[..])
    {
      if !ValidMeta() {
        return CorruptedHeader;
      }
      PushParts(Meaning(), msg, false in weak);
      var pos, claimed := ClaimTail(weak);
      if !claimed {
        lost := lost + 1;
        return RingFull;
      }
      PublishAt(pos, msg);
      r := PushOk;
    }

    /** The stores of a push that has claimed `pos`: the truncated record, then the slot word that publishes it. */
    method PublishAt(pos: nat, msg: Message)
      requires Bound() && FitsHeader(msg) && pos + 1 < U64
      modifies payload
      ensures Bound()
      ensures Meaning() == Published(old(Meaning()), pos, msg)
      ensures Carries(Meaning().cells[Slot(pos, recordMax)], msg, stride - RECORD_HEADER_SIZE)
    {
      SlotIsRemainder(pos, recordMax);
      var i := pos % recordMax;
      var st := Store(msg, stride - RECORD_HEADER_SIZE);
      StoredEncodable(msg, stride - RECORD_HEADER_SIZE);
      StoreRecord(i, st);
      StoreSlotWord(i, pos + 1);
      HeldMeans(Meaning().cells[i], msg, stride - RECORD_HEADER_SIZE);
    }

    /** The two closing stores of a pop at `pos`: free the slot, then advance the head. */
    method CloseHead(pos: nat)
      requires Bound() && InRange() && pos == Meaning().head
      modifies payload
      ensures Bound()
      ensures Meaning() == old(Meaning()).(head := pos + 1,
                             seqs := old(Meaning()).seqs[Slot(pos, recordMax) := pos + recordMax])
    {
      SlotIsRemainder(pos, recordMax);
      StoreSlotWord(pos % recordMax, pos + recordMax);
      StoreHeadCursor(pos + 1);
    }

    /** `try_pop`: copies out the record at the head and frees its slot, or reports an empty ring. */
    method TryPop(out: array<Byte>) returns (r: Option<Popped>)
      requires out != payload
      requires ValidMeta() ==> Bound() && InRange()
      modifies payload, out
      ensures !old(ValidMeta()) ==> r == None && unchanged(payload)
      ensures old(ValidMeta()) ==> Bound() && (Meaning(), r) == PopView(old(Meaning()), out.Length)
      ensures r.None? ==> unchanged(out)
      ensures r.Some? ==> |r.value.data| <= out.Length && out[..] == Splice(old(out[..]), 0, r.value.data)
    {
      if !ValidMeta() {
        return None;
      }
      var pos, ready, cell := LoadHead();
      if !ready {
        return None;
      }
      var rec := Take(cell, out.Length);
      Copy(out, 0, rec.data);
      CloseHead(pos);
      r := Some(rec);
    }

    /** The loads of a pop: the head, whether its slot holds a published record, and the memory of that slot. */
    method LoadHead() returns (pos: nat, ready: bool, cell: Cell)
      requires Bound()
      ensures pos == Meaning().head && ready == (Meaning().seqs[Slot(pos, recordMax)] == pos + 1)
      ensures cell == Meaning().cells[Slot(pos, recordMax)]
    {
      pos := Load(payload[..], 0, 8);
      SlotIsRemainder(pos, recordMax);
      var i := pos % recordMax;
      var word := Load(payload[..], SlotWordOffset(i), 8);
      assert word == Meaning().seqs[i];
      ready := word == pos + 1;
      cell := RecordAt(payload[..], recordMax, stride, i);
      assert cell == Meaning().cells[i];
    }

    /** `drain_batch` with a limit of `|answers|` records: pops until the ring is empty, the limit is reached, or
        the callback, whose i-th answer is `answers[i]`, declines a record. */
    method DrainBatch(scratch: array<Byte>, answers: seq<bool>) returns (drained: nat, records: seq<Popped>)
      requires scratch != payload && Bound() && Meaning().tail + 1 < CURSOR_LIMIT
      requires Meaning().head + |answers| + recordMax < CURSOR_LIMIT
      modifies payload, scratch
      ensures Bound() && drained == |records|
      ensures (Meaning(), records) == DrainView(old(Meaning()), scratch.Length, answers, 0, [])
    {
      drained, records := 0, [];
      ghost var u := Meaning();
      ghost var room := scratch.Length;
      ghost var goal := DrainView(u, room, answers, 0, []);
      while drained < |answers|
        invariant drained <= |answers| && drained == |records|
        invariant Bound() && Meaning() == u && Sized(u)
        invariant u.tail + 1 < CURSOR_LIMIT && u.head + |answers| - drained + recordMax < CURSOR_LIMIT
        invariant DrainView(u, room, answers, drained, records) == goal
        decreases |answers| - drained
      {
        DrainNext(u, room, answers, drained, records);
        var r;
        r, u := PopNext(scratch, u);
        if r.None? {
          return;
        }
        records := records + [r.value];
        drained := drained + 1;
        if !answers[drained - 1] {
          return;
        }
      }
    }

    /** One pop of a batch, from the meaning `u` to the meaning `w`. */
    method PopNext(scratch: array<Byte>, ghost u: View) returns (r: Option<Popped>, ghost w: View)
      requires scratch != payload && Bound() && Meaning() == u
      requires u.tail + 1 < CURSOR_LIMIT && u.head + recordMax < CURSOR_LIMIT
      modifies payload, scratch
      ensures Bound() && Meaning() == w && Sized(w) && (w, r) == PopView(u, scratch.Length)
      ensures w.tail == u.tail && w.head <= u.head + 1
    {
      r := TryPop(scratch);
      w := Meaning();
    }
  }
}
