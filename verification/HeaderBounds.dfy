/** The size fields of a segment header: what `create` writes and what `attach` and the janitor accept. */
module HeaderBounds {
  import opened Base
  import opened FixedNames
  import opened Layout
  import opened Names

  const MAGIC: nat := 0x5348_4D46
  const VERSION_MAJOR: nat := 1
  const MAX_SEGMENT_SIZE: nat := 0x4000_0000

  type U32Word = x: nat | x < U32
  type U64Word = x: nat | x < U64

  datatype Header = Header(magic: U32Word, versionMajor: nat, totalSize: U64Word, metaOffset: U32Word,
                           metaSize: U32Word, payloadOffset: U32Word, payloadSize: U64Word, name: NameBuffer)

  datatype HeaderVerdict = HeaderOk | CorruptedHeader | VersionMismatch

  /** `validate_header`. Both ends are sums of 64-bit words. */
  function ValidateHeader(h: Header, mapped: nat): (r: HeaderVerdict) {
    if h.magic != MAGIC then CorruptedHeader
    else if h.versionMajor != VERSION_MAJOR then VersionMismatch
    else if h.totalSize != mapped || h.totalSize < HEADER_SIZE then CorruptedHeader
    else if h.metaOffset < HEADER_SIZE || h.metaOffset > h.totalSize then CorruptedHeader
    else
      var metaEnd := (h.metaOffset + h.metaSize) % U64;
      var payloadEnd := (h.payloadOffset + h.payloadSize) % U64;
      if metaEnd > h.totalSize || h.payloadOffset < metaEnd || payloadEnd > h.totalSize then CorruptedHeader
      else HeaderOk
  }

  /** `janitor_header_valid`. */
  predicate JanitorHeaderValid(h: Header, mapped: nat) {
    && h.magic == MAGIC && h.versionMajor == VERSION_MAJOR
    && h.totalSize == mapped && h.totalSize >= HEADER_SIZE
    && var metaEnd := (h.metaOffset + h.metaSize) % U64;
       var payloadEnd := (h.payloadOffset + h.payloadSize) % U64;
       h.metaOffset >= HEADER_SIZE && metaEnd <= h.totalSize && h.payloadOffset >= metaEnd && payloadEnd <= h.totalSize
  }

  /** The two checks are the same, although only one of them compares the metadata offset with the size. */
  lemma JanitorAgrees(h: Header, mapped: nat)
    ensures JanitorHeaderValid(h, mapped) <==> ValidateHeader(h, mapped) == HeaderOk
  {
    assert (h.metaOffset + h.metaSize) % U64 == h.metaOffset + h.metaSize;
  }

  /** The three verdicts, spelled out. The end of the metadata cannot wrap, that of the payload can. */
  lemma VerdictIs(h: Header, mapped: nat)
    ensures ValidateHeader(h, mapped) == HeaderOk
       <==> && h.magic == 0x5348_4D46 && h.versionMajor == 1 && h.totalSize == mapped >= 256
            && 256 <= h.metaOffset && h.metaOffset + h.metaSize <= h.payloadOffset
            && h.metaOffset + h.metaSize <= h.totalSize && (h.payloadOffset + h.payloadSize) % U64 <= h.totalSize
    ensures ValidateHeader(h, mapped) == VersionMismatch <==> h.magic == 0x5348_4D46 && h.versionMajor != 1
  {
    SmallRemainder(h.metaOffset + h.metaSize);
  }

  /** A span of bytes `[from, from + len)`. */
  datatype Span = Span(from: nat, len: nat)

  predicate Inside(a: Span, size: nat) {
    a.from + a.len <= size
  }

  predicate Covers(a: Span, i: nat) {
    a.from <= i < a.from + a.len
  }

  ghost predicate Apart(a: Span, b: Span) {
    forall i: nat :: !(Covers(a, i) && Covers(b, i))
  }

  /** The fixed header, the metadata and the payload lie in the mapping and share no byte. */
  ghost predicate SpansFit(h: Header, mapped: nat) {
    var head, meta, payload :=
      Span(0, HEADER_SIZE), Span(h.metaOffset, h.metaSize), Span(h.payloadOffset, h.payloadSize);
    && Inside(head, mapped) && Inside(meta, mapped) && Inside(payload, mapped)
    && Apart(head, meta) && Apart(head, payload) && Apart(meta, payload)
  }

  /** An accepted header describes disjoint spans inside the mapping exactly when the end of its payload does not wrap
      a 64-bit word. */
  lemma ValidatedSpans(h: Header, mapped: nat)
    requires ValidateHeader(h, mapped) == HeaderOk
    ensures SpansFit(h, mapped) <==> h.payloadOffset + h.payloadSize < U64
  {
    assert (h.metaOffset + h.metaSize) % U64 == h.metaOffset + h.metaSize;
    if h.payloadOffset + h.payloadSize < U64 {
      assert (h.payloadOffset + h.payloadSize) % U64 == h.payloadOffset + h.payloadSize;
    }
  }

  /** The bound is needed: a header can be accepted although the end of its payload wraps. */
  lemma PayloadEndMayWrap()
    ensures var h := Header(MAGIC, VERSION_MAJOR, 1024, 256, 64, 320, U64 - 320, CopyName("/shmfx.log.a"));
            ValidateHeader(h, 1024) == HeaderOk && !SpansFit(h, 1024)
  {
    var h := Header(MAGIC, VERSION_MAJOR, 1024, 256, 64, 320, U64 - 320, CopyName("/shmfx.log.a"));
    ValidatedSpans(h, 1024);
  }

  // ---------------------------------------------------------------- create

  /** The size test of `validate_create_security`, on 64-bit words. */
  predicate SizeAllowed(total: U64Word, meta: U64Word) {
    (HEADER_SIZE + meta) % U64 <= total <= MAX_SEGMENT_SIZE
  }

  function PayloadOffset(meta: U64Word): (r: nat) {
    AlignUp((HEADER_SIZE + meta) % U64, CACHE_LINE)
  }

  /** The options `create` goes on to open an object with. */
  predicate Creatable(total: U64Word, meta: U64Word) {
    SizeAllowed(total, meta) && PayloadOffset(meta) <= total
  }

  /** The size fields `create` stores, truncated to the width of each field. */
  function CreatedHeader(name: string, total: U64Word, meta: U64Word): (h: Header)
    requires Creatable(total, meta)
  {
    Header(MAGIC, VERSION_MAJOR, total, HEADER_SIZE, meta % U32, PayloadOffset(meta) % U32, total - PayloadOffset(meta),
           CopyName(name))
  }

  /** Where 256 plus the metadata size does not wrap, the created header keeps every size untruncated, its payload
      starts at the first cache line after the metadata and it fills the segment to its end. */
  lemma CreatedFields(name: string, total: U64Word, meta: U64Word)
    requires Creatable(total, meta) && HEADER_SIZE + meta < U64
    ensures var h := CreatedHeader(name, total, meta);
            && h.metaSize == meta
            && h.metaOffset + h.metaSize <= h.payloadOffset < h.metaOffset + h.metaSize + CACHE_LINE
            && h.payloadOffset % CACHE_LINE == 0 && h.payloadOffset + h.payloadSize == total
  {
    SmallRemainder(HEADER_SIZE + meta);
    AlignUpTo64(HEADER_SIZE + meta);
    Untruncated(meta, PayloadOffset(meta));
  }

  lemma Untruncated(meta: nat, offset: nat)
    requires meta <= MAX_SEGMENT_SIZE && offset <= MAX_SEGMENT_SIZE
    ensures meta % U32 == meta && offset % U32 == offset
  {
  }

  /** Every header that `create` writes passes the checks of `attach` and of the janitor, with disjoint spans inside
      the mapping, exactly when 256 plus the metadata size does not wrap. */
  lemma CreatedPassesIff(name: string, total: U64Word, meta: U64Word)
    requires Creatable(total, meta)
    ensures var h := CreatedHeader(name, total, meta);
            && (ValidateHeader(h, total) == HeaderOk <==> HEADER_SIZE + meta < U64)
            && (JanitorHeaderValid(h, total) <==> HEADER_SIZE + meta < U64)
            && (HEADER_SIZE + meta < U64 ==> SpansFit(h, total))
  {
    var h := CreatedHeader(name, total, meta);
    JanitorAgrees(h, total);
    if HEADER_SIZE + meta < U64 {
      CreatedFields(name, total, meta);
      assert (h.metaOffset + h.metaSize) % U64 == h.metaOffset + h.metaSize;
      assert (h.payloadOffset + h.payloadSize) % U64 == total;
      ValidatedSpans(h, total);
    } else {
      WrappedMeta(meta);
      assert (h.metaOffset + h.metaSize) % U64 == h.metaOffset + h.metaSize;
    }
  }

  lemma WrappedMeta(meta: U64Word)
    requires HEADER_SIZE + meta >= U64
    ensures meta % U32 >= U32 - HEADER_SIZE
  {
    var d := meta - (U64 - HEADER_SIZE);
    assert meta == (U32 - 1) * U32 + (U32 - HEADER_SIZE + d);
  }

  /** `attach` finds the name it asked for in every header that `create` wrote under an accepted name. */
  lemma CreatedNameMatches(name: string, total: U64Word, meta: U64Word)
    requires Creatable(total, meta) && Parse(name).Parsed?
    ensures NameOf(CreatedHeader(name, total, meta).name) == name
  {
    AcceptedNameSurvives(name);
  }
}
