/**
 * The byte layout a cache file has when nginx writes it, as a reference
 * definition to check the decoder against: encoding a well-formed record
 * and decoding the bytes gives the record back.
 */
module CacheFileEncode {
  import opened Wrappers
  import opened Bytes
  import opened Struct
  import opened CacheFileInfo

  /** A stored time: the sentinel 2^64 - 1 when absent. */
  function TimeOrMax(t: Option<nat>): nat {
    match t
    case None => TimeMax
    case Some(v) => v
  }

  /** A fixed text buffer of `size` bytes: all zero when absent. */
  function TextBuffer(t: Option<string>, size: nat): (r: seq<byte>)
    requires t.Some? ==> |t.value| == size && IsAsciiText(t.value)
    ensures |r| == size
  {
    match t
    case None => Zeros(size)
    case Some(s) => EncodeAscii(s)
  }

  /** The eleven integers of the '<QQQQQQIHHHB' block, in order. */
  function IntegersOf(h: CacheHeader): seq<nat> {
    [h.version, TimeOrMax(h.validSec), h.updatingSec, h.errorSec, TimeOrMax(h.lastModified),
     TimeOrMax(h.date), h.crc32, h.validMsec, h.headerStart, h.bodyStart, h.etagLen]
  }

  /** A text field that the decoder can give back: absent, or full-width ASCII text that is not all NUL. */
  predicate StorableText(t: Option<string>, size: nat) {
    t.Some? ==> |t.value| == size && IsAsciiText(t.value) && exists k :: 0 <= k < size && t.value[k] != 0 as char
  }

  /** A time the decoder can give back: absent, or below the sentinel. */
  predicate StorableTime(t: Option<nat>) {
    t.Some? ==> t.value < TimeMax
  }

  /**
   * A record a well-formed cache file decodes to: version 5 (and so vary_len
   * 5), values that fit their widths, the key region and the HTTP header
   * text laid end to end from offset 336, ASCII text, and no padding warning.
   */
  predicate WellFormed(f: CacheFile) {
    var h := f.header;
    && h.version == SupportedVersion && h.varyLen == SupportedVersion
    && StorableTime(h.validSec) && StorableTime(h.lastModified) && StorableTime(h.date)
    && h.updatingSec < U64Limit && h.errorSec < U64Limit
    && h.crc32 < 0x1_0000_0000 && h.validMsec < 0x1_0000 && h.etagLen < 0x100
    && StorableText(h.etag, EtagSize) && StorableText(h.vary, VarySize) && StorableText(h.variant, VariantSize)
    && IsAsciiText(f.key) && IsAsciiText(f.httpHeader)
    && h.headerStart == HeaderSize + |KeyPrefix| + |f.key| + |KeySuffix|
    && h.bodyStart == h.headerStart + |f.httpHeader|
    && h.bodyStart < 0x1_0000
    && !f.paddingWarning
  }

  lemma WellFormedFits(f: CacheFile)
    requires WellFormed(f)
    ensures Fits(IntBlockFormat, IntegersOf(f.header))
    ensures IsAsciiText(KeyPrefix + f.key + KeySuffix)
  {
    Pow256Values();
    var s := KeyPrefix + f.key + KeySuffix;
    assert forall k :: 0 <= k < |s| ==> s[k] < 128 as char by {
      assert forall k :: 0 <= k < |KeyPrefix| ==> s[k] == KeyPrefix[k];
      assert forall k :: |KeyPrefix| <= k < |KeyPrefix| + |f.key| ==> s[k] == f.key[k - |KeyPrefix|];
    }
  }

  /** The 336-byte header; `varyLenByte` is what the struct keeps at offset 187. */
  function EncodeHeader(f: CacheFile, varyLenByte: byte): (r: seq<byte>)
    requires WellFormed(f)
    ensures |r| == HeaderSize
  {
    WellFormedFits(f);
    IntBlockLayout();
    Pack(IntBlockFormat, IntegersOf(f.header))
      + TextBuffer(f.header.etag, EtagSize)
      + [varyLenByte]
      + TextBuffer(f.header.vary, VarySize)
      + TextBuffer(f.header.variant, VariantSize)
      + Zeros(HeaderSize - PaddingAt)
  }

  /** The whole file: header, wrapped key, HTTP header text, body. */
  function Encode(f: CacheFile, varyLenByte: byte): (r: seq<byte>)
    requires WellFormed(f)
    ensures |r| == f.header.bodyStart + |f.body|
  {
    WellFormedFits(f);
    EncodeHeader(f, varyLenByte) + EncodeAscii(KeyPrefix + f.key + KeySuffix) + EncodeAscii(f.httpHeader) + f.body
  }

  /** Where the pieces of the header lie. */
  lemma HeaderPieces(f: CacheFile, varyLenByte: byte)
    requires WellFormed(f)
    ensures var hd := EncodeHeader(f, varyLenByte);
      && UnpackFrom(IntBlockFormat, hd, 0) == IntegersOf(f.header)
      && hd[EtagAt..EtagAt + EtagSize] == TextBuffer(f.header.etag, EtagSize)
      && hd[VaryAt..VaryAt + VarySize] == TextBuffer(f.header.vary, VarySize)
      && hd[VariantAt..VariantAt + VariantSize] == TextBuffer(f.header.variant, VariantSize)
      && hd[PaddingAt..HeaderSize] == Zeros(HeaderSize - PaddingAt)
  {
    WellFormedFits(f);
    IntBlockLayout();
    var ints := Pack(IntBlockFormat, IntegersOf(f.header));
    var etag := TextBuffer(f.header.etag, EtagSize);
    var vary := TextBuffer(f.header.vary, VarySize);
    var variant := TextBuffer(f.header.variant, VariantSize);
    var hd := EncodeHeader(f, varyLenByte);
    HeaderParts(ints, etag, [varyLenByte], vary, variant, Zeros(HeaderSize - PaddingAt));
    UnpackPacked(IntBlockFormat, IntegersOf(f.header), hd, 0);
  }

  /** Where each part of a six-part concatenation lies. */
  lemma HeaderParts<T>(a: seq<T>, b: seq<T>, c: seq<T>, d: seq<T>, e: seq<T>, g: seq<T>)
    ensures var s := a + b + c + d + e + g;
      var i, j, k := |a| + |b| + |c|, |a| + |b| + |c| + |d|, |a| + |b| + |c| + |d| + |e|;
      && s[..|a|] == a && s[|a|..|a| + |b|] == b
      && s[i..j] == d && s[j..k] == e && s[k..|s|] == g
  {
    var s := a + b + c + d + e + g;
    assert s == a + (b + (c + (d + (e + g))));
  }

  /** Where the pieces of the file lie. */
  lemma FilePieces(f: CacheFile, varyLenByte: byte)
    requires WellFormed(f)
    ensures var e := Encode(f, varyLenByte);
      && e[..HeaderSize] == EncodeHeader(f, varyLenByte)
      && DecodeAscii(e[HeaderSize..f.header.headerStart]) == Ok(KeyPrefix + f.key + KeySuffix)
      && DecodeAscii(e[f.header.headerStart..f.header.bodyStart]) == Ok(f.httpHeader)
      && e[f.header.bodyStart..] == f.body
  {
    WellFormedFits(f);
    var hd := EncodeHeader(f, varyLenByte);
    var key := EncodeAscii(KeyPrefix + f.key + KeySuffix);
    var http := EncodeAscii(f.httpHeader);
    var e := Encode(f, varyLenByte);
    assert e == hd + key + http + f.body;
    assert |hd + key| == f.header.headerStart;
    assert e[..HeaderSize] == hd;
    assert e[HeaderSize..f.header.headerStart] == key;
    assert e[f.header.headerStart..f.header.bodyStart] == http;
    DecodeEncodedAscii(KeyPrefix + f.key + KeySuffix);
    DecodeEncodedAscii(f.httpHeader);
  }

  /** A storable text field survives the buffer and string_or_none. */
  lemma TextBufferRoundTrip(t: Option<string>, size: nat)
    requires size > 0 && StorableText(t, size)
    ensures StringOrNone(TextBuffer(t, size)) == Ok(t)
  {
    if t.Some? {
      var s := t.value;
      var k :| 0 <= k < size && s[k] != 0 as char;
      var bs := TextBuffer(t, size);
      assert bs[k] != 0;
      DecodeEncodedAscii(s);
    }
  }

  /** A key wrapped in "\nKEY: " and "\n" is unwrapped to itself. */
  lemma WrapUnwrap(key: string)
    ensures IsWrappedKey(KeyPrefix + key + KeySuffix)
    ensures Unwrap(KeyPrefix + key + KeySuffix) == key
  {
    var text := KeyPrefix + key + KeySuffix;
    assert text[..|KeyPrefix|] == KeyPrefix;
    assert text[|KeyPrefix|..|text| - |KeySuffix|] == key;
  }

  /** The integer block struct.unpack_from reads from an encoded file. */
  lemma EncodedIntegerBlock(f: CacheFile, varyLenByte: byte)
    requires WellFormed(f)
    ensures var e := Encode(f, varyLenByte);
      && |e| >= HeaderSize
      && UnpackFrom(IntBlockFormat, Slice(e, 0, HeaderSize), 0) == IntegersOf(f.header)
  {
    var e := Encode(f, varyLenByte);
    HeaderPieces(f, varyLenByte);
    FilePieces(f, varyLenByte);
    assert Slice(e, 0, HeaderSize) == EncodeHeader(f, varyLenByte);
  }

  /** A storable time survives the sentinel encoding. */
  lemma TimeRoundTrip(t: Option<nat>)
    requires StorableTime(t)
    ensures TimeOrNone(TimeOrMax(t)) == t
  {
  }

  /** The header integers read back from an encoded file. */
  lemma EncodedIntegers(f: CacheFile, varyLenByte: byte)
    requires WellFormed(f)
    ensures var e := Encode(f, varyLenByte);
      && |e| >= IntBlockSize
      && FieldAt(e, VersionAt, 8) == SupportedVersion
      && HeaderStartOf(e) == f.header.headerStart && BodyStartOf(e) == f.header.bodyStart
      && HeaderOf(e, f.header.etag, f.header.vary, f.header.variant) == f.header
  {
    var h := f.header;
    var e := Encode(f, varyLenByte);
    EncodedIntegerBlock(f, varyLenByte);
    UnpackedHeader(e);
    VaryLenOfVersion(e);
    TimeRoundTrip(h.validSec);
    TimeRoundTrip(h.lastModified);
    TimeRoundTrip(h.date);
  }

  /** The three text buffers and the padding read back from an encoded file. */
  lemma EncodedBuffers(f: CacheFile, varyLenByte: byte)
    requires WellFormed(f)
    ensures var e := Encode(f, varyLenByte);
      && |e| >= HeaderSize
      && OptionalTextOf(e, Etag) == Ok(f.header.etag)
      && OptionalTextOf(e, Vary) == Ok(f.header.vary)
      && OptionalTextOf(e, Variant) == Ok(f.header.variant)
      && Slice(e, PaddingAt, HeaderSize) == Zeros(HeaderSize - PaddingAt)
  {
    var h := f.header;
    var e := Encode(f, varyLenByte);
    HeaderPieces(f, varyLenByte);
    FilePieces(f, varyLenByte);
    RegionBounds(e);
    WindowOfWindow(e, 0, HeaderSize, EtagAt, EtagAt + EtagSize);
    WindowOfWindow(e, 0, HeaderSize, VaryAt, VaryAt + VarySize);
    WindowOfWindow(e, 0, HeaderSize, VariantAt, VariantAt + VariantSize);
    WindowOfWindow(e, 0, HeaderSize, PaddingAt, HeaderSize);
    TextBufferRoundTrip(h.etag, EtagSize);
    TextBufferRoundTrip(h.vary, VarySize);
    TextBufferRoundTrip(h.variant, VariantSize);
  }

  /** The key region, the HTTP header text and the body read back from an encoded file. */
  lemma EncodedTail(f: CacheFile, varyLenByte: byte)
    requires WellFormed(f)
    ensures var e := Encode(f, varyLenByte);
      && |e| >= IntBlockSize
      && TextOf(e, Key) == Ok(KeyPrefix + f.key + KeySuffix)
      && TextOf(e, HttpHeader) == Ok(f.httpHeader)
      && Slice(e, BodyStartOf(e), |e|) == f.body
  {
    var e := Encode(f, varyLenByte);
    FilePieces(f, varyLenByte);
    EncodedIntegers(f, varyLenByte);
    RegionBounds(e);
  }

  /**
   * Decoding the bytes of a well-formed record gives the record back,
   * whatever the struct's vary_len byte holds.
   */
  lemma DecodeEncoded(f: CacheFile, varyLenByte: byte)
    requires WellFormed(f)
    ensures Decode(Encode(f, varyLenByte)) == Ok(f)
  {
    var e := Encode(f, varyLenByte);
    EncodedIntegers(f, varyLenByte);
    EncodedBuffers(f, varyLenByte);
    EncodedTail(f, varyLenByte);
    WrapUnwrap(f.key);
    PaddingBytes(e);
  }

  /*
   * The other direction: a file laid out as nginx writes it is the encoding
   * of the record it decodes to.
   */

  /** A buffer that string_or_none reads as a storable field is that field's buffer. */
  lemma TextBufferOfDecoded(bs: seq<byte>, t: Option<string>, size: nat)
    requires |bs| == size > 0
    requires t == None <==> AllZero(bs)
    requires t.Some? ==> IsAsciiText(t.value) && EncodeAscii(t.value) == bs
    ensures StorableText(t, size) && TextBuffer(t, size) == bs
  {
    if t.Some? {
      var k :| 0 <= k < |bs| && bs[k] != 0;
      assert t.value[k] as int == bs[k] as int;
    } else {
      assert forall k :: 0 <= k < size ==> Zeros(size)[k] == bs[k];
    }
  }

  /** Bytes that are all zero are the zeros of their length. */
  lemma ZerosOfAllZero(bs: seq<byte>)
    requires AllZero(bs)
    ensures bs == Zeros(|bs|)
  {
    assert forall k :: 0 <= k < |bs| ==> bs[k] == Zeros(|bs|)[k];
  }

  /** The eleven integers of the '<QQQQQQIHHHB' block of a file, read at their offsets. */
  function IntegerFields(d: seq<byte>): seq<nat>
    requires |d| >= IntBlockSize
  {
    [FieldAt(d, VersionAt, 8), FieldAt(d, ValidSecAt, 8), FieldAt(d, UpdatingSecAt, 8),
     FieldAt(d, ErrorSecAt, 8), FieldAt(d, LastModifiedAt, 8), FieldAt(d, DateAt, 8), FieldAt(d, Crc32At, 4),
     FieldAt(d, ValidMsecAt, 2), FieldAt(d, HeaderStartAt, 2), FieldAt(d, BodyStartAt, 2), FieldAt(d, EtagLenAt, 1)]
  }

  /** struct.unpack_from reads the integer block's fields at their offsets. */
  lemma UnpackedIntegerFields(d: seq<byte>)
    requires |d| >= IntBlockSize
    ensures |Slice(d, 0, HeaderSize)| >= CalcSize(IntBlockFormat)
    ensures UnpackFrom(IntBlockFormat, Slice(d, 0, HeaderSize), 0) == IntegerFields(d)
  {
    UnpackedHeader(d);
    var ints, fields := UnpackFrom(IntBlockFormat, Slice(d, 0, HeaderSize), 0), IntegerFields(d);
    assert |ints| == |fields| == 11;
    assert forall k :: 0 <= k < 11 ==> ints[k] == fields[k];
  }

  /** The integers of a decoded header, as the encoder lists them, are those struct.unpack_from reads. */
  lemma IntegersOfHeaderOf(d: seq<byte>, etag: Option<string>, vary: Option<string>, variant: Option<string>)
    requires |d| >= IntBlockSize
    ensures |Slice(d, 0, HeaderSize)| >= CalcSize(IntBlockFormat)
    ensures IntegersOf(HeaderOf(d, etag, vary, variant)) == UnpackFrom(IntBlockFormat, Slice(d, 0, HeaderSize), 0)
  {
    UnpackedIntegerFields(d);
    assert IntegersOf(HeaderOf(d, etag, vary, variant)) == IntegerFields(d);
  }

  /** The integers of a header read from a file, packed again, are the file's first 59 bytes. */
  lemma PackedHeaderOf(d: seq<byte>, etag: Option<string>, vary: Option<string>, variant: Option<string>)
    requires |d| >= IntBlockSize
    ensures var h := HeaderOf(d, etag, vary, variant);
      && Fits(IntBlockFormat, IntegersOf(h))
      && Pack(IntBlockFormat, IntegersOf(h)) == d[..IntBlockSize]
  {
    var header := Slice(d, 0, HeaderSize);
    IntegersOfHeaderOf(d, etag, vary, variant);
    IntBlockLayout();
    PackUnpacked(IntBlockFormat, header, 0);
    WindowOfHead(d, HeaderSize, 0, IntBlockSize);
  }

  /** The integers of a decoded header, packed again, are the file's first 59 bytes. */
  lemma DecodedIntegerBlock(d: seq<byte>)
    requires Decode(d).Ok?
    ensures |d| >= IntBlockSize
    ensures var h := Decode(d).value.header;
      && Fits(IntBlockFormat, IntegersOf(h))
      && Pack(IntBlockFormat, IntegersOf(h)) == d[..IntBlockSize]
  {
    DecodeOkShape(d);
    var h := Decode(d).value.header;
    PackedHeaderOf(d, h.etag, h.vary, h.variant);
  }

  /** The text buffers and the padding of a file that decodes without a warning. */
  lemma DecodedBuffers(d: seq<byte>)
    requires Decode(d).Ok? && !Decode(d).value.paddingWarning
    ensures |d| >= HeaderSize
    ensures var h := Decode(d).value.header;
      && StorableText(h.etag, EtagSize) && StorableText(h.vary, VarySize) && StorableText(h.variant, VariantSize)
      && TextBuffer(h.etag, EtagSize) == d[EtagAt..VaryLenAt]
      && TextBuffer(h.vary, VarySize) == d[VaryAt..VariantAt]
      && TextBuffer(h.variant, VariantSize) == d[VariantAt..PaddingAt]
      && d[PaddingAt..HeaderSize] == Zeros(HeaderSize - PaddingAt)
  {
    var h := Decode(d).value.header;
    DecodedPadding(d);
    DecodedTextFields(d);
    RegionBounds(d);
    TextBufferOfDecoded(d[EtagAt..VaryLenAt], h.etag, EtagSize);
    TextBufferOfDecoded(d[VaryAt..VariantAt], h.vary, VarySize);
    TextBufferOfDecoded(d[VariantAt..PaddingAt], h.variant, VariantSize);
    ZerosOfAllZero(d[PaddingAt..HeaderSize]);
  }

  /** The integers of a decoded header are ones the encoder can store. */
  lemma DecodedIntegersStorable(d: seq<byte>)
    requires Decode(d).Ok?
    ensures var h := Decode(d).value.header;
      && h.version == SupportedVersion && h.varyLen == SupportedVersion
      && StorableTime(h.validSec) && StorableTime(h.lastModified) && StorableTime(h.date)
      && h.updatingSec < U64Limit && h.errorSec < U64Limit
      && h.crc32 < 0x1_0000_0000 && h.validMsec < 0x1_0000 && h.etagLen < 0x100
      && h.bodyStart < 0x1_0000
  {
    DecodedIntegers(d);
    DecodedTimestamps(d);
    DecodedVaryLen(d);
    Pow256Values();
  }

  /** The key inside an ASCII wrapper is ASCII. */
  lemma UnwrappedAscii(key: string)
    requires IsAsciiText(KeyPrefix + key + KeySuffix)
    ensures IsAsciiText(key)
  {
    var wrapped := KeyPrefix + key + KeySuffix;
    assert forall k :: 0 <= k < |key| ==> key[k] == wrapped[k + |KeyPrefix|];
  }

  /** The key region of a file whose header_start lies within it. */
  lemma KeyRegionLength(d: seq<byte>)
    requires |d| >= IntBlockSize && HeaderSize <= HeaderStartOf(d) <= |d|
    ensures |RegionBytes(d, Key)| == HeaderStartOf(d) - HeaderSize
  {
  }

  /** The key of a decoded file is ASCII and ends, with its wrapper, at header_start. */
  lemma DecodedKeyLayout(d: seq<byte>)
    requires Decode(d).Ok?
    requires Decode(d).value.header.headerStart <= |d|
    ensures var f := Decode(d).value;
      && IsAsciiText(f.key)
      && f.header.headerStart == HeaderSize + |KeyPrefix| + |f.key| + |KeySuffix|
  {
    DecodedKey(d);
    DecodedIntegers(d);
    KeyRegionLength(d);
    UnwrappedAscii(Decode(d).value.key);
  }

  /** The HTTP header of a decoded file fills [header_start, body_start) when those are in order. */
  lemma DecodedHttpHeaderLayout(d: seq<byte>)
    requires Decode(d).Ok?
    requires var h := Decode(d).value.header; h.headerStart <= h.bodyStart <= |d|
    ensures var f := Decode(d).value;
      && IsAsciiText(f.httpHeader)
      && f.header.bodyStart == f.header.headerStart + |f.httpHeader|
  {
    DecodedSlices(d);
  }

  /**
   * A file that decodes without a padding warning, with its HTTP header and
   * body laid end to end within it, decodes to a well-formed record.
   */
  lemma DecodedWellFormed(d: seq<byte>)
    requires Decode(d).Ok? && !Decode(d).value.paddingWarning
    requires var h := Decode(d).value.header; h.headerStart <= h.bodyStart <= |d|
    ensures WellFormed(Decode(d).value)
  {
    DecodedIntegersStorable(d);
    DecodedKeyLayout(d);
    DecodedHttpHeaderLayout(d);
    DecodedBuffers(d);
  }

  /** The 336-byte header, cut where the encoder joins its pieces. */
  lemma HeaderCuts(s: seq<byte>)
    requires |s| >= HeaderSize
    ensures s[..HeaderSize] == s[..IntBlockSize] + s[EtagAt..VaryLenAt] + [s[VaryLenAt]]
      + s[VaryAt..VariantAt] + s[VariantAt..PaddingAt] + s[PaddingAt..HeaderSize]
  {
  }

  /**
   * A file that decodes without a padding warning, with its HTTP header and
   * body laid end to end within it, is the encoding of the record it decodes
   * to, with its own byte at the vary_len offset.
   */
  lemma EncodeDecoded(d: seq<byte>)
    requires Decode(d).Ok? && !Decode(d).value.paddingWarning
    requires var h := Decode(d).value.header; h.headerStart <= h.bodyStart <= |d|
    ensures |d| > VaryLenAt
    ensures WellFormed(Decode(d).value)
    ensures Encode(Decode(d).value, d[VaryLenAt]) == d
  {
    var f := Decode(d).value;
    DecodedWellFormed(d);
    DecodedIntegerBlock(d);
    DecodedBuffers(d);
    HeaderCuts(d);
    assert EncodeHeader(f, d[VaryLenAt]) == d[..HeaderSize];
    DecodedKey(d);
    Reassembly(d);
  }
}
