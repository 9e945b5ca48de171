/**
 * The nginx proxy-cache file codec of nginx_cache_file_info.py: the decode of
 * the fixed 336-byte `ngx_http_file_cache_header_t` header (nginx 1.14.2,
 * Linux x86_64), the extraction of the key, HTTP header text and body that
 * follow it, and the in-place patch of the expiry time `valid_sec`.
 *
 * A cache file is a sequence of bytes. Decoding is modelled twice: once as
 * the declarative function `Decode`, which reads every field at its named
 * offset, and once as the method `ParseCacheFile`, which follows the program
 * step by step (unpack the integer block, advance a running offset over the
 * text buffers, check the key wrapper) and is proved to compute `Decode`.
 */
module CacheFileInfo {
  import opened Wrappers
  import opened Bytes
  import opened Struct

  /** NGINX_CACHE_HEADER_SIZE: the header occupies bytes [0, 336). */
  const HeaderSize: nat := 336
  /** The only header version the reader accepts. */
  const SupportedVersion: nat := 5
  /** 2^64 - 1: the stored time that means "no time". */
  const TimeMax: nat := 0xFFFF_FFFF_FFFF_FFFF
  /** 2^64: the first value that does not fit the 8-byte `Q` code. */
  const U64Limit: nat := 0x1_0000_0000_0000_0000

  /** Widths of the struct format '<QQQQQQIHHHB' (version .. etag_len). */
  const IntBlockFormat: seq<nat> := [8, 8, 8, 8, 8, 8, 4, 2, 2, 2, 1]
  /** struct.calcsize('<QQQQQQIHHHB'). */
  const IntBlockSize: nat := 59
  /** NGX_HTTP_CACHE_ETAG_LEN, NGX_HTTP_CACHE_VARY_LEN and NGX_HTTP_CACHE_KEY_LEN. */
  const EtagSize: nat := 128
  const VarySize: nat := 128
  const VariantSize: nat := 16

  // Byte offsets of the header fields.
  const VersionAt: nat := 0
  const ValidSecAt: nat := 8
  const UpdatingSecAt: nat := 16
  const ErrorSecAt: nat := 24
  const LastModifiedAt: nat := 32
  const DateAt: nat := 40
  const Crc32At: nat := 48
  const ValidMsecAt: nat := 52
  const HeaderStartAt: nat := 54
  const BodyStartAt: nat := 56
  const EtagLenAt: nat := 58
  const EtagAt: nat := 59
  /** Where the struct keeps vary_len; the reader does not look here. */
  const VaryLenAt: nat := 187
  const VaryAt: nat := 188
  const VariantAt: nat := 316
  const PaddingAt: nat := 332

  /** The wrapper around the cache key: "\nKEY: " before it, "\n" after it. */
  const KeyPrefix: string := "\nKEY: "
  const KeySuffix: string := "\n"

  /** The text regions of a cache file that are decoded as ASCII. */
  datatype Region = Etag | Vary | Variant | Key | HttpHeader

  /** The order in which the program decodes the regions. */
  function Rank(region: Region): nat {
    match region
    case Etag => 0
    case Vary => 1
    case Variant => 2
    case Key => 3
    case HttpHeader => 4
  }

  /** Why a cache file cannot be decoded. */
  datatype ParseError =
    | ShortHeader                                  // struct.error: fewer than 59 header bytes
    | UnexpectedVersion(version: nat)              // 'Unexpected version: ...'
    | NonAscii(region: Region, position: nat)      // UnicodeDecodeError at this byte of the region
    | MalformedKey                                 // AssertionError: key wrapper missing

  /** Why the expiry time cannot be written: struct.pack('<Q', v) rejects v. */
  datatype PatchError = OutOfRange(validSec: int)

  /**
   * The NginxCacheHeader record. Times are epoch seconds; an absent time or
   * text buffer is None.
   */
  datatype CacheHeader = CacheHeader(
    version: nat,
    validSec: Option<nat>,
    updatingSec: nat,
    errorSec: nat,
    lastModified: Option<nat>,
    date: Option<nat>,
    crc32: nat,
    validMsec: nat,
    headerStart: nat,
    bodyStart: nat,
    etagLen: nat,
    etag: Option<string>,
    varyLen: nat,
    vary: Option<string>,
    variant: Option<string>)

  /**
   * Everything a decode yields: the header, the key, the HTTP header text and
   * the body, and whether the padding warning was issued.
   */
  datatype CacheFile = CacheFile(
    header: CacheHeader,
    key: string,
    httpHeader: string,
    body: seq<byte>,
    paddingWarning: bool)

  /** datetime_or_none: the sentinel 2^64 - 1 means no time; any other value is kept. */
  function TimeOrNone(t: nat): (r: Option<nat>)
    ensures r.None? <==> t == TimeMax
    ensures r.Some? ==> r.value == t
  {
    if t == TimeMax then None else Some(t)
  }

  /**
   * string_or_none: a buffer whose set of byte values is {0} is absent;
   * any other buffer is decoded as ASCII as a whole, nothing stripped.
   * An error carries the position of the first non-ASCII byte.
   */
  function StringOrNone(bs: seq<byte>): (r: Result<Option<string>, nat>)
    ensures r == Ok(None) <==> |bs| > 0 && AllZero(bs)
    ensures r.Err? <==> !IsAscii(bs)
    ensures r.Ok? && r.value.Some? ==>
      IsAsciiText(r.value.value) && EncodeAscii(r.value.value) == bs
  {
    ByteSetIsZero(bs);
    if ByteSet(bs) == {0} then Ok(None)
    else match DecodeAscii(bs)
      case Ok(s) => EncodeDecodedAscii(bs); Ok(Some(s))
      case Err(p) => Err(p)
  }

  /**
   * The warning condition `set(extra) != {0}` on the padding bytes: they
   * are missing, or one of them is not zero.
   */
  function PaddingWarning(extra: seq<byte>): (warn: bool)
    ensures warn <==> ByteSet(extra) != {0}
  {
    ByteSetIsZero(extra);
    !(|extra| > 0 && AllZero(extra))
  }

  /** The sizes of the integer codes used: B, H, I and Q. */
  lemma Pow256Values()
    ensures Pow256(1) == 0x100 && Pow256(2) == 0x1_0000
    ensures Pow256(4) == 0x1_0000_0000 && Pow256(8) == U64Limit
  {
    assert Pow256(1) == 256 * Pow256(0);
    assert Pow256(2) == 256 * Pow256(1);
    assert Pow256(3) == 256 * Pow256(2);
    assert Pow256(4) == 256 * Pow256(3);
    assert Pow256(5) == 256 * Pow256(4);
    assert Pow256(6) == 256 * Pow256(5);
    assert Pow256(7) == 256 * Pow256(6);
    assert Pow256(8) == 256 * Pow256(7);
  }

  /** The unsigned little-endian integer stored at [at, at + width). */
  function FieldAt(d: seq<byte>, at: nat, width: nat): (r: nat)
    requires at + width <= |d|
  {
    LittleEndian(d[at..at + width])
  }

  /** The declared start of the HTTP header text. */
  function HeaderStartOf(d: seq<byte>): nat
    requires |d| >= IntBlockSize
  {
    FieldAt(d, HeaderStartAt, 2)
  }

  /** The declared start of the body. */
  function BodyStartOf(d: seq<byte>): nat
    requires |d| >= IntBlockSize
  {
    FieldAt(d, BodyStartAt, 2)
  }

  /** The bytes of each text region, with Python's clamped slicing. */
  function RegionBytes(d: seq<byte>, region: Region): seq<byte>
    requires |d| >= IntBlockSize
  {
    match region
    case Etag => Slice(d, EtagAt, EtagAt + EtagSize)
    case Vary => Slice(d, VaryAt, VaryAt + VarySize)
    case Variant => Slice(d, VariantAt, VariantAt + VariantSize)
    case Key => Slice(d, HeaderSize, HeaderStartOf(d))
    case HttpHeader => Slice(d, HeaderStartOf(d), BodyStartOf(d))
  }

  /** Where each region lies, region by region. */
  lemma RegionBounds(d: seq<byte>)
    requires |d| >= IntBlockSize
    ensures RegionBytes(d, Etag) == Slice(d, EtagAt, EtagAt + EtagSize)
    ensures RegionBytes(d, Vary) == Slice(d, VaryAt, VaryAt + VarySize)
    ensures RegionBytes(d, Variant) == Slice(d, VariantAt, VariantAt + VariantSize)
    ensures RegionBytes(d, Key) == Slice(d, HeaderSize, HeaderStartOf(d))
    ensures RegionBytes(d, HttpHeader) == Slice(d, HeaderStartOf(d), BodyStartOf(d))
  {
  }

  /** Every region the program decodes before `region` is ASCII. */
  predicate AsciiBefore(d: seq<byte>, region: Region)
    requires |d| >= IntBlockSize
  {
    && (Rank(Etag) < Rank(region) ==> IsAscii(RegionBytes(d, Etag)))
    && (Rank(Vary) < Rank(region) ==> IsAscii(RegionBytes(d, Vary)))
    && (Rank(Variant) < Rank(region) ==> IsAscii(RegionBytes(d, Variant)))
    && (Rank(Key) < Rank(region) ==> IsAscii(RegionBytes(d, Key)))
  }

  /** The ASCII text of a region, or where it stops being ASCII. */
  function TextOf(d: seq<byte>, region: Region): (r: Result<string, ParseError>)
    requires |d| >= IntBlockSize
    ensures r.Ok? <==> IsAscii(RegionBytes(d, region))
    ensures r.Ok? ==> r.value == DecodeAscii(RegionBytes(d, region)).value
    ensures r.Err? ==> r.error == NonAscii(region, DecodeAscii(RegionBytes(d, region)).error)
  {
    match DecodeAscii(RegionBytes(d, region))
    case Ok(s) => Ok(s)
    case Err(p) => Err(NonAscii(region, p))
  }

  /** A fixed text buffer: absent, or its ASCII text. */
  function OptionalTextOf(d: seq<byte>, region: Region): (r: Result<Option<string>, ParseError>)
    requires |d| >= IntBlockSize
    ensures r.Ok? <==> IsAscii(RegionBytes(d, region))
    ensures r.Ok? ==> r.value == StringOrNone(RegionBytes(d, region)).value
    ensures r.Err? ==> r.error == NonAscii(region, StringOrNone(RegionBytes(d, region)).error)
  {
    match StringOrNone(RegionBytes(d, region))
    case Ok(t) => Ok(t)
    case Err(p) => Err(NonAscii(region, p))
  }

  /** The key region starts with "\nKEY: " and ends with "\n". */
  predicate IsWrappedKey(text: string) {
    |text| >= |KeyPrefix| + |KeySuffix| && text[..|KeyPrefix|] == KeyPrefix && text[|text| - 1] == KeySuffix[0]
  }

  /** The key between its wrapper. */
  function Unwrap(text: string): string
    requires IsWrappedKey(text)
  {
    text[|KeyPrefix|..|text| - |KeySuffix|]
  }

  /** The header fields at their offsets; the text buffers are given. */
  function HeaderOf(d: seq<byte>, etag: Option<string>, vary: Option<string>, variant: Option<string>): CacheHeader
    requires |d| >= IntBlockSize
  {
    CacheHeader(
      version := FieldAt(d, VersionAt, 8),
      validSec := TimeOrNone(FieldAt(d, ValidSecAt, 8)),
      updatingSec := FieldAt(d, UpdatingSecAt, 8),
      errorSec := FieldAt(d, ErrorSecAt, 8),
      lastModified := TimeOrNone(FieldAt(d, LastModifiedAt, 8)),
      date := TimeOrNone(FieldAt(d, DateAt, 8)),
      crc32 := FieldAt(d, Crc32At, 4),
      validMsec := FieldAt(d, ValidMsecAt, 2),
      headerStart := FieldAt(d, HeaderStartAt, 2),
      bodyStart := FieldAt(d, BodyStartAt, 2),
      etagLen := FieldAt(d, EtagLenAt, 1),
      etag := etag,
      // the reader unpacks vary_len without an offset, so it is byte 0
      varyLen := FieldAt(d, VersionAt, 1),
      vary := vary,
      variant := variant)
  }

  /**
   * Decoding the 336-byte header: the NginxCacheHeader record and whether the
   * padding draws the warning.
   */
  function DecodeHeader(d: seq<byte>): (r: Result<(CacheHeader, bool), ParseError>)
    ensures |d| < IntBlockSize <==> r == Err(ShortHeader)
    ensures |d| >= IntBlockSize && FieldAt(d, VersionAt, 8) != SupportedVersion ==>
      r == Err(UnexpectedVersion(FieldAt(d, VersionAt, 8)))
    ensures r.Err? && r.error.UnexpectedVersion? ==>
      |d| >= IntBlockSize && r.error.version == FieldAt(d, VersionAt, 8) != SupportedVersion
    ensures r.Ok? <==>
      && |d| >= IntBlockSize && FieldAt(d, VersionAt, 8) == SupportedVersion
      && AsciiBefore(d, Key)
    ensures r.Ok? ==> r.value.0.version == SupportedVersion
    ensures r.Err? ==> r.error.ShortHeader? || r.error.UnexpectedVersion? || r.error.NonAscii?
    ensures r.Err? && r.error.NonAscii? ==>
      && |d| >= IntBlockSize && FieldAt(d, VersionAt, 8) == SupportedVersion
      && Rank(r.error.region) < Rank(Key)
      && AsciiBefore(d, r.error.region)
      && var bs := RegionBytes(d, r.error.region);
      r.error.position < |bs| && !IsAsciiByte(bs[r.error.position]) && IsAscii(bs[..r.error.position])
  {
    if |d| < IntBlockSize then Err(ShortHeader)
    else if FieldAt(d, VersionAt, 8) != SupportedVersion then
      Err(UnexpectedVersion(FieldAt(d, VersionAt, 8)))
    else
      var (etag, vary, variant) :- DecodeBuffers(d);
      Ok((HeaderOf(d, etag, vary, variant), PaddingWarning(Slice(d, PaddingAt, HeaderSize))))
  }

  /**
   * The three text buffers etag, vary and variant, read in that order: the
   * first one that is not ASCII is the failure.
   */
  function DecodeBuffers(d: seq<byte>): (r: Result<(Option<string>, Option<string>, Option<string>), ParseError>)
    requires |d| >= IntBlockSize
    ensures r.Ok? <==> AsciiBefore(d, Key)
    ensures r.Err? ==>
      && r.error.NonAscii? && Rank(r.error.region) < Rank(Key)
      && AsciiBefore(d, r.error.region)
      && var bs := RegionBytes(d, r.error.region);
      r.error.position < |bs| && !IsAsciiByte(bs[r.error.position]) && IsAscii(bs[..r.error.position])
  {
    var etag :- OptionalTextOf(d, Etag);
    var vary :- OptionalTextOf(d, Vary);
    var variant :- OptionalTextOf(d, Variant);
    Ok((etag, vary, variant))
  }

  /**
   * Decoding a whole cache file (parse_nginx_cache_file after the read).
   * The first failure in the program's order is the one reported.
   */
  function Decode(d: seq<byte>): (r: Result<CacheFile, ParseError>)
    ensures |d| < IntBlockSize <==> r == Err(ShortHeader)
    ensures |d| >= IntBlockSize && FieldAt(d, VersionAt, 8) != SupportedVersion ==>
      r == Err(UnexpectedVersion(FieldAt(d, VersionAt, 8)))
    ensures r.Err? && r.error.UnexpectedVersion? ==>
      |d| >= IntBlockSize && r.error.version == FieldAt(d, VersionAt, 8) != SupportedVersion
    ensures r.Ok? ==> r.value.header.version == SupportedVersion
    ensures r.Err? && r.error.NonAscii? ==>
      && |d| >= IntBlockSize && FieldAt(d, VersionAt, 8) == SupportedVersion
      && AsciiBefore(d, r.error.region)
      && (r.error.region == HttpHeader ==> TextOf(d, Key).Ok? && IsWrappedKey(TextOf(d, Key).value))
      && var bs := RegionBytes(d, r.error.region);
      r.error.position < |bs| && !IsAsciiByte(bs[r.error.position]) && IsAscii(bs[..r.error.position])
    ensures r == Err(MalformedKey) ==>
      && |d| >= IntBlockSize && FieldAt(d, VersionAt, 8) == SupportedVersion
      && AsciiBefore(d, Key)
      && TextOf(d, Key).Ok? && !IsWrappedKey(TextOf(d, Key).value)
  {
    var (hdr, paddingWarning) :- DecodeHeader(d);
    DecodeRest(d, hdr, paddingWarning)
  }

  /**
   * The steps after the padding check: the key and its wrapper, the HTTP
   * header text and the body. Whatever they give, the padding check has run.
   */
  function DecodeRest(d: seq<byte>, hdr: CacheHeader, paddingWarning: bool): (r: Result<CacheFile, ParseError>)
    requires |d| >= IntBlockSize && AsciiBefore(d, Key)
    ensures PastPaddingCheck(r)
    ensures r.Ok? ==> r.value.header == hdr && r.value.paddingWarning == paddingWarning
    ensures r.Err? && r.error.NonAscii? ==>
      && AsciiBefore(d, r.error.region)
      && (r.error.region == HttpHeader ==> TextOf(d, Key).Ok? && IsWrappedKey(TextOf(d, Key).value))
      && var bs := RegionBytes(d, r.error.region);
      r.error.position < |bs| && !IsAsciiByte(bs[r.error.position]) && IsAscii(bs[..r.error.position])
    ensures r == Err(MalformedKey) ==> TextOf(d, Key).Ok? && !IsWrappedKey(TextOf(d, Key).value)
  {
    var keyText :- TextOf(d, Key);
    if !IsWrappedKey(keyText) then Err(MalformedKey)
    else
      var httpHeader :- TextOf(d, HttpHeader);
      Ok(CacheFile(hdr, Unwrap(keyText), httpHeader, Slice(d, BodyStartOf(d), |d|), paddingWarning))
  }

  /** An outcome of the decode that only the steps after the padding check can produce. */
  predicate PastPaddingCheck(r: Result<CacheFile, ParseError>) {
    || r.Ok?
    || r == Err(MalformedKey)
    || (r.Err? && r.error.NonAscii? && Rank(r.error.region) >= Rank(Key))
  }

  /** The offsets struct.unpack_from gives the fields of '<QQQQQQIHHHB'. */
  lemma IntBlockLayout()
    ensures CalcSize(IntBlockFormat) == IntBlockSize
    ensures Offset(IntBlockFormat, 1) == ValidSecAt
    ensures Offset(IntBlockFormat, 2) == UpdatingSecAt
    ensures Offset(IntBlockFormat, 3) == ErrorSecAt
    ensures Offset(IntBlockFormat, 4) == LastModifiedAt
    ensures Offset(IntBlockFormat, 5) == DateAt
    ensures Offset(IntBlockFormat, 6) == Crc32At
    ensures Offset(IntBlockFormat, 7) == ValidMsecAt
    ensures Offset(IntBlockFormat, 8) == HeaderStartAt
    ensures Offset(IntBlockFormat, 9) == BodyStartAt
    ensures Offset(IntBlockFormat, 10) == EtagLenAt
  {
    var f := IntBlockFormat;
    assert Offset(f, 1) == 8;
    assert Offset(f, 2) == 16;
    assert Offset(f, 3) == 24;
    assert Offset(f, 4) == 32;
    assert Offset(f, 5) == 40;
    assert Offset(f, 6) == 48;
    assert Offset(f, 7) == 52;
    assert Offset(f, 8) == 54;
    assert Offset(f, 9) == 56;
    assert Offset(f, 10) == 58;
    assert Offset(f, 11) == 59;
  }

  /**
   * The integers struct.unpack_from reads from the header prefix are the
   * fields at their named offsets; vary_len, unpacked with format 'B' and no
   * offset, is the first byte.
   */
  lemma UnpackedHeader(d: seq<byte>)
    requires |d| >= IntBlockSize
    ensures var header := Slice(d, 0, HeaderSize);
      && |header| >= CalcSize(IntBlockFormat)
      && var ints := UnpackFrom(IntBlockFormat, header, 0);
      && ints[0] == FieldAt(d, VersionAt, 8)
      && ints[1] == FieldAt(d, ValidSecAt, 8)
      && ints[2] == FieldAt(d, UpdatingSecAt, 8)
      && ints[3] == FieldAt(d, ErrorSecAt, 8)
      && ints[4] == FieldAt(d, LastModifiedAt, 8)
      && ints[5] == FieldAt(d, DateAt, 8)
      && ints[6] == FieldAt(d, Crc32At, 4)
      && ints[7] == FieldAt(d, ValidMsecAt, 2)
      && ints[8] == FieldAt(d, HeaderStartAt, 2)
      && ints[9] == FieldAt(d, BodyStartAt, 2)
      && ints[10] == FieldAt(d, EtagLenAt, 1)
      && UnpackFrom([1], header, 0)[0] == FieldAt(d, VersionAt, 1)
  {
    var header := Slice(d, 0, HeaderSize);
    IntBlockLayout();
    HeaderField(d, 0);
    HeaderField(d, 1);
    HeaderField(d, 2);
    HeaderField(d, 3);
    HeaderField(d, 4);
    HeaderField(d, 5);
    HeaderField(d, 6);
    HeaderField(d, 7);
    HeaderField(d, 8);
    HeaderField(d, 9);
    HeaderField(d, 10);
    UnpackFromField([1], header, 0, 0);
    assert header[0..1] == d[0..1];
  }

  /** Field k of the integer block, unpacked from the header, is read at its offset in the file. */
  lemma HeaderField(d: seq<byte>, k: nat)
    requires |d| >= IntBlockSize && k < |IntBlockFormat|
    ensures Offset(IntBlockFormat, k) + IntBlockFormat[k] <= IntBlockSize
    ensures |Slice(d, 0, HeaderSize)| >= CalcSize(IntBlockFormat)
    ensures UnpackFrom(IntBlockFormat, Slice(d, 0, HeaderSize), 0)[k]
      == FieldAt(d, Offset(IntBlockFormat, k), IntBlockFormat[k])
  {
    IntBlockLayout();
    FieldEnd(IntBlockFormat, k);
    UnpackFromHead(IntBlockFormat, d, HeaderSize, k);
  }

  /**
   * The program's key checks, `key[:6] == '\nKEY: '` and then
   * `key[-1] == '\n'`, accept exactly the wrapped keys, and `key[6:-1]`
   * is the key between the wrapper.
   */
  lemma KeyChecks(text: string)
    ensures (Slice(text, 0, 6) == KeyPrefix && text[|text| - 1] == '\n') <==> IsWrappedKey(text)
    ensures IsWrappedKey(text) ==> Slice(text, 6, |text| - 1) == Unwrap(text)
  {
    if Slice(text, 0, 6) == KeyPrefix {
      assert text[5] == ' ';
    }
    if IsWrappedKey(text) {
      assert text[..6] == KeyPrefix;
    }
  }

  /**
   * The header half of parse_nginx_cache_file, step by step: unpack the
   * integer block, check the version, replace three times by their optional
   * form, read the text buffers while advancing the offset, and warn about
   * the padding. It computes exactly `DecodeHeader`.
   */
  method ParseHeader(d: seq<byte>) returns (r: Result<(CacheHeader, bool), ParseError>)
    ensures r == DecodeHeader(d)
  {
    var header := Slice(d, 0, HeaderSize);
    IntBlockLayout();
    if |header| < CalcSize(IntBlockFormat) {
      return Err(ShortHeader);
    }
    UnpackedHeader(d);
    RegionBounds(d);
    var ints := UnpackFrom(IntBlockFormat, header, 0);
    var offset := CalcSize(IntBlockFormat);
    if ints[0] != SupportedVersion {
      return Err(UnexpectedVersion(ints[0]));
    }
    var validSec := TimeOrNone(ints[1]);
    var lastModified := TimeOrNone(ints[4]);
    var date := TimeOrNone(ints[5]);

    var etag := StringOrNone(Slice(header, offset, offset + EtagSize));
    BufferStep(d, Etag, offset, EtagSize);
    if etag.Err? {
      return Err(NonAscii(Etag, etag.error));
    }
    offset := offset + EtagSize;

    // vary_len is unpacked from the start of the header, not at the offset
    var varyLen := UnpackFrom([1], header, 0)[0];
    offset := offset + CalcSize([1]);

    var vary := StringOrNone(Slice(header, offset, offset + VarySize));
    BufferStep(d, Vary, offset, VarySize);
    if vary.Err? {
      return Err(NonAscii(Vary, vary.error));
    }
    offset := offset + VarySize;

    var variant := StringOrNone(Slice(header, offset, offset + VariantSize));
    BufferStep(d, Variant, offset, VariantSize);
    if variant.Err? {
      return Err(NonAscii(Variant, variant.error));
    }
    offset := offset + VariantSize;

    assert HeaderSize - offset == 4;
    var extra := Slice(d, offset, HeaderSize);
    ByteSetIsZero(extra);
    var paddingWarning := ByteSet(extra) != {0};

    var hdr := CacheHeader(ints[0], validSec, ints[2], ints[3], lastModified, date, ints[6],
      ints[7], ints[8], ints[9], ints[10], etag.value, varyLen, vary.value, variant.value);
    assert hdr == HeaderOf(d, etag.value, vary.value, variant.value);
    return Ok((hdr, paddingWarning));
  }

  /**
   * parse_nginx_cache_file on the bytes of a file: decode the header, then
   * slice out and check the key, the HTTP header text and the body. It
   * computes exactly `Decode`.
   */
  method ParseCacheFile(d: seq<byte>) returns (r: Result<CacheFile, ParseError>)
    ensures r == Decode(d)
  {
    var parsed := ParseHeader(d);
    if parsed.Err? {
      return Err(parsed.error);
    }
    var (hdr, paddingWarning) := parsed.value;
    RegionBounds(d);
    assert hdr.headerStart == HeaderStartOf(d) && hdr.bodyStart == BodyStartOf(d);

    var key := DecodeAscii(Slice(d, HeaderSize, hdr.headerStart));
    if key.Err? {
      return Err(NonAscii(Key, key.error));
    }
    var keyText := key.value;
    KeyChecks(keyText);
    if Slice(keyText, 0, 6) != KeyPrefix || keyText[|keyText| - 1] != '\n' {
      return Err(MalformedKey);
    }
    keyText := Slice(keyText, 6, |keyText| - 1);

    var httpHeader := DecodeAscii(Slice(d, hdr.headerStart, hdr.bodyStart));
    if httpHeader.Err? {
      return Err(NonAscii(HttpHeader, httpHeader.error));
    }
    var body := Slice(d, hdr.bodyStart, |d|);
    return Ok(CacheFile(hdr, keyText, httpHeader.value, body, paddingWarning));
  }

  /** Reading a text buffer from the header prefix reads the region of the file. */
  lemma BufferStep(d: seq<byte>, region: Region, at: nat, size: nat)
    requires |d| >= IntBlockSize && at + size <= HeaderSize
    requires RegionBytes(d, region) == Slice(d, at, at + size)
    ensures var t := StringOrNone(Slice(Slice(d, 0, HeaderSize), at, at + size));
      && (t.Err? ==> OptionalTextOf(d, region) == Err(NonAscii(region, t.error)))
      && (t.Ok? ==> OptionalTextOf(d, region) == Ok(t.value))
  {
    SliceOfPrefix(d, HeaderSize, at, at + size);
    assert Slice(Slice(d, 0, HeaderSize), at, at + size) == RegionBytes(d, region);
  }

  /** What a successful decode is made of. */
  lemma DecodeOkShape(d: seq<byte>)
    requires Decode(d).Ok?
    ensures |d| >= IntBlockSize
    ensures OptionalTextOf(d, Etag).Ok? && OptionalTextOf(d, Vary).Ok? && OptionalTextOf(d, Variant).Ok?
    ensures TextOf(d, Key).Ok? && IsWrappedKey(TextOf(d, Key).value) && TextOf(d, HttpHeader).Ok?
    ensures Decode(d).value == CacheFile(
      HeaderOf(d, OptionalTextOf(d, Etag).value, OptionalTextOf(d, Vary).value, OptionalTextOf(d, Variant).value),
      Unwrap(TextOf(d, Key).value),
      TextOf(d, HttpHeader).value,
      Slice(d, BodyStartOf(d), |d|),
      PaddingWarning(Slice(d, PaddingAt, HeaderSize)))
  {
  }

  /*
   * What a successful decode promises about the bytes it came from.
   */

  /** The bytes of the key wrapper "\nKEY: " ... "\n". */
  const KeyPrefixBytes: seq<byte> := [0x0A, 0x4B, 0x45, 0x59, 0x3A, 0x20]
  const NewlineByte: byte := 0x0A

  /** The key region carries its wrapper, stated on the bytes. */
  predicate HasKeyWrapper(bs: seq<byte>) {
    |bs| >= |KeyPrefixBytes| + 1 && bs[..|KeyPrefixBytes|] == KeyPrefixBytes && bs[|bs| - 1] == NewlineByte
  }

  /** The conditions under which a cache file decodes, stated on its bytes. */
  predicate Decodable(d: seq<byte>) {
    && |d| >= IntBlockSize
    && FieldAt(d, VersionAt, 8) == SupportedVersion
    && IsAscii(RegionBytes(d, Etag))
    && IsAscii(RegionBytes(d, Vary))
    && IsAscii(RegionBytes(d, Variant))
    && IsAscii(RegionBytes(d, Key))
    && HasKeyWrapper(RegionBytes(d, Key))
    && IsAscii(RegionBytes(d, HttpHeader))
  }

  /** Text that matches bytes character for character matches them on every prefix. */
  lemma PrefixOfMatching(text: string, bs: seq<byte>, p: string, pb: seq<byte>)
    requires |text| == |bs| && |p| == |pb| <= |bs|
    requires forall k :: 0 <= k < |bs| ==> text[k] as int == bs[k] as int
    requires forall k :: 0 <= k < |pb| ==> p[k] as int == pb[k] as int
    ensures text[..|p|] == p <==> bs[..|pb|] == pb
  {
    if bs[..|pb|] == pb {
      assert forall k :: 0 <= k < |p| ==> text[k] as int == p[k] as int;
    }
    if text[..|p|] == p {
      assert forall k :: 0 <= k < |pb| ==> bs[k] as int == pb[k] as int;
    }
  }

  /** The character codes of the key wrapper. */
  lemma KeyWrapperCodes()
    ensures |KeyPrefix| == |KeyPrefixBytes|
    ensures forall k :: 0 <= k < |KeyPrefix| ==> KeyPrefix[k] as int == KeyPrefixBytes[k] as int
    ensures KeySuffix[0] as int == NewlineByte as int
  {
  }

  /** Text that matches bytes character for character carries the key wrapper when they do. */
  lemma KeyWrapperOfMatching(text: string, bs: seq<byte>)
    requires |text| == |bs|
    requires forall k :: 0 <= k < |bs| ==> text[k] as int == bs[k] as int
    ensures IsWrappedKey(text) <==> HasKeyWrapper(bs)
  {
    KeyWrapperCodes();
    if |bs| >= |KeyPrefixBytes| + 1 {
      PrefixOfMatching(text, bs, KeyPrefix, KeyPrefixBytes);
      assert text[|text| - 1] as int == bs[|bs| - 1] as int;
    }
  }

  /** ASCII bytes carry the key wrapper exactly when their text does. */
  lemma KeyWrapperOfBytes(bs: seq<byte>)
    requires IsAscii(bs)
    ensures IsWrappedKey(DecodeAscii(bs).value) <==> HasKeyWrapper(bs)
  {
    KeyWrapperOfMatching(DecodeAscii(bs).value, bs);
  }

  /** A wrapped key is its prefix, the key and its suffix. */
  lemma UnwrapRewrap(text: string)
    requires IsWrappedKey(text)
    ensures text == KeyPrefix + Unwrap(text) + KeySuffix
  {
    assert text[..6] == KeyPrefix;
    assert text[|text| - 1..] == KeySuffix;
    assert text == text[..6] + text[6..|text| - 1] + text[|text| - 1..];
  }

  /** Cutting a sequence at three ordered points and joining the pieces gives it back. */
  lemma SplitInFour<T>(s: seq<T>, a: nat, b: nat, c: nat)
    requires a <= b <= c <= |s|
    ensures s == s[..a] + s[a..b] + s[b..c] + s[c..]
  {
  }

  /** The padding slice is non-empty and zero exactly when the file's bytes there are. */
  lemma PaddingBytes(d: seq<byte>)
    ensures PaddingWarning(Slice(d, PaddingAt, HeaderSize)) <==>
      !(|d| > PaddingAt && forall k :: PaddingAt <= k < HeaderSize && k < |d| ==> d[k] == 0)
  {
    var extra := Slice(d, PaddingAt, HeaderSize);
    if |d| > PaddingAt && forall k :: PaddingAt <= k < HeaderSize && k < |d| ==> d[k] == 0 {
      assert AllZero(extra);
    }
    if |extra| > 0 && AllZero(extra) {
      forall k | PaddingAt <= k < HeaderSize && k < |d| ensures d[k] == 0 {
        assert extra[k - PaddingAt] == 0;
      }
    }
  }

  /** A little-endian integer below 256 is its first byte. */
  lemma SmallLittleEndian(s: seq<byte>)
    requires |s| >= 1 && LittleEndian(s) < 256
    ensures LittleEndian(s[..1]) == s[0] as nat == LittleEndian(s)
  {
    var rest := LittleEndian(s[1..]);
    assert LittleEndian(s) == s[0] as nat + 256 * rest;
    assert s[..1][1..] == [];
    assert LittleEndian(s[..1]) == s[0] as nat + 256 * LittleEndian([]);
  }

  /**
   * Decoding succeeds exactly when the header holds at least the 59 bytes of
   * the integer block, the version is 5, the three text buffers, the key
   * region and the HTTP header region are ASCII, and the key region carries
   * its wrapper. Nothing is required of the order of the offsets or of the
   * file's length beyond that: out-of-range offsets give empty slices.
   */
  lemma DecodeSucceedsIff(d: seq<byte>)
    ensures Decode(d).Ok? <==> Decodable(d)
  {
    if |d| >= IntBlockSize && IsAscii(RegionBytes(d, Key)) {
      KeyWrapperOfBytes(RegionBytes(d, Key));
    }
  }

  /**
   * The version is 5 and the integers are the little-endian values at their
   * offsets, each within the range of its width.
   */
  lemma DecodedIntegers(d: seq<byte>)
    requires Decode(d).Ok?
    ensures var h := Decode(d).value.header;
      && h.version == SupportedVersion
      && h.updatingSec == FieldAt(d, UpdatingSecAt, 8) < U64Limit
      && h.errorSec == FieldAt(d, ErrorSecAt, 8) < U64Limit
      && h.crc32 == FieldAt(d, Crc32At, 4) < 0x1_0000_0000
      && h.validMsec == FieldAt(d, ValidMsecAt, 2) < 0x1_0000
      && h.headerStart == FieldAt(d, HeaderStartAt, 2) < 0x1_0000
      && h.bodyStart == FieldAt(d, BodyStartAt, 2) < 0x1_0000
      && h.etagLen == FieldAt(d, EtagLenAt, 1) < 0x100
  {
    DecodeOkShape(d);
    Pow256Values();
  }

  /**
   * valid_sec, last_modified and date are absent exactly when the stored
   * value is 2^64 - 1 and otherwise hold the stored value; updating_sec and
   * error_sec are returned raw, the sentinel included.
   */
  lemma DecodedTimestamps(d: seq<byte>)
    requires Decode(d).Ok?
    ensures var h := Decode(d).value.header;
      && (h.validSec == None <==> FieldAt(d, ValidSecAt, 8) == TimeMax)
      && (h.validSec.Some? ==> h.validSec.value == FieldAt(d, ValidSecAt, 8))
      && (h.lastModified == None <==> FieldAt(d, LastModifiedAt, 8) == TimeMax)
      && (h.lastModified.Some? ==> h.lastModified.value == FieldAt(d, LastModifiedAt, 8))
      && (h.date == None <==> FieldAt(d, DateAt, 8) == TimeMax)
      && (h.date.Some? ==> h.date.value == FieldAt(d, DateAt, 8))
      && h.updatingSec == FieldAt(d, UpdatingSecAt, 8)
      && h.errorSec == FieldAt(d, ErrorSecAt, 8)
  {
    DecodeOkShape(d);
  }

  /**
   * etag, vary and variant are absent exactly when their buffer is non-empty
   * and all zero; otherwise they are the whole buffer read as ASCII, so in a
   * file that holds the full header they are 128, 128 and 16 characters long.
   */
  lemma DecodedTextFields(d: seq<byte>)
    requires Decode(d).Ok?
    ensures var h := Decode(d).value.header;
      && (h.etag == None <==> |RegionBytes(d, Etag)| > 0 && AllZero(RegionBytes(d, Etag)))
      && (h.vary == None <==> |RegionBytes(d, Vary)| > 0 && AllZero(RegionBytes(d, Vary)))
      && (h.variant == None <==> |RegionBytes(d, Variant)| > 0 && AllZero(RegionBytes(d, Variant)))
      && (h.etag.Some? ==> IsAsciiText(h.etag.value) && EncodeAscii(h.etag.value) == RegionBytes(d, Etag))
      && (h.vary.Some? ==> IsAsciiText(h.vary.value) && EncodeAscii(h.vary.value) == RegionBytes(d, Vary))
      && (h.variant.Some? ==> IsAsciiText(h.variant.value) && EncodeAscii(h.variant.value) == RegionBytes(d, Variant))
      && (|d| >= HeaderSize ==>
            && (h.etag.Some? ==> |h.etag.value| == EtagSize)
            && (h.vary.Some? ==> |h.vary.value| == VarySize)
            && (h.variant.Some? ==> |h.variant.value| == VariantSize))
  {
    DecodeOkShape(d);
  }

  /**
   * vary_len is read from byte 0, which a version of 5 makes 5: whatever the
   * struct's vary_len byte holds, a successful decode reports 5.
   */
  lemma DecodedVaryLen(d: seq<byte>)
    requires Decode(d).Ok?
    ensures Decode(d).value.header.varyLen == SupportedVersion
  {
    DecodeOkShape(d);
    VaryLenOfVersion(d);
  }

  /** A version of 5 in the 8-byte field is 5 in its first byte too, where vary_len is read. */
  lemma VaryLenOfVersion(d: seq<byte>)
    requires |d| >= 8 && FieldAt(d, VersionAt, 8) == SupportedVersion
    ensures FieldAt(d, VersionAt, 1) == SupportedVersion
  {
    SmallLittleEndian(d[0..8]);
    assert d[0..8][..1] == d[0..1];
  }

  /**
   * The key is the key region without its 6-character prefix and 1-character
   * suffix: the region is the bytes of "\nKEY: " + key + "\n", 7 longer
   * than the key, so the declared header start is at least 343.
   */
  lemma DecodedKey(d: seq<byte>)
    requires Decode(d).Ok?
    ensures var f := Decode(d).value;
      && IsAsciiText(KeyPrefix + f.key + KeySuffix)
      && RegionBytes(d, Key) == EncodeAscii(KeyPrefix + f.key + KeySuffix)
      && |RegionBytes(d, Key)| == |f.key| + 7
      && f.header.headerStart >= HeaderSize + 7
  {
    DecodeOkShape(d);
    RegionBounds(d);
    var bs := RegionBytes(d, Key);
    var text := DecodeAscii(bs).value;
    EncodeDecodedAscii(bs);
    UnwrapRewrap(text);
  }

  /**
   * The HTTP header text is the region [header_start, body_start) and the
   * body is [body_start, end), both with clamped slicing: a start at or
   * beyond the end gives an empty result, never a failure.
   */
  lemma DecodedSlices(d: seq<byte>)
    requires Decode(d).Ok?
    ensures var f := Decode(d).value;
      && IsAsciiText(f.httpHeader)
      && EncodeAscii(f.httpHeader) == Slice(d, f.header.headerStart, f.header.bodyStart)
      && f.body == Slice(d, f.header.bodyStart, |d|)
      && (f.header.bodyStart >= |d| ==> f.body == [])
      && (f.header.bodyStart <= f.header.headerStart || f.header.headerStart >= |d| ==> f.httpHeader == [])
  {
    DecodeOkShape(d);
    RegionBounds(d);
    EncodeDecodedAscii(RegionBytes(d, HttpHeader));
  }

  /**
   * When 336 <= header_start <= body_start <= file length, the file is the
   * header, the wrapped key, the HTTP header text and the body, in that
   * order and nothing else.
   */
  lemma {:induction false} Reassembly(d: seq<byte>)
    requires Decode(d).Ok?
    requires var h := Decode(d).value.header;
      HeaderSize <= h.headerStart <= h.bodyStart <= |d|
    ensures var f := Decode(d).value;
      && IsAsciiText(KeyPrefix + f.key + KeySuffix) && IsAsciiText(f.httpHeader)
      && d == d[..HeaderSize] + EncodeAscii(KeyPrefix + f.key + KeySuffix) + EncodeAscii(f.httpHeader) + f.body
  {
    var f := Decode(d).value;
    var hs, bs := f.header.headerStart, f.header.bodyStart;
    DecodedKey(d);
    DecodedSlices(d);
    DecodeOkShape(d);
    RegionBounds(d);
    assert EncodeAscii(KeyPrefix + f.key + KeySuffix) == d[HeaderSize..hs];
    assert EncodeAscii(f.httpHeader) == d[hs..bs];
    assert f.body == d[bs..];
    SplitInFour(d, HeaderSize, hs, bs);
  }

  /**
   * A file that decodes holds the whole header, since its key region starts
   * at 336 and is at least 7 bytes long; its padding warning is issued
   * exactly when one of the bytes [332, 336) is not zero.
   */
  lemma DecodedPadding(d: seq<byte>)
    requires Decode(d).Ok?
    ensures |d| >= HeaderSize + |KeyPrefix| + |KeySuffix|
    ensures Decode(d).value.paddingWarning <==> exists k :: PaddingAt <= k < HeaderSize && d[k] != 0
  {
    DecodeOkShape(d);
    DecodedKey(d);
    RegionBounds(d);
    PaddingBytes(d);
  }

  /**
   * The warning the padding check prints depends only on the bytes
   * [332, 336) that the file holds: it is printed unless all four are
   * present and zero, so a file too short to hold them draws it even when a
   * later check then fails.
   */
  lemma PaddingWarningPrinted(d: seq<byte>)
    requires DecodeHeader(d).Ok?
    ensures DecodeHeader(d).value.1 <==>
      !(|d| > PaddingAt && forall k :: PaddingAt <= k < HeaderSize && k < |d| ==> d[k] == 0)
  {
    PaddingBytes(d);
  }

  /**
   * The padding check runs, and prints its warning, before the key checks
   * and the HTTP header decode: it is reached exactly when the decode
   * succeeds or fails in one of those later steps, and a successful decode
   * reports the flag it computed.
   */
  lemma PaddingCheckReached(d: seq<byte>)
    ensures DecodeHeader(d).Ok? <==> PastPaddingCheck(Decode(d))
    ensures Decode(d).Ok? ==> Decode(d).value.paddingWarning == DecodeHeader(d).value.1
  {
    if DecodeHeader(d).Err? {
      assert Decode(d) == Err(DecodeHeader(d).error);
    }
  }

  /*
   * The expiry patch: set_expire_nginx_cache_file.
   */

  /**
   * The file after writing the 8-byte little-endian expiry time at offset 8,
   * or the error struct.pack raises before anything is written when the
   * time does not fit an unsigned 64-bit integer. Every other byte keeps its
   * value; a file shorter than 16 bytes grows to 16, the bytes between its
   * end and offset 8 reading as zero.
   */
  function PatchExpiry(d: seq<byte>, validSec: int): (r: Result<seq<byte>, PatchError>)
    ensures r.Ok? <==> 0 <= validSec < U64Limit
    ensures r.Err? ==> r.error == OutOfRange(validSec)
    ensures r.Ok? ==>
      && |r.value| == (if |d| < ValidSecAt + 8 then ValidSecAt + 8 else |d|)
      && FieldAt(r.value, ValidSecAt, 8) == validSec
      && (forall k :: 0 <= k < |d| && !(ValidSecAt <= k < ValidSecAt + 8) ==> r.value[k] == d[k])
      && (forall k :: |d| <= k < ValidSecAt ==> r.value[k] == 0)
  {
    if !(0 <= validSec < U64Limit) then Err(OutOfRange(validSec))
    else
      Pow256Values();
      var packed := ToLittleEndian(validSec, 8);
      LittleEndianOfEncoding(validSec, 8);
      var before := if |d| >= ValidSecAt then d[..ValidSecAt] else d + Zeros(ValidSecAt - |d|);
      var after := if |d| > ValidSecAt + 8 then d[ValidSecAt + 8..] else [];
      var patched := before + packed + after;
      assert patched[ValidSecAt..ValidSecAt + 8] == packed;
      Ok(patched)
  }

  /**
   * set_expire_nginx_cache_file on a file already holding at least the 16
   * bytes up to the end of valid_sec: the seek to offset 8 and the write of
   * struct.pack('<Q', validSec), in place.
   */
  method SetExpire(file: array<byte>, validSec: int) returns (ok: bool)
    requires file.Length >= ValidSecAt + 8
    modifies file
    ensures ok <==> 0 <= validSec < U64Limit
    ensures ok ==> file[..] == PatchExpiry(old(file[..]), validSec).value
    ensures ok ==> FieldAt(file[..], ValidSecAt, 8) == validSec
    ensures forall k :: 0 <= k < file.Length && !(ValidSecAt <= k < ValidSecAt + 8) ==> file[k] == old(file[k])
    ensures !ok ==> file[..] == old(file[..])
  {
    if !(0 <= validSec < U64Limit) {
      return false;
    }
    Pow256Values();
    var packed := ToLittleEndian(validSec, 8);
    forall k | ValidSecAt <= k < ValidSecAt + 8 {
      file[k] := packed[k - ValidSecAt];
    }
    ghost var patched := PatchExpiry(old(file[..]), validSec).value;
    assert file[..] == patched by {
      assert forall k :: 0 <= k < file.Length && !(ValidSecAt <= k < ValidSecAt + 8) ==> file[k] == patched[k];
      assert file[ValidSecAt..ValidSecAt + 8] == packed;
      LittleEndianOfEncoding(validSec, 8);
      EncodingOfLittleEndian(patched[ValidSecAt..ValidSecAt + 8]);
      assert patched[ValidSecAt..ValidSecAt + 8] == packed;
      forall k | ValidSecAt <= k < ValidSecAt + 8 ensures file[k] == patched[k] {
        assert file[k] == file[ValidSecAt..ValidSecAt + 8][k - ValidSecAt];
        assert patched[k] == patched[ValidSecAt..ValidSecAt + 8][k - ValidSecAt];
      }
    }
    return true;
  }

  /*
   * Which bytes a decode depends on.
   */

  /** d and e have the same length and differ at most in [lo, hi). */
  predicate AgreeOutside(d: seq<byte>, e: seq<byte>, lo: nat, hi: nat) {
    |d| == |e| && forall k :: 0 <= k < |d| && !(lo <= k < hi) ==> d[k] == e[k]
  }

  /** The ranges [lo, hi) and [a, b) do not overlap. */
  predicate Apart(lo: nat, hi: nat, a: nat, b: nat) {
    hi <= a || b <= lo
  }

  lemma SliceOutside(d: seq<byte>, e: seq<byte>, lo: nat, hi: nat, i: nat, j: nat)
    requires AgreeOutside(d, e, lo, hi) && (j <= lo || hi <= i)
    ensures Slice(d, i, j) == Slice(e, i, j)
  {
  }

  lemma FieldOutside(d: seq<byte>, e: seq<byte>, lo: nat, hi: nat, at: nat, width: nat)
    requires AgreeOutside(d, e, lo, hi) && at + width <= |d| && (at + width <= lo || hi <= at)
    ensures FieldAt(d, at, width) == FieldAt(e, at, width)
  {
    assert d[at..at + width] == e[at..at + width];
  }

  /** A region that decodes to a wrapped key ends at 343 or later. */
  lemma WrappedKeyEnd(d: seq<byte>)
    requires |d| >= IntBlockSize && TextOf(d, Key).Ok? && IsWrappedKey(TextOf(d, Key).value)
    ensures HeaderStartOf(d) >= HeaderSize + |KeyPrefix| + |KeySuffix|
  {
    RegionBounds(d);
  }

  /**
   * Two files that differ at most in a window lying outside the version,
   * the text buffers and the key region decode alike up to the header
   * integers, the body and the padding warning: the same error, or both
   * succeed with the same text fields, key and HTTP header text. The window
   * ends before 336, so it cannot reach the HTTP header text of a file whose
   * key decodes.
   */
  lemma DecodeOutsideWindow(d: seq<byte>, e: seq<byte>, lo: nat, hi: nat)
    requires AgreeOutside(d, e, lo, hi) && |d| >= IntBlockSize
    requires hi <= HeaderSize && Apart(lo, hi, VersionAt, VersionAt + 8)
    requires Apart(lo, hi, HeaderStartAt, BodyStartAt + 2)
    requires Apart(lo, hi, EtagAt, EtagAt + EtagSize) && Apart(lo, hi, VaryAt, VariantAt + VariantSize)
    ensures Decode(d).Err? ==> Decode(e) == Decode(d)
    ensures Decode(d).Ok? ==> Decode(e).Ok?
    ensures Decode(d).Ok? ==>
      var f, g := Decode(d).value, Decode(e).value;
      && g.header.etag == f.header.etag && g.header.vary == f.header.vary && g.header.variant == f.header.variant
      && g.header.headerStart == f.header.headerStart && g.header.bodyStart == f.header.bodyStart
      && g.key == f.key && g.httpHeader == f.httpHeader
  {
    RegionsOutsideWindow(d, e, lo, hi);
    assert OptionalTextOf(e, Etag) == OptionalTextOf(d, Etag);
    assert OptionalTextOf(e, Vary) == OptionalTextOf(d, Vary);
    assert OptionalTextOf(e, Variant) == OptionalTextOf(d, Variant);
    assert TextOf(e, Key) == TextOf(d, Key);
    if Decode(d).Ok? {
      DecodeOkShape(d);
      DecodeOkShape(e);
    }
  }

  /** The regions and offsets that the window leaves alone. */
  lemma RegionsOutsideWindow(d: seq<byte>, e: seq<byte>, lo: nat, hi: nat)
    requires AgreeOutside(d, e, lo, hi) && |d| >= IntBlockSize
    requires hi <= HeaderSize && Apart(lo, hi, VersionAt, VersionAt + 8)
    requires Apart(lo, hi, HeaderStartAt, BodyStartAt + 2)
    requires Apart(lo, hi, EtagAt, EtagAt + EtagSize) && Apart(lo, hi, VaryAt, VariantAt + VariantSize)
    ensures |e| >= IntBlockSize && FieldAt(e, VersionAt, 8) == FieldAt(d, VersionAt, 8)
    ensures HeaderStartOf(e) == HeaderStartOf(d) && BodyStartOf(e) == BodyStartOf(d)
    ensures forall r: Region :: r != HttpHeader ==> RegionBytes(d, r) == RegionBytes(e, r)
    ensures TextOf(d, Key).Ok? && IsWrappedKey(TextOf(d, Key).value) ==>
      RegionBytes(d, HttpHeader) == RegionBytes(e, HttpHeader)
  {
    RegionBounds(d);
    RegionBounds(e);
    FieldOutside(d, e, lo, hi, VersionAt, 8);
    FieldOutside(d, e, lo, hi, HeaderStartAt, 2);
    FieldOutside(d, e, lo, hi, BodyStartAt, 2);
    SliceOutside(d, e, lo, hi, EtagAt, EtagAt + EtagSize);
    SliceOutside(d, e, lo, hi, VaryAt, VaryAt + VarySize);
    SliceOutside(d, e, lo, hi, VariantAt, VariantAt + VariantSize);
    SliceOutside(d, e, lo, hi, HeaderSize, HeaderStartOf(d));
    if TextOf(d, Key).Ok? && IsWrappedKey(TextOf(d, Key).value) {
      WrappedKeyEnd(d);
      SliceOutside(d, e, lo, hi, HeaderStartOf(d), BodyStartOf(d));
    }
  }

  /** Files that agree outside [lo, hi) read the same integers from fields apart from it. */
  lemma IntegersOutside(d: seq<byte>, e: seq<byte>, lo: nat, hi: nat)
    requires AgreeOutside(d, e, lo, hi) && |d| >= IntBlockSize
    ensures Apart(lo, hi, ValidSecAt, ValidSecAt + 8) ==> FieldAt(d, ValidSecAt, 8) == FieldAt(e, ValidSecAt, 8)
    ensures Apart(lo, hi, VersionAt, VersionAt + 8) ==> FieldAt(d, VersionAt, 1) == FieldAt(e, VersionAt, 1)
    ensures Apart(lo, hi, UpdatingSecAt, IntBlockSize) ==>
      && FieldAt(d, UpdatingSecAt, 8) == FieldAt(e, UpdatingSecAt, 8)
      && FieldAt(d, ErrorSecAt, 8) == FieldAt(e, ErrorSecAt, 8)
      && FieldAt(d, LastModifiedAt, 8) == FieldAt(e, LastModifiedAt, 8)
      && FieldAt(d, DateAt, 8) == FieldAt(e, DateAt, 8)
      && FieldAt(d, Crc32At, 4) == FieldAt(e, Crc32At, 4)
      && FieldAt(d, ValidMsecAt, 2) == FieldAt(e, ValidMsecAt, 2)
      && FieldAt(d, EtagLenAt, 1) == FieldAt(e, EtagLenAt, 1)
  {
    if Apart(lo, hi, ValidSecAt, ValidSecAt + 8) {
      FieldOutside(d, e, lo, hi, ValidSecAt, 8);
    }
    if Apart(lo, hi, VersionAt, VersionAt + 8) {
      FieldOutside(d, e, lo, hi, VersionAt, 1);
    }
    if Apart(lo, hi, UpdatingSecAt, IntBlockSize) {
      FieldOutside(d, e, lo, hi, UpdatingSecAt, 8);
      FieldOutside(d, e, lo, hi, ErrorSecAt, 8);
      FieldOutside(d, e, lo, hi, LastModifiedAt, 8);
      FieldOutside(d, e, lo, hi, DateAt, 8);
      FieldOutside(d, e, lo, hi, Crc32At, 4);
      FieldOutside(d, e, lo, hi, ValidMsecAt, 2);
      FieldOutside(d, e, lo, hi, EtagLenAt, 1);
    }
  }

  /**
   * Patch then decode: the patched file decodes exactly when the original
   * does, with the same error or with valid_sec replaced by the written time
   * (absent if it is 2^64 - 1) and every other header field, the key, the
   * HTTP header text and the padding warning unchanged. The body is the
   * patched file's bytes from body_start on, which is the old body unless
   * body_start points into the first 16 bytes.
   */
  lemma DecodeAfterPatch(d: seq<byte>, validSec: int)
    requires 0 <= validSec < U64Limit
    ensures var p := PatchExpiry(d, validSec).value;
      && (Decode(d).Err? ==> Decode(p) == Decode(d))
      && (Decode(d).Ok? ==> Decode(p).Ok?)
    ensures var p := PatchExpiry(d, validSec).value;
      Decode(d).Ok? ==>
        var f, g := Decode(d).value, Decode(p).value;
        && g.header == f.header.(validSec := TimeOrNone(validSec))
        && g.key == f.key && g.httpHeader == f.httpHeader
        && g.paddingWarning == f.paddingWarning
        && g.body == Slice(p, f.header.bodyStart, |p|)
        && (f.header.bodyStart >= ValidSecAt + 8 ==> g.body == f.body)
  {
    var p := PatchExpiry(d, validSec).value;
    if |d| >= IntBlockSize {
      assert AgreeOutside(d, p, ValidSecAt, ValidSecAt + 8);
      DecodeOutsideWindow(d, p, ValidSecAt, ValidSecAt + 8);
      if Decode(d).Ok? {
        DecodeOkShape(d);
        DecodeOkShape(p);
        IntegersOutside(d, p, ValidSecAt, ValidSecAt + 8);
        SliceOutside(d, p, ValidSecAt, ValidSecAt + 8, PaddingAt, HeaderSize);
        var bs := Decode(d).value.header.bodyStart;
        if bs >= ValidSecAt + 8 {
          SliceOutside(d, p, ValidSecAt, ValidSecAt + 8, bs, |d|);
        }
      }
    }
  }

  /**
   * The struct's vary_len byte (offset 187) is never read: overwriting it
   * leaves a successful decode successful with the same header, key, HTTP
   * header text and padding warning.
   */
  lemma VaryLenByteIgnored(d: seq<byte>, b: byte)
    requires Decode(d).Ok? && |d| > VaryLenAt
    ensures Decode(d[VaryLenAt := b]).Ok?
    ensures var f, g := Decode(d).value, Decode(d[VaryLenAt := b]).value;
      && g.header == f.header && g.key == f.key && g.httpHeader == f.httpHeader
      && g.paddingWarning == f.paddingWarning
      && (f.header.bodyStart > VaryLenAt ==> g.body == f.body)
  {
    var e := d[VaryLenAt := b];
    assert AgreeOutside(d, e, VaryLenAt, VaryLenAt + 1);
    DecodeOutsideWindow(d, e, VaryLenAt, VaryLenAt + 1);
    DecodeOkShape(d);
    DecodeOkShape(e);
    IntegersOutside(d, e, VaryLenAt, VaryLenAt + 1);
    SliceOutside(d, e, VaryLenAt, VaryLenAt + 1, PaddingAt, HeaderSize);
    var bs := Decode(d).value.header.bodyStart;
    if bs > VaryLenAt {
      SliceOutside(d, e, VaryLenAt, VaryLenAt + 1, bs, |d|);
    }
  }

  /**
   * Non-zero padding is not fatal: files that differ only in the padding
   * bytes [332, 336) decode alike, the same error or the same header, key
   * and HTTP header text, whatever the padding warning says.
   */
  lemma PaddingNotFatal(d: seq<byte>, e: seq<byte>)
    requires AgreeOutside(d, e, PaddingAt, HeaderSize)
    ensures Decode(d).Err? ==> Decode(e) == Decode(d)
    ensures Decode(d).Ok? ==> Decode(e).Ok?
    ensures Decode(d).Ok? ==>
      var f, g := Decode(d).value, Decode(e).value;
      && g.header == f.header && g.key == f.key && g.httpHeader == f.httpHeader
      && (f.header.bodyStart >= HeaderSize ==> g.body == f.body)
  {
    if |d| >= IntBlockSize {
      DecodeOutsideWindow(d, e, PaddingAt, HeaderSize);
      if Decode(d).Ok? {
        DecodeOkShape(d);
        DecodeOkShape(e);
        IntegersOutside(d, e, PaddingAt, HeaderSize);
        var bs := Decode(d).value.header.bodyStart;
        if bs >= HeaderSize {
          SliceOutside(d, e, PaddingAt, HeaderSize, bs, |d|);
        }
      }
    }
  }
}
