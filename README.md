# nginx cache file info, in Dafny

A model of `nginx_cache_file_info.py`, a tool that reads and patches the
files nginx 1.14.2 (x86_64) keeps in its proxy cache. Each such file starts
with the 336-byte `ngx_http_file_cache_header_t` struct:

- the integer block `'<QQQQQQIHHHB'` (59 bytes): version, valid_sec,
  updating_sec, error_sec, last_modified, date, crc32, valid_msec,
  header_start, body_start and etag_len;
- etag (128 bytes), vary_len (1), vary (128) and variant (16);
- 4 bytes of padding.

After the header come the cache key wrapped as `"\nKEY: " + key + "\n"`, the
HTTP response header text from `header_start`, and the body from
`body_start`.

The model follows the program as it runs under Python 3.

The project has five modules:

- `Wrappers`: `Option` and `Result`.
- `Bytes`: a `byte` newtype, little-endian integers, Python's clamped slices
  `d[i:j]`, strict ASCII decoding with the position of the first bad byte,
  and `set(bs) == {0}`.
- `Struct`: the part of Python's `struct` the tool uses, for formats made of
  little-endian unsigned codes. It has `calcsize`, `unpack_from` and `pack`,
  and proofs that unpacking what was packed gives the values back and that
  packing what was unpacked gives the bytes back.
- `CacheFileInfo`: the tool itself, in three parts.
  - `string_or_none` is `StringOrNone`. `datetime_or_none` is `TimeOrNone`:
    the optional integer time, `None` for the sentinel 2^64 - 1.
  - `parse_nginx_cache_file` is a declarative decoder, `Decode` (through
    `DecodeHeader`), and two methods that follow the program step by step.
    `ParseHeader` keeps the running offset and unpacks field by field.
    `ParseCacheFile` does the key checks and the slicing. Both methods are
    proved to compute exactly the decoder.
  - `set_expire_nginx_cache_file` is `PatchExpiry` on a byte sequence and
    `SetExpire`, which patches an `array` in place.
- `CacheFileEncode`: the layout nginx writes, as a reference encoder. Decoding
  an encoded well-formed record gives the record back. In the other
  direction, a file laid out that way is the encoding of what it decodes to.

Every exception the parse and the patch raise on their byte-level input is an
error value of the model (the range errors of `datetime.fromtimestamp` are
left out, see below):

| error | Python raises |
|---|---|
| `ShortHeader` | `struct.error`, when fewer than 59 header bytes are present |
| `UnexpectedVersion(v)` | the version exception |
| `NonAscii(region, position)` | `UnicodeDecodeError`; the region is etag, vary, variant, the key or the HTTP header |
| `MalformedKey` | `AssertionError` from the key checks |
| `OutOfRange(v)` | the `struct.error` of the patch |

The padding check prints a warning and does not fail. The model turns it into
the flag `paddingWarning` of the decoded record; the header stage
`DecodeHeader` computes it before the key checks run, so it exists even when
a later step fails.

Where more checks might be expected, the model does what the code does:

- No check that `header_start <= body_start` and no truncated-file error.
  Offsets past the end give empty slices, as Python's slicing does.
- No stripping of the text fields.
- `updating_sec` and `error_sec` are returned raw, not mapped to "none" at
  the sentinel.
- `vary_len` is unpacked without an offset, so it is read from byte 0. It is
  therefore 5 whenever the version is 5, and the struct's own vary_len byte at
  offset 187 is never read. The model keeps this behaviour and proves both
  consequences (`DecodedVaryLen`, `VaryLenByteIgnored`).

## Model

| member | source | states |
|---|---|---|
| Bytes.DecodeAscii | nginx_cache_file_info.py:128 | `bytes.decode('ascii')` succeeds iff every byte is below 0x80. On success it gives one character per byte with the same code. On failure it gives the first non-ASCII position, with everything before it ASCII. |
| Bytes.EncodeDecodedAscii | nginx_cache_file_info.py:24 | ASCII bytes that are decoded and encoded again give the same bytes back. |
| Bytes.DecodeEncodedAscii | nginx_cache_file_info.py:24 | ASCII text that is encoded and decoded again gives the same text back. |
| Bytes.ByteSetIsZero | nginx_cache_file_info.py:22 | `set(bs) == {0}` holds exactly when `bs` is non-empty and all zero. |
| Bytes.LittleEndianOfEncoding | nginx_cache_file_info.py:142 | Reading the little-endian `<Q`/`<I`/`<H`/`<B` bytes that `struct.pack` writes for a value that fits gives the value back. |
| Bytes.EncodingOfLittleEndian | nginx_cache_file_info.py:93 | Any little-endian field that is read and written back at its width gives the same bytes. |
| Struct.UnpackPacked | nginx_cache_file_info.py:142 | Unpacking bytes that hold `struct.pack(fmt, *values)` gives `values` back. |
| Struct.PackUnpacked | nginx_cache_file_info.py:93 | The values `struct.unpack_from(fmt, buf, at)` returns all fit their codes, and packing them with the same format gives back the `calcsize(fmt)` bytes they were read from. |
| Bytes.Slice | nginx_cache_file_info.py:82 | Python's `s[i:j]` for non-negative i and j clamps both ends to the length and is empty when the start is not below the end. It is the ordinary slice when `i <= j <= len(s)`. |
| CacheFileInfo.TimeOrNone | nginx_cache_file_info.py:27-31 | `None` iff the stored time is 2^64 - 1, otherwise the stored time itself. |
| CacheFileInfo.PaddingWarning | nginx_cache_file_info.py:123 | The warning condition is exactly `set(extra) != {0}`. |
| CacheFileInfo.StringOrNone | nginx_cache_file_info.py:21-24 | The result is `None` iff the buffer is non-empty and all zero, so an empty buffer gives `""`. It is an error iff a byte is not ASCII. Otherwise it is text whose ASCII encoding is the whole buffer. |
| CacheFileInfo.IntBlockLayout | nginx_cache_file_info.py:86-94 | `calcsize('<QQQQQQIHHHB')` is 59. The eleven fields start at 0, 8, 16, 24, 32, 40, 48, 52, 54, 56 and 58. |
| CacheFileInfo.UnpackedHeader | nginx_cache_file_info.py:93-108 | Unpacking from `d[:336]` gives the file's little-endian fields at those offsets. The offsetless `'B'` unpack for vary_len gives byte 0. |
| CacheFileInfo.KeyChecks | nginx_cache_file_info.py:129-131 | The two key assertions pass exactly for keys in the wrapper. `key[6:-1]` is then the key between the wrapper. |
| CacheFileInfo.DecodeHeader | nginx_cache_file_info.py:82-124 | `ShortHeader` iff the file has fewer than 59 bytes. `UnexpectedVersion(v)` exactly when the file has 59 bytes and its version v is not 5. It succeeds iff the file has 59 bytes, version 5 and ASCII etag, vary and variant buffers, and then the version is 5. Any other error is `NonAscii` in etag, vary or variant, with every buffer read before it ASCII, at the first bad byte of its region. |
| CacheFileInfo.DecodeBuffers | nginx_cache_file_info.py:103-117 | The three buffers decode iff all are ASCII. Otherwise the error is `NonAscii` in the first of etag, vary, variant that is not ASCII, at its first bad byte. |
| CacheFileInfo.Decode | nginx_cache_file_info.py:78-135 | The errors follow the program's order. `ShortHeader` iff under 59 bytes. `UnexpectedVersion(v)` exactly for a version v other than 5. `NonAscii` only with version 5 and every region read before it (etag, vary, variant, key, HTTP header) ASCII, and for the HTTP header only after a wrapped key, at the first bad byte. `MalformedKey` only with version 5, ASCII buffers and an ASCII key region that lacks its wrapper. Success implies version 5. |
| CacheFileInfo.DecodeRest | nginx_cache_file_info.py:126-135 | The steps after the padding check can only succeed, fail the key assertions, or fail to decode the key or HTTP header region. On success the record keeps the header and the warning flag. A `NonAscii` in the HTTP header comes only after a wrapped key. |
| CacheFileInfo.ParseHeader | nginx_cache_file_info.py:82-124 | The step-by-step header parse computes exactly `DecodeHeader`. It keeps a running offset, unpacks, checks the version, converts the timestamps, reads three `string_or_none` buffers, asserts 4 bytes remain and checks the padding. |
| CacheFileInfo.ParseCacheFile | nginx_cache_file_info.py:78-135 | The step-by-step parse computes exactly `Decode`: header, then the key decode, assertions and `[6:-1]`, then the HTTP header decode and the body slice. |
| CacheFileInfo.DecodeSucceedsIff | nginx_cache_file_info.py:93-132 | Decoding succeeds iff all of these hold: at least 59 bytes; version 5; ASCII etag, vary, variant, key and HTTP header regions; a key region that starts with "\nKEY: " and ends with "\n". Nothing is required of the offsets' order. |
| CacheFileInfo.KeyWrapperOfBytes | nginx_cache_file_info.py:128-130 | ASCII key bytes pass the key checks iff the bytes carry the wrapper. |
| CacheFileInfo.DecodedIntegers | nginx_cache_file_info.py:93-96 | After a successful decode: version is 5, and each integer field is the little-endian value at its offset and below 2^(8·width). |
| CacheFileInfo.DecodedTimestamps | nginx_cache_file_info.py:99-101 | valid_sec, last_modified and date are `None` iff the stored value is 2^64 - 1, and the stored value otherwise. updating_sec and error_sec are raw. |
| CacheFileInfo.DecodedTextFields | nginx_cache_file_info.py:104-116 | etag, vary and variant are `None` iff their clamped buffer is non-empty and all zero. Otherwise each is the ASCII text of the whole buffer, 128/128/16 characters in a full header. |
| CacheFileInfo.DecodedVaryLen | nginx_cache_file_info.py:107-108 | After a successful decode, vary_len is 5. |
| CacheFileInfo.VaryLenOfVersion | nginx_cache_file_info.py:107-108 | A version of 5 in the 8-byte field puts 5 in byte 0, where vary_len is read. |
| CacheFileInfo.VaryLenByteIgnored | nginx_cache_file_info.py:107-109 | Overwriting byte 187 leaves the decoded header, key, HTTP header and padding flag unchanged. The body is also unchanged when it starts after byte 187. |
| CacheFileInfo.DecodedKey | nginx_cache_file_info.py:128-131 | The key region is the ASCII encoding of "\nKEY: " + key + "\n". It is 7 bytes longer than the key, so header_start >= 343. |
| CacheFileInfo.DecodedSlices | nginx_cache_file_info.py:132-133 | The HTTP header encodes `d[header_start:body_start]` and the body is `d[body_start:]`. A start past the end, or body_start <= header_start, gives an empty result. |
| CacheFileInfo.Reassembly | nginx_cache_file_info.py:128-133 | When 336 <= header_start <= body_start <= length, the file is the header, the wrapped key, the HTTP header and the body, in that order. |
| CacheFileInfo.DecodedPadding | nginx_cache_file_info.py:119-124 | A file that decodes holds at least 343 bytes, and its warning is raised iff one of the bytes [332, 336) is not zero. |
| CacheFileInfo.PaddingCheckReached | nginx_cache_file_info.py:119-135 | The padding check runs exactly when the decode succeeds or fails at the key assertions or the key or HTTP header decode. A successful decode reports the flag the header stage computed. |
| CacheFileInfo.PaddingWarningPrinted | nginx_cache_file_info.py:121-124 | Whenever the header stage succeeds, the warning is printed iff bytes [332, 336) are not all present and zero. A file too short to hold them draws it, even if a later step then fails. |
| CacheFileInfo.PaddingNotFatal | nginx_cache_file_info.py:119-124 | Files that differ only in the padding decode to the same error, or to the same header, key, HTTP header and (from body_start >= 336) body. |
| CacheFileInfo.PatchExpiry | nginx_cache_file_info.py:140-142 | The patch fails iff valid_sec is outside [0, 2^64). Otherwise the 8 bytes at offset 8 hold valid_sec. Every other byte is kept. A shorter file grows to 16 bytes, zero-filled up to offset 8. |
| CacheFileInfo.SetExpire | nginx_cache_file_info.py:140-142 | The in-place write succeeds iff valid_sec fits `<Q`. The array then equals `PatchExpiry` of its old contents, and bytes outside [8, 16) are unchanged. On failure nothing changes. |
| CacheFileInfo.DecodeAfterPatch | nginx_cache_file_info.py:138-142 | A patched file decodes exactly when the original does, with the same error. On success the header changes only in valid_sec, which becomes the written time. Key, HTTP header and padding flag are unchanged, and so is the body when body_start >= 16. |
| CacheFileInfo.DecodeOutsideWindow | nginx_cache_file_info.py:78-135 | A change inside the header that avoids the version, offsets, text buffers and key region leaves the error unchanged. On success it keeps the text fields, offsets, key and HTTP header. |
| CacheFileInfo.IntegersOutside | nginx_cache_file_info.py:93 | Files that agree outside a window read the same integer fields where the window does not reach. |
| CacheFileEncode.TextBufferRoundTrip | nginx_cache_file_info.py:21-24 | A text field stored in a fixed buffer (zeros when absent) reads back through `string_or_none` as the same field. |
| CacheFileEncode.TimeRoundTrip | nginx_cache_file_info.py:27-31 | A time stored with the 2^64 - 1 sentinel reads back through `datetime_or_none` as the same optional time. |
| CacheFileEncode.DecodeEncoded | nginx_cache_file_info.py:78-135 | Decoding the bytes of a well-formed record gives the record back, whatever byte 187 holds. |
| CacheFileEncode.DecodedWellFormed | nginx_cache_file_info.py:78-135 | A file that decodes with no padding warning and has header_start <= body_start <= its length decodes to a well-formed record: every field is one the encoder can store, and the key and HTTP header lie end to end from offset 336. |
| CacheFileEncode.EncodeDecoded | nginx_cache_file_info.py:78-135 | A file that decodes with no padding warning and has header_start <= body_start <= its length is exactly the encoding of the record it decodes to, with its own byte at offset 187. Decoding and then encoding the decoded fields gives the file back. |

## Left out

- `main` (nginx_cache_file_info.py:145-175): argument parsing, looping over files, and printing. The model has no I/O.
- `parse_date_string` (nginx_cache_file_info.py:12-18): parsing dates with `strptime` is outside the codec.
- CacheFileInfo.Decode: an error raised after the padding check does not carry the warning the program had already printed. `PaddingCheckReached` and `PaddingWarningPrinted` state when that warning is printed, whatever follows.
- CacheFileInfo.TimeOrNone: times are kept as integer seconds. `datetime.fromtimestamp` is not modelled: no local-time conversion, and no range or overflow errors for huge values.
- CacheFileInfo.PatchExpiry: takes valid_sec as an integer. The `time.mktime(expiredt.timetuple())` conversion is not modelled because it depends on the local time zone.
- Reading the file (`open`/`read`) is modelled as the byte sequence given to `Decode`. `open('r+b')`/`seek`/`write` are modelled as the sequence or array being patched.
- CacheFileInfo.StringOrNone: the model follows Python 3, where iterating over `bytes` gives integers. Under Python 2, which the program also supports (nginx_cache_file_info.py:3 and 122), `bytes` is a `str` and `set(bytes) == {0}` never holds. There `string_or_none` never returns `None`, so an all-zero etag, vary or variant decodes to a string of NUL characters. `StringOrNone` and `DecodedTextFields` state the Python 3 result only.
- The Python 2 comparison with `{'\x00'}` in the padding check has the same outcome as the Python 3 one for bytes, so it is not modelled separately.
- The padding warning goes to stderr in the source. The model returns it as the flag `paddingWarning` in the decoded record.
- The key checks are modelled as always active. Running Python with `-O`, which strips `assert`, is not modelled.
- CacheFileInfo.SetExpire: requires an array of at least 16 bytes, because a Dafny array cannot grow. Growing a shorter file is modelled only by `PatchExpiry`.
- The `fields` list that `parse_nginx_cache_file` fills by index becomes named locals. Those locals are assembled into the `CacheHeader` record that stands for the `NginxCacheHeader` namedtuple.
