/**
 * Byte-level building blocks of the cache file codec, as Python provides
 * them: little-endian integers (`struct`), clamped slices (`d[i:j]`) and
 * strict ASCII decoding (`bytes.decode('ascii')`).
 */
module Bytes {
  import opened Wrappers

  /** One byte of a file, as Python's `bytes` yields it when iterated. */
  newtype byte = b: int | 0 <= b < 256

  /** 256^n, the number of distinct values of an n-byte unsigned integer. */
  function Pow256(n: nat): (r: nat)
    ensures r >= 1
  {
    if n == 0 then 1 else 256 * Pow256(n - 1)
  }

  /** The unsigned little-endian integer held in `s` (struct's `<` byte order). */
  function LittleEndian(s: seq<byte>): (r: nat)
    ensures r < Pow256(|s|)
  {
    if s == [] then 0 else s[0] as nat + 256 * LittleEndian(s[1..])
  }

  /** The n-byte little-endian encoding of v, as `struct.pack` writes it. */
  function ToLittleEndian(v: nat, n: nat): (r: seq<byte>)
    requires v < Pow256(n)
    ensures |r| == n
  {
    if n == 0 then [] else [(v % 256) as byte] + ToLittleEndian(v / 256, n - 1)
  }

  /** Decoding an encoded integer gives the integer back. */
  lemma {:induction false} LittleEndianOfEncoding(v: nat, n: nat)
    requires v < Pow256(n)
    ensures LittleEndian(ToLittleEndian(v, n)) == v
  {
    if n > 0 {
      var low, high := v % 256, v / 256;
      var r := ToLittleEndian(v, n);
      assert r == [low as byte] + ToLittleEndian(high, n - 1);
      assert r[1..] == ToLittleEndian(high, n - 1);
      LittleEndianOfEncoding(high, n - 1);
      assert v == low + 256 * high;
    }
  }

  /** Encoding a decoded integer at the same width gives the bytes back. */
  lemma {:induction false} EncodingOfLittleEndian(s: seq<byte>)
    ensures ToLittleEndian(LittleEndian(s), |s|) == s
  {
    if s != [] {
      EncodingOfLittleEndian(s[1..]);
      var v := LittleEndian(s);
      assert v % 256 == s[0] as nat && v / 256 == LittleEndian(s[1..]);
      assert ((s[0] as nat) % 256) as byte == s[0];
    }
  }

  /**
   * Python's `s[i:j]` for non-negative i and j: both ends are clamped to the
   * length and a slice whose start is not below its end is empty, so it never
   * fails.
   */
  function Slice<T>(s: seq<T>, i: nat, j: nat): (r: seq<T>)
    ensures |r| == if i < j && i < |s| then (if j < |s| then j else |s|) - i else 0
    ensures forall k :: 0 <= k < |r| ==> r[k] == s[i + k]
    ensures i <= j <= |s| ==> r == s[i..j]
  {
    var hi := if j < |s| then j else |s|;
    if i < hi then s[i..hi] else []
  }

  /** Taking a slice of a prefix is taking the slice of the whole, when it ends inside the prefix. */
  lemma SliceOfPrefix<T>(s: seq<T>, n: nat, i: nat, j: nat)
    requires j <= n
    ensures Slice(Slice(s, 0, n), i, j) == Slice(s, i, j)
  {
  }

  /** A window that ends inside a leading slice is the same window of the whole. */
  lemma WindowOfHead<T>(s: seq<T>, n: nat, i: nat, j: nat)
    requires i <= j <= |Slice(s, 0, n)|
    ensures j <= |s| && Slice(s, 0, n)[i..j] == s[i..j]
  {
    var head := Slice(s, 0, n);
    assert forall m :: 0 <= m < j - i ==> head[i..j][m] == head[i + m] == s[i + m];
  }

  predicate IsAsciiByte(b: byte) {
    b < 0x80
  }

  predicate IsAscii(bs: seq<byte>) {
    forall k :: 0 <= k < |bs| ==> IsAsciiByte(bs[k])
  }

  predicate IsAsciiText(s: string) {
    forall k :: 0 <= k < |s| ==> s[k] < 128 as char
  }

  function AsciiChar(b: byte): (c: char)
    requires IsAsciiByte(b)
  {
    (b as int) as char
  }

  /**
   * `bs.decode('ascii')`: the text with one character per byte, or the
   * position of the first byte that is not ASCII (the position Python's
   * UnicodeDecodeError reports).
   */
  function DecodeAscii(bs: seq<byte>): (r: Result<string, nat>)
    ensures r.Ok? <==> IsAscii(bs)
    ensures r.Ok? ==> |r.value| == |bs| && forall k :: 0 <= k < |bs| ==> r.value[k] as int == bs[k] as int
    ensures r.Err? ==> r.error < |bs| && !IsAsciiByte(bs[r.error]) && IsAscii(bs[..r.error])
  {
    if bs == [] then Ok([])
    else if !IsAsciiByte(bs[0]) then Err(0)
    else match DecodeAscii(bs[1..])
      case Ok(s) => Ok([AsciiChar(bs[0])] + s)
      case Err(p) => Err(p + 1)
  }

  /** `s.encode('ascii')` for ASCII text: one byte per character. */
  function EncodeAscii(s: string): (r: seq<byte>)
    requires IsAsciiText(s)
    ensures |r| == |s| && IsAscii(r)
    ensures forall k :: 0 <= k < |s| ==> r[k] as int == s[k] as int
  {
    seq(|s|, k requires 0 <= k < |s| => (s[k] as int) as byte)
  }

  /** Decoding ASCII bytes and encoding the text again gives the bytes back. */
  lemma EncodeDecodedAscii(bs: seq<byte>)
    requires IsAscii(bs)
    ensures DecodeAscii(bs).Ok? && IsAsciiText(DecodeAscii(bs).value)
    ensures EncodeAscii(DecodeAscii(bs).value) == bs
  {
    var s := DecodeAscii(bs).value;
    assert forall k :: 0 <= k < |bs| ==> s[k] as int == bs[k] as int;
  }

  /** Encoding ASCII text and decoding it again gives the text back. */
  lemma DecodeEncodedAscii(s: string)
    requires IsAsciiText(s)
    ensures DecodeAscii(EncodeAscii(s)) == Ok(s)
  {
    var r := DecodeAscii(EncodeAscii(s));
    assert r.Ok?;
    assert forall k :: 0 <= k < |s| ==> r.value[k] as int == s[k] as int;
    assert r.value == s;
  }

  /** Every byte of `bs` is zero. */
  predicate AllZero(bs: seq<byte>) {
    forall k :: 0 <= k < |bs| ==> bs[k] == 0
  }

  /** Python's `set(bs)`: the distinct byte values that occur in `bs`. */
  function ByteSet(bs: seq<byte>): set<byte> {
    set k | 0 <= k < |bs| :: bs[k]
  }

  /** `set(bs) == {0}` holds exactly when `bs` is non-empty and all zero. */
  lemma ByteSetIsZero(bs: seq<byte>)
    ensures ByteSet(bs) == {0} <==> |bs| > 0 && AllZero(bs)
  {
    if |bs| > 0 && AllZero(bs) {
      assert bs[0] in ByteSet(bs);
      assert forall b :: b in ByteSet(bs) ==> b == 0;
    }
    if ByteSet(bs) == {0} {
      assert 0 in ByteSet(bs);
      forall k | 0 <= k < |bs| ensures bs[k] == 0 {
        assert bs[k] in ByteSet(bs);
      }
    }
  }

  function Zeros(n: nat): (r: seq<byte>)
    ensures |r| == n && AllZero(r)
  {
    seq(n, _ => 0)
  }
}
