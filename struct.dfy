/**
 * The part of Python's `struct` module the codec relies on, for formats made
 * only of little-endian unsigned integer codes (`<` followed by Q, I, H, B).
 * A format is written as the list of its field widths in bytes; the fields
 * of a `<` format are packed with no alignment padding.
 */
module Struct {
  import opened Bytes

  /** Where field k of a format starts: the total width of the fields before it. */
  function Offset(widths: seq<nat>, k: nat): nat
    requires k <= |widths|
  {
    if k == 0 then 0 else Offset(widths, k - 1) + widths[k - 1]
  }

  /** `struct.calcsize`: the number of bytes a format occupies. */
  function CalcSize(widths: seq<nat>): nat {
    Offset(widths, |widths|)
  }

  /** Later fields start no earlier. */
  lemma {:induction false} OffsetMonotone(widths: seq<nat>, i: nat, j: nat)
    requires i <= j <= |widths|
    ensures Offset(widths, i) <= Offset(widths, j)
    decreases j
  {
    if i < j {
      OffsetMonotone(widths, i, j - 1);
    }
  }

  /** Every field ends within the format. */
  lemma FieldEnd(widths: seq<nat>, k: nat)
    requires k < |widths|
    ensures Offset(widths, k) + widths[k] <= CalcSize(widths)
  {
    OffsetMonotone(widths, k + 1, |widths|);
  }

  /** The integer field k holds when the format is laid over `buf` from `at`. */
  function Field(widths: seq<nat>, buf: seq<byte>, at: nat, k: nat): (r: nat)
    requires at + CalcSize(widths) <= |buf| && k < |widths|
    ensures r < Pow256(widths[k])
  {
    FieldEnd(widths, k);
    var start := at + Offset(widths, k);
    LittleEndian(buf[start..start + widths[k]])
  }

  /** `struct.unpack_from(fmt, buf, at)`: one integer per field of the format. */
  function UnpackFrom(widths: seq<nat>, buf: seq<byte>, at: nat): (r: seq<nat>)
    requires at + CalcSize(widths) <= |buf|
    ensures |r| == |widths|
  {
    seq(|widths|, k requires 0 <= k < |widths| => Field(widths, buf, at, k))
  }

  /**
   * Field k of `struct.unpack_from(fmt, buf, at)` is the little-endian
   * integer held in the bytes that start after the widths of the fields
   * before it, and it fits in its width.
   */
  lemma UnpackFromField(widths: seq<nat>, buf: seq<byte>, at: nat, k: nat)
    requires at + CalcSize(widths) <= |buf| && k < |widths|
    ensures at + Offset(widths, k) + widths[k] <= |buf|
    ensures var start := at + Offset(widths, k);
      UnpackFrom(widths, buf, at)[k] == LittleEndian(buf[start..start + widths[k]])
    ensures UnpackFrom(widths, buf, at)[k] < Pow256(widths[k])
  {
    FieldEnd(widths, k);
  }

  /** Unpacking from a leading slice of a buffer reads the buffer's own bytes. */
  lemma UnpackFromHead(widths: seq<nat>, buf: seq<byte>, n: nat, k: nat)
    requires CalcSize(widths) <= |Slice(buf, 0, n)| && k < |widths|
    ensures Offset(widths, k) + widths[k] <= |buf|
    ensures UnpackFrom(widths, Slice(buf, 0, n), 0)[k]
      == LittleEndian(buf[Offset(widths, k)..Offset(widths, k) + widths[k]])
  {
    FieldEnd(widths, k);
    WindowOfHead(buf, n, Offset(widths, k), Offset(widths, k) + widths[k]);
  }

  /** Every value fits the width the format gives it. */
  predicate Fits(widths: seq<nat>, values: seq<nat>) {
    |values| == |widths| && forall k :: 0 <= k < |widths| ==> values[k] < Pow256(widths[k])
  }

  /** The encodings of the first n fields, in order. */
  function PackFirst(widths: seq<nat>, values: seq<nat>, n: nat): (r: seq<byte>)
    requires Fits(widths, values) && n <= |widths|
    ensures |r| == Offset(widths, n)
  {
    if n == 0 then []
    else PackFirst(widths, values, n - 1) + ToLittleEndian(values[n - 1], widths[n - 1])
  }

  /** `struct.pack(fmt, *values)`: the fields' little-endian encodings, in order. */
  function Pack(widths: seq<nat>, values: seq<nat>): (r: seq<byte>)
    requires Fits(widths, values)
    ensures |r| == CalcSize(widths)
  {
    PackFirst(widths, values, |widths|)
  }

  /** A concatenation splits back into its two parts. */
  lemma AppendParts<T>(a: seq<T>, b: seq<T>)
    ensures (a + b)[..|a|] == a && (a + b)[|a|..] == b
  {
  }

  /** A window inside the first part of a concatenation is a window of that part. */
  lemma WindowOfFront<T>(a: seq<T>, b: seq<T>, i: nat, j: nat)
    requires i <= j <= |a|
    ensures (a + b)[i..j] == a[i..j]
  {
  }

  /** A window of a window is a window of the whole. */
  lemma WindowOfWindow<T>(s: seq<T>, at: nat, size: nat, i: nat, j: nat)
    requires at + size <= |s| && i <= j <= size
    ensures s[at..at + size][i..j] == s[at + i..at + j]
  {
    var w := s[at..at + size];
    assert forall m :: 0 <= m < j - i ==> w[i..j][m] == w[i + m] == s[at + i + m];
  }

  /** Field k of a packed buffer holds the encoding of value k. */
  lemma {:induction false} PackedField(widths: seq<nat>, values: seq<nat>, n: nat, k: nat)
    requires Fits(widths, values) && k < n <= |widths|
    ensures Offset(widths, k) + widths[k] <= Offset(widths, n)
    ensures PackFirst(widths, values, n)[Offset(widths, k)..Offset(widths, k) + widths[k]]
      == ToLittleEndian(values[k], widths[k])
    decreases n
  {
    var front := PackFirst(widths, values, n - 1);
    var last := ToLittleEndian(values[n - 1], widths[n - 1]);
    assert PackFirst(widths, values, n) == front + last;
    if k == n - 1 {
      AppendParts(front, last);
    } else {
      PackedField(widths, values, n - 1, k);
      WindowOfFront(front, last, Offset(widths, k), Offset(widths, k) + widths[k]);
    }
  }

  /** Unpacking what was packed with the same format gives the values back. */
  lemma UnpackPacked(widths: seq<nat>, values: seq<nat>, buf: seq<byte>, at: nat)
    requires Fits(widths, values)
    requires at + CalcSize(widths) <= |buf| && buf[at..at + CalcSize(widths)] == Pack(widths, values)
    ensures UnpackFrom(widths, buf, at) == values
  {
    forall k | 0 <= k < |widths|
      ensures UnpackFrom(widths, buf, at)[k] == values[k]
    {
      var start := Offset(widths, k);
      PackedField(widths, values, |widths|, k);
      WindowOfWindow(buf, at, CalcSize(widths), start, start + widths[k]);
      LittleEndianOfEncoding(values[k], widths[k]);
    }
  }

  /** Every unpacked integer fits the width its code gives it. */
  lemma UnpackedFits(widths: seq<nat>, buf: seq<byte>, at: nat)
    requires at + CalcSize(widths) <= |buf|
    ensures Fits(widths, UnpackFrom(widths, buf, at))
  {
    var values := UnpackFrom(widths, buf, at);
    forall k | 0 <= k < |widths|
      ensures values[k] < Pow256(widths[k])
    {
      assert values[k] == Field(widths, buf, at, k);
    }
  }

  /** Two adjacent windows make up the window that spans both. */
  lemma AdjacentWindows<T>(s: seq<T>, i: nat, j: nat, k: nat)
    requires i <= j <= k <= |s|
    ensures s[i..j] + s[j..k] == s[i..k]
  {
  }

  /** Appending the encoding of the next field extends a packed prefix of a buffer by that field. */
  lemma PackFirstStep(widths: seq<nat>, values: seq<nat>, buf: seq<byte>, at: nat, n: nat)
    requires Fits(widths, values) && 0 < n <= |widths| && at + Offset(widths, n) <= |buf|
    requires PackFirst(widths, values, n - 1) == buf[at..at + Offset(widths, n - 1)]
    requires values[n - 1] == LittleEndian(buf[at + Offset(widths, n - 1)..at + Offset(widths, n)])
    ensures PackFirst(widths, values, n) == buf[at..at + Offset(widths, n)]
  {
    var start, end := at + Offset(widths, n - 1), at + Offset(widths, n);
    var field := buf[start..end];
    EncodingOfLittleEndian(field);
    assert ToLittleEndian(values[n - 1], widths[n - 1]) == field;
    AdjacentWindows(buf, at, start, end);
  }

  /** The first n fields of a buffer, unpacked and packed again, are the buffer's own bytes. */
  lemma {:induction false} PackFirstOfFields(widths: seq<nat>, values: seq<nat>, buf: seq<byte>, at: nat, n: nat)
    requires at + CalcSize(widths) <= |buf| && n <= |widths| && Fits(widths, values)
    requires forall k {:trigger Field(widths, buf, at, k)} :: 0 <= k < |widths| ==> values[k] == Field(widths, buf, at, k)
    ensures at + Offset(widths, n) <= |buf|
    ensures PackFirst(widths, values, n) == buf[at..at + Offset(widths, n)]
    decreases n
  {
    OffsetMonotone(widths, n, |widths|);
    if n > 0 {
      PackFirstOfFields(widths, values, buf, at, n - 1);
      assert values[n - 1] == Field(widths, buf, at, n - 1);
      PackFirstStep(widths, values, buf, at, n);
    }
  }

  /** Packing what was unpacked with the same format gives the bytes back. */
  lemma PackUnpacked(widths: seq<nat>, buf: seq<byte>, at: nat)
    requires at + CalcSize(widths) <= |buf|
    ensures Fits(widths, UnpackFrom(widths, buf, at))
    ensures Pack(widths, UnpackFrom(widths, buf, at)) == buf[at..at + CalcSize(widths)]
  {
    var values := UnpackFrom(widths, buf, at);
    UnpackedFits(widths, buf, at);
    assert forall k :: 0 <= k < |widths| ==> values[k] == Field(widths, buf, at, k);
    PackFirstOfFields(widths, values, buf, at, |widths|);
  }
}
