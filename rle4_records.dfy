/**
 * The record structure of a BI_RLE4 bitmap body and the padding repair that
 * `ImageConversion.fixRLE4Padding` applies to it.
 *
 * A BI_RLE4 body is a sequence of records, each opening with a 2-byte token
 * `(b1, b2)`. A token with `b1 != 0` is an encoded run, a token `00 00`, `00 01`
 * or `00 02` an escape; both are complete in 2 bytes. A token `00 L` with `L >= 3`
 * opens an absolute run of `L` 4-bit pixels packed two per byte, which the
 * Windows bitmap format pads so that the whole record has an even length.
 *
 * The BMP writer upstream of the repair pads absolute runs by `L / 2` (rounded
 * down) instead of by the number of payload bytes: its records are described
 * here by `Encoded`, the repaired records by `Corrected`, and the repair by `Fix`,
 * which is `Corrected` after `ParseBody` behind a verbatim header.
 */
module Rle4Records {
  import opened Wrappers

  /** A byte as `b & 0xff` reads it: Java's signed bytes are compared through that mask. */
  type Byte = x: int | 0 <= x < 256

  /** BITMAPFILEHEADER (14 bytes), BITMAPINFOHEADER (40 bytes) and a 16-entry palette (64 bytes). */
  const HeaderSize: nat := 0x76

  /** Java's narrowing conversion `(byte) x`: the low 8 bits as a two's-complement value. */
  function ToJavaByte(x: int): (b: int)
    ensures -128 <= b < 128
    ensures (x - b) % 256 == 0
  {
    if x % 256 < 128 then x % 256 else x % 256 - 256
  }

  /** Java's `a % 2`: the remainder takes the sign of `a`. */
  function JavaRem2(a: int): (r: int)
    ensures a >= 0 ==> r == a % 2
    ensures a < 0 ==> (r == 0 || r == -1) && (a - r) % 2 == 0
  {
    if a >= 0 then a % 2 else -((-a) % 2)
  }

  /** `lengthInBytes` of an absolute run of `length` pixels: `(byte) Math.ceil(length / 2.0)`. */
  function LengthInBytes(length: Byte): int
  {
    ToJavaByte((length + 1) / 2)
  }

  /**
   * The number of payload bytes the repair copies after an absolute-run token:
   * the loop `i < lengthInBytes` runs no time when the cast made the count negative.
   */
  function PayloadCount(length: Byte): (n: nat)
    ensures length < 255 ==> n == (length + 1) / 2
    ensures length == 255 ==> n == 0
  {
    var c := LengthInBytes(length);
    if c < 0 then 0 else c
  }

  /**
   * The parities the repair compares, by `length % 4`: `length / 2` and
   * `lengthInBytes` (which the cast turns negative for `length == 255`).
   */
  lemma LengthParities(length: Byte)
    ensures length < 255 ==> LengthInBytes(length) == (length + 1) / 2
    ensures length == 255 ==> LengthInBytes(length) == -128
    ensures length % 4 == 0 ==> (length / 2) % 2 == 0 && JavaRem2(LengthInBytes(length)) == 0
    ensures length % 4 == 1 ==> (length / 2) % 2 == 0 && JavaRem2(LengthInBytes(length)) == 1
    ensures length % 4 == 2 ==> (length / 2) % 2 == 1 && JavaRem2(LengthInBytes(length)) == 1
    ensures length % 4 == 3 ==> (length / 2) % 2 == 1 && JavaRem2(LengthInBytes(length)) == 0
  {
    var q, m := length / 4, length % 4;
    assert length == 4 * q + m;
    assert length / 2 == 2 * q + m / 2;
    assert (length + 1) / 2 == 2 * q + (m + 1) / 2;
    if length == 255 {
      assert ToJavaByte(128) == -128;
    } else {
      assert ToJavaByte((length + 1) / 2) == (length + 1) / 2;
    }
  }

  /** What the repair does after the payload of an absolute run. */
  datatype PaddingFix =
    | InsertZero  // write a 0x00 the input does not have
    | DropByte    // read one input byte and do not write it
    | CopyByte    // read one input byte and write it
    | NoPadding   // neither read nor write

  /**
   * The branch taken after the payload of an absolute run of `length` pixels,
   * comparing the parity of `length / 2` with that of `lengthInBytes`.
   */
  function PaddingFixFor(length: Byte): (f: PaddingFix)
    ensures f == InsertZero <==> length % 4 == 1
    ensures f == DropByte <==> length % 4 == 3
    ensures f == CopyByte <==> length % 4 == 2
    ensures f == NoPadding <==> length % 4 == 0
  {
    LengthParities(length);
    var lengthInBytes := LengthInBytes(length);
    var wrongByteLength := length / 2;
    if wrongByteLength % 2 == 0 && JavaRem2(lengthInBytes) == 1 then InsertZero
    else if wrongByteLength % 2 == 1 && JavaRem2(lengthInBytes) == 0 then DropByte
    else if JavaRem2(lengthInBytes) == 1 then CopyByte
    else NoPadding
  }

  /** Input bytes the repair consumes after the payload. */
  function PadBytesRead(f: PaddingFix): nat
  {
    if f == DropByte || f == CopyByte then 1 else 0
  }

  /** Output bytes the repair writes after the payload. */
  function PadBytesWritten(f: PaddingFix): nat
  {
    if f == InsertZero || f == CopyByte then 1 else 0
  }

  /**
   * The repair reads the padding the writer emitted, one byte exactly when `L / 2`
   * is odd, and writes the padding the format asks for, one byte exactly when the
   * payload has an odd number of bytes.
   */
  lemma PaddingRules(length: Byte)
    requires 3 <= length < 255
    ensures PadBytesRead(PaddingFixFor(length)) == (length / 2) % 2
    ensures PadBytesWritten(PaddingFixFor(length)) == PayloadCount(length) % 2
  {
  }

  /** The token `(b1, b2)` opens an absolute run. */
  predicate IsAbsolute(b1: Byte, b2: Byte)
  {
    b1 == 0 && b2 > 2
  }

  /** One record of the body: token, payload of an absolute run, padding as found in the input. */
  datatype Record = Record(b1: Byte, b2: Byte, payload: seq<Byte>, pad: seq<Byte>)

  /** The number of input bytes the repair consumes for the record opening with `(b1, b2)`. */
  function InputLength(b1: Byte, b2: Byte): nat
  {
    if IsAbsolute(b1, b2) then 2 + PayloadCount(b2) + PadBytesRead(PaddingFixFor(b2)) else 2
  }

  /** The payload and padding of `r` have the lengths the repair reads for its token. */
  ghost predicate WellFormed(r: Record)
  {
    && |r.payload| == (if IsAbsolute(r.b1, r.b2) then PayloadCount(r.b2) else 0)
    && |r.pad| == (if IsAbsolute(r.b1, r.b2) then PadBytesRead(PaddingFixFor(r.b2)) else 0)
  }

  ghost predicate AllWellFormed(rs: seq<Record>)
  {
    forall i :: 0 <= i < |rs| ==> WellFormed(rs[i])
  }

  /** The bytes of `r` as the writer laid them out. */
  function EncodedRecord(r: Record): seq<Byte>
  {
    [r.b1, r.b2] + r.payload + r.pad
  }

  function Encoded(rs: seq<Record>): seq<Byte>
    decreases |rs|
  {
    if rs == [] then [] else EncodedRecord(rs[0]) + Encoded(rs[1..])
  }

  /** The padding the repair writes for `r`. */
  function CorrectedPad(r: Record): seq<Byte>
  {
    if !IsAbsolute(r.b1, r.b2) then []
    else match PaddingFixFor(r.b2)
      case InsertZero => [0]
      case CopyByte => r.pad
      case _ => []
  }

  /**
   * The bytes the repair writes for `r`: token and payload unchanged, then the
   * corrected padding. Every repaired record has an even length, and it is one
   * byte longer than the writer's for `L % 4 == 1` and one byte shorter for
   * `L % 4 == 3`.
   */
  function CorrectedRecord(r: Record): (out: seq<Byte>)
    ensures WellFormed(r) ==> |out| % 2 == 0
    ensures WellFormed(r) ==> |out| == |EncodedRecord(r)| + Inserted(r) - Dropped(r)
  {
    CorrectedPadLength(r);
    [r.b1, r.b2] + r.payload + CorrectedPad(r)
  }

  /** The repaired padding completes the payload to an even length; the writer's padding does not. */
  lemma CorrectedPadLength(r: Record)
    ensures WellFormed(r) ==> (|r.payload| + |CorrectedPad(r)|) % 2 == 0
    ensures WellFormed(r) ==> |CorrectedPad(r)| == |r.pad| + Inserted(r) - Dropped(r)
  {
    if WellFormed(r) && IsAbsolute(r.b1, r.b2) {
      LengthParities(r.b2);
      match PaddingFixFor(r.b2)
      case InsertZero =>
      case DropByte =>
      case CopyByte =>
      case NoPadding =>
    }
  }

  function Corrected(rs: seq<Record>): seq<Byte>
    decreases |rs|
  {
    if rs == [] then [] else CorrectedRecord(rs[0]) + Corrected(rs[1..])
  }

  /** 1 when the repair inserts a byte into `r` (an absolute run with `L % 4 == 1`). */
  function Inserted(r: Record): nat
  {
    if IsAbsolute(r.b1, r.b2) && r.b2 % 4 == 1 then 1 else 0
  }

  /** 1 when the repair drops a byte of `r` (an absolute run with `L % 4 == 3`). */
  function Dropped(r: Record): nat
  {
    if IsAbsolute(r.b1, r.b2) && r.b2 % 4 == 3 then 1 else 0
  }

  function TotalInserted(rs: seq<Record>): nat
    decreases |rs|
  {
    if rs == [] then 0 else Inserted(rs[0]) + TotalInserted(rs[1..])
  }

  function TotalDropped(rs: seq<Record>): nat
    decreases |rs|
  {
    if rs == [] then 0 else Dropped(rs[0]) + TotalDropped(rs[1..])
  }

  /**
   * `t` ends inside a record: a lone byte, a payload running past the end, or a
   * padding byte that the repair must copy or skip and that is absent.
   */
  predicate Truncated(t: seq<Byte>)
  {
    || |t| == 1
    || (|t| >= 2 && IsAbsolute(t[0], t[1]) && |t| < 2 + PayloadCount(t[1]))
    || (|t| >= 2 && IsAbsolute(t[0], t[1]) && |t| == 2 + PayloadCount(t[1])
        && PadBytesRead(PaddingFixFor(t[1])) == 1)
  }

  /** The record at the start of `s`, or `None` when `s` ends inside it. */
  function ParseRecord(s: seq<Byte>): (r: Option<Record>)
    requires |s| > 0
    ensures r.None? <==> Truncated(s)
    ensures r.Some? ==> WellFormed(r.value) && r.value.b1 == s[0] && r.value.b2 == s[1]
    ensures r.Some? ==> |s| >= InputLength(s[0], s[1]) && EncodedRecord(r.value) == s[..InputLength(s[0], s[1])]
  {
    if |s| < 2 then None
    else
      var n := if IsAbsolute(s[0], s[1]) then PayloadCount(s[1]) else 0;
      var p := if IsAbsolute(s[0], s[1]) then PadBytesRead(PaddingFixFor(s[1])) else 0;
      if |s| < 2 + n + p then None
      else
        var r := Record(s[0], s[1], s[2..2 + n], s[2 + n..2 + n + p]);
        assert EncodedRecord(r) == s[..2 + n + p];
        Some(r)
  }

  /** `rs` in front of the records of `rest`, when there are any. */
  function Prepend(rs: seq<Record>, rest: Option<seq<Record>>): Option<seq<Record>>
  {
    match rest
    case None => None
    case Some(more) => Some(rs + more)
  }

  /** The records of a whole body, or `None` when it ends inside a record. */
  function ParseBody(s: seq<Byte>): Option<seq<Record>>
    decreases |s|
  {
    if s == [] then Some([])
    else match ParseRecord(s)
      case None => None
      case Some(r) => Prepend([r], ParseBody(s[InputLength(r.b1, r.b2)..]))
  }

  /**
   * The repaired bitmap: the first `HeaderSize` bytes verbatim, then every record
   * of the body repaired; `None` where the Java code runs out of input.
   */
  function Fix(s: seq<Byte>): (r: Option<seq<Byte>>)
    ensures |s| < HeaderSize ==> r.None?
    ensures r.Some? ==> |r.value| >= HeaderSize && r.value[..HeaderSize] == s[..HeaderSize]
  {
    if |s| < HeaderSize then None
    else match ParseBody(s[HeaderSize..])
      case None => None
      case Some(rs) => Some(s[..HeaderSize] + Corrected(rs))
  }
}
