/**
 * `ImageConversion.fixRLE4Padding`: the loop that walks the writer's BI_RLE4
 * bitmap with a read cursor and appends the repaired bytes to a growing output,
 * proved to compute `Rle4Records.Fix`.
 */
module Rle4Fixer {
  import opened Wrappers
  import opened Rle4Records
  import opened Rle4Properties

  /** The final result, once `out` is written, if the remaining records are `rest`. */
  function Continue(out: seq<Byte>, rest: Option<seq<Record>>): Option<seq<Byte>>
  {
    match rest
    case None => None
    case Some(rs) => Some(out + Corrected(rs))
  }

  lemma ContinueStep(out: seq<Byte>, r: Record, rest: Option<seq<Record>>)
    ensures Continue(out, Prepend([r], rest)) == Continue(out + CorrectedRecord(r), rest)
  {
    if rest.Some? {
      var rs := [r] + rest.value;
      assert rs[0] == r && rs[1..] == rest.value;
      assert Corrected(rs) == CorrectedRecord(r) + Corrected(rest.value);
      assert out + (CorrectedRecord(r) + Corrected(rest.value)) == (out + CorrectedRecord(r)) + Corrected(rest.value);
    }
  }

  /** A record that is a bare token: 2 bytes read, the same 2 written. */
  lemma TokenRecord(s: seq<Byte>)
    requires |s| >= 2 && !IsAbsolute(s[0], s[1])
    ensures ParseRecord(s).Some? && InputLength(s[0], s[1]) == 2
    ensures CorrectedRecord(ParseRecord(s).value) == s[..2]
  {
  }

  /** The bytes the repair writes for an absolute run at the start of `s`. */
  function AbsoluteOutput(s: seq<Byte>): seq<Byte>
    requires |s| >= 2 && IsAbsolute(s[0], s[1]) && |s| >= InputLength(s[0], s[1])
  {
    var n := PayloadCount(s[1]);
    s[..2 + n] +
      match PaddingFixFor(s[1])
      case InsertZero => [0]
      case CopyByte => [s[2 + n]]
      case _ => []
  }

  lemma AbsoluteRecord(s: seq<Byte>)
    requires |s| >= 2 && IsAbsolute(s[0], s[1]) && |s| >= InputLength(s[0], s[1])
    ensures ParseRecord(s).Some?
    ensures CorrectedRecord(ParseRecord(s).value) == AbsoluteOutput(s)
  {
    var rec := ParseRecord(s).value;
    var n := PayloadCount(s[1]);
    assert [rec.b1, rec.b2] + rec.payload == s[..2 + n];
  }

  /**
   * The padding step after the payload of an absolute run of `length` pixels,
   * with the cursor at `pos`: insert a zero byte, skip one byte, copy one byte,
   * or do nothing. `None` is a read past the end of `bb`.
   */
  method CopyPadding(bb: array<Byte>, pos: nat, length: Byte) returns (next: Option<nat>, written: seq<Byte>)
    requires pos <= bb.Length
    ensures next.None? <==> PadBytesRead(PaddingFixFor(length)) == 1 && pos == bb.Length
    ensures next.Some? ==> next.value == pos + PadBytesRead(PaddingFixFor(length)) <= bb.Length
    ensures next.Some? ==> written == match PaddingFixFor(length)
                                      case InsertZero => [0]
                                      case CopyByte => [bb[pos]]
                                      case _ => []
  {
    LengthParities(length);
    var lengthInBytes := LengthInBytes(length);
    var wrongByteLength := length / 2;
    next, written := Some(pos), [];
    if wrongByteLength % 2 == 0 && JavaRem2(lengthInBytes) == 1 {
      // missing padding byte
      written := [0];
    } else if wrongByteLength % 2 == 1 && JavaRem2(lengthInBytes) == 0 {
      // spurious padding byte
      if pos >= bb.Length {
        return None, [];
      }
      next := Some(pos + 1);
    } else if JavaRem2(lengthInBytes) == 1 {
      // legitimate padding byte
      if pos >= bb.Length {
        return None, [];
      }
      written := [bb[pos]];
      next := Some(pos + 1);
    }
  }

  /** Where the cursor stands after one record, and what was written for it. */
  datatype Step = Step(next: nat, written: seq<Byte>)

  /**
   * The absolute run whose token is at `start`: copies the token and the
   * `lengthInBytes` payload bytes, then the padding step. `None` is a read past
   * the end of `bb`.
   */
  method CopyAbsolute(bb: array<Byte>, start: nat) returns (step: Option<Step>)
    requires start + 1 < bb.Length && IsAbsolute(bb[start], bb[start + 1])
    ensures step.None? <==> bb.Length - start < InputLength(bb[start], bb[start + 1])
    ensures step.Some? ==>
      && step.value.next == start + InputLength(bb[start], bb[start + 1])
      && step.value.written == AbsoluteOutput(bb[start..])
  {
    var length := bb[start + 1];
    var out: seq<Byte> := [bb[start], length];
    var pos := start + 2;
    ghost var n := PayloadCount(length);
    LengthParities(length);
    var lengthInBytes := LengthInBytes(length);
    var i := 0;
    while i < lengthInBytes
      invariant 0 <= i <= n
      invariant pos == start + 2 + i <= bb.Length
      invariant out == bb[start..pos]
    {
      if pos >= bb.Length {
        return None;
      }
      out := out + [bb[pos]];
      pos := pos + 1;
      i := i + 1;
    }
    assert pos == start + 2 + n;
    var next, padOut := CopyPadding(bb, pos, length);
    if next.None? {
      return None;
    }
    ghost var s := bb[start..];
    assert s[..2 + n] == out;
    assert PaddingFixFor(length) == CopyByte ==> s[2 + n] == bb[pos];
    return Some(Step(next.value, out + padOut));
  }

  /**
   * One iteration of the token loop of `fixRLE4Padding`, with the cursor at
   * `start`: reads the token, copies it, and for an absolute run copies the
   * payload and inserts, drops or copies one padding byte. `None` is a read past
   * the end of `bb`.
   */
  method CopyRecord(bb: array<Byte>, start: nat) returns (step: Option<Step>)
    requires start < bb.Length
    ensures step.None? <==> Truncated(bb[start..])
    ensures step.Some? ==>
      && ParseRecord(bb[start..]).Some?
      && step.value.next == start + InputLength(bb[start], bb[start + 1])
      && step.value.written == CorrectedRecord(ParseRecord(bb[start..]).value)
  {
    var b1 := bb[start];
    if start + 1 >= bb.Length {
      return None;
    }
    var b2 := bb[start + 1];
    if b1 == 0 && b2 > 2 {
      step := CopyAbsolute(bb, start);
      if step.Some? {
        AbsoluteRecord(bb[start..]);
      }
    } else {
      TokenRecord(bb[start..]);
      assert bb[start..][..2] == [b1, b2];
      step := Some(Step(start + 2, [b1, b2]));
    }
  }

  /**
   * `fixRLE4Padding`: copies the 0x76-byte header, then repairs record after
   * record until the input is exhausted. A read past the end of `bb` is the
   * `BufferUnderflowException` of `ByteBuffer.get`: no output at all.
   */
  method FixRle4Padding(bb: array<Byte>) returns (r: Option<seq<Byte>>)
    ensures r == Fix(bb[..])
  {
    var header := CopyHeader(bb);
    if header.None? {
      return None;
    }
    var out := header.value;
    var pos := HeaderSize;
    assert bb[..][pos..] == bb[pos..];
    while pos < bb.Length
      invariant HeaderSize <= pos <= bb.Length
      invariant Fix(bb[..]) == Continue(out, ParseBody(bb[pos..]))
      decreases bb.Length - pos
    {
      var step := CopyRecord(bb, pos);
      if step.None? {
        TruncatedStops(bb[pos..]);
        return None;
      }
      ContinueAfter(bb[..], out, pos, step.value);
      assert bb[..][pos..] == bb[pos..] && bb[..][step.value.next..] == bb[step.value.next..];
      out := out + step.value.written;
      pos := step.value.next;
    }
    assert Corrected([]) == [] && out + [] == out;
    return Some(out);
  }

  /** The header loop: `HeaderSize` bytes copied one by one, or a read past the end. */
  method CopyHeader(bb: array<Byte>) returns (header: Option<seq<Byte>>)
    ensures header.None? <==> bb.Length < HeaderSize
    ensures header.Some? ==> header.value == bb[..HeaderSize]
  {
    var out: seq<Byte> := [];
    var pos := 0;
    while pos < HeaderSize
      invariant 0 <= pos <= HeaderSize && pos <= bb.Length
      invariant out == bb[..pos]
    {
      if pos >= bb.Length {
        return None;
      }
      out := out + [bb[pos]];
      pos := pos + 1;
    }
    return Some(out);
  }

  /** A body that starts inside a truncated record has no parse. */
  lemma TruncatedStops(t: seq<Byte>)
    requires t != [] && Truncated(t)
    ensures ParseBody(t).None?
  {
  }

  /** After one record the result is the same, with its repair appended to the output. */
  lemma ContinueAfter(s: seq<Byte>, out: seq<Byte>, pos: nat, step: Step)
    requires pos < |s| && ParseRecord(s[pos..]).Some?
    requires step.next == pos + InputLength(s[pos], s[pos + 1])
    requires step.written == CorrectedRecord(ParseRecord(s[pos..]).value)
    ensures step.next <= |s|
    ensures Continue(out, ParseBody(s[pos..])) == Continue(out + step.written, ParseBody(s[step.next..]))
  {
    var rec := ParseRecord(s[pos..]).value;
    ParseBodyStep(s[pos..], rec);
    assert s[pos..][InputLength(rec.b1, rec.b2)..] == s[step.next..];
    ContinueStep(out, rec, ParseBody(s[step.next..]));
  }
}
