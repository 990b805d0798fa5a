/**
 * The repair on single absolute-mode records, one per padding case, after any
 * 0x76-byte header, and the consequence that the repair is not idempotent.
 */
module Rle4Examples {
  import opened Wrappers
  import opened Rle4Records
  import opened Rle4Properties

  /** A bitmap holding one well-formed record repairs to the header and that record's repair. */
  lemma OneRecordFix(h: seq<Byte>, r: Record)
    requires |h| == HeaderSize && WellFormed(r)
    ensures Fix(h + EncodedRecord(r)) == Some(h + CorrectedRecord(r))
  {
    assert AllWellFormed([r]);
    assert Encoded([r]) == EncodedRecord(r) by {
      assert [r][1..] == [];
    }
    assert Corrected([r]) == CorrectedRecord(r) by {
      assert [r][1..] == [];
    }
    EncodedRoundTrip([r]);
    var s := h + EncodedRecord(r);
    assert s[HeaderSize..] == EncodedRecord(r) && s[..HeaderSize] == h;
  }

  /** Five pixels take three bytes; the writer pads nothing, the repair appends one zero byte. */
  lemma FiveNibblesGainPad(h: seq<Byte>)
    requires |h| == HeaderSize
    ensures Fix(h + [0, 5, 0x12, 0x34, 0x50]) == Some(h + [0, 5, 0x12, 0x34, 0x50, 0])
  {
    var r := Record(0, 5, [0x12, 0x34, 0x50], []);
    assert WellFormed(r) by {
      assert PaddingFixFor(5) == InsertZero && PayloadCount(5) == 3;
    }
    assert CorrectedRecord(r) == [0, 5, 0x12, 0x34, 0x50, 0] by {
      assert PaddingFixFor(5) == InsertZero;
      assert CorrectedPad(r) == [0];
    }
    assert EncodedRecord(r) == [0, 5, 0x12, 0x34, 0x50];
    OneRecordFix(h, r);
  }

  /** Three pixels take two bytes; the writer's padding byte is dropped. */
  lemma ThreeNibblesLosePad(h: seq<Byte>)
    requires |h| == HeaderSize
    ensures Fix(h + [0, 3, 0x12, 0x30, 0]) == Some(h + [0, 3, 0x12, 0x30])
  {
    var r := Record(0, 3, [0x12, 0x30], [0]);
    assert WellFormed(r) by {
      assert PaddingFixFor(3) == DropByte && PayloadCount(3) == 2;
    }
    assert CorrectedRecord(r) == [0, 3, 0x12, 0x30] by {
      assert PaddingFixFor(3) == DropByte;
      assert CorrectedPad(r) == [];
    }
    assert EncodedRecord(r) == [0, 3, 0x12, 0x30, 0];
    OneRecordFix(h, r);
  }

  /** Six pixels take three bytes and one correct padding byte, copied as is. */
  lemma SixNibblesKeepPad(h: seq<Byte>)
    requires |h| == HeaderSize
    ensures Fix(h + [0, 6, 0x12, 0x34, 0x56, 0]) == Some(h + [0, 6, 0x12, 0x34, 0x56, 0])
  {
    var r := Record(0, 6, [0x12, 0x34, 0x56], [0]);
    assert WellFormed(r) by {
      assert PaddingFixFor(6) == CopyByte && PayloadCount(6) == 3;
    }
    assert CorrectedRecord(r) == [0, 6, 0x12, 0x34, 0x56, 0] by {
      assert PaddingFixFor(6) == CopyByte;
      assert CorrectedPad(r) == [0];
    }
    assert EncodedRecord(r) == [0, 6, 0x12, 0x34, 0x56, 0];
    OneRecordFix(h, r);
  }

  /**
   * A run of 255 pixels: the byte count wraps to -128, so no payload byte is
   * copied, and one byte after the record header is dropped.
   */
  lemma FullRunCopiesNoPayload(h: seq<Byte>)
    requires |h| == HeaderSize
    ensures Fix(h + [0, 255, 0x12]) == Some(h + [0, 255])
  {
    var r := Record(0, 255, [], [0x12]);
    assert WellFormed(r) by {
      assert PaddingFixFor(255) == DropByte && PayloadCount(255) == 0;
    }
    assert CorrectedRecord(r) == [0, 255] by {
      assert PaddingFixFor(255) == DropByte;
      assert CorrectedPad(r) == [];
    }
    assert EncodedRecord(r) == [0, 255, 0x12];
    OneRecordFix(h, r);
  }

  /**
   * Why format conformance leaves out runs of 255 pixels: the repaired record
   * `00 FF` lacks the 128 pixel bytes the format expects after it.
   */
  lemma FullRunBreaksFormat(h: seq<Byte>)
    requires |h| == HeaderSize
    ensures Fix(h + [0, 255, 0x12]).Some?
    ensures ParseFormat(Fix(h + [0, 255, 0x12]).value[HeaderSize..]) == None
  {
    FullRunCopiesNoPayload(h);
    assert (h + [0, 255])[HeaderSize..] == [0, 255];
  }

  /**
   * An encoded run of colour 15 pixels, `05 FF`, is not a full run: the repair
   * copies it and the format reads it back.
   */
  lemma EncodedColourFifteenConforms(h: seq<Byte>)
    requires |h| == HeaderSize
    ensures Fix(h + [5, 255]) == Some(h + [5, 255])
    ensures ParseFormat([5, 255]) == Some([Run(5, 255, [])])
  {
    var r := Record(5, 255, [], []);
    assert WellFormed(r) && CorrectedPad(r) == [];
    OneRecordFix(h, r);
    assert EncodedRecord(r) == [5, 255];
    var body := (h + [5, 255])[HeaderSize..];
    assert body == [5, 255];
    assert ParseBody(body) == Some([r]) by {
      assert !IsAbsolute(5, 255) && InputLength(5, 255) == 2;
      assert ParseRecord(body) == Some(r);
      assert body[2..] == [];
      assert ParseBody(body[2..]) == Some([]);
      assert [r] + [] == [r];
    }
    assert NoFullRuns([r]);
    FixConformsToFormat(h + [5, 255]);
    assert Runs([r]) == [Run(5, 255, [])] by {
      assert [r][1..] == [];
    }
  }

  /**
   * The repair is not idempotent: repairing a repaired five-pixel record reads
   * the inserted zero as the start of a record and runs out of input.
   */
  lemma RepairTwiceFails(h: seq<Byte>)
    requires |h| == HeaderSize
    ensures Fix(h + [0, 5, 0x12, 0x34, 0x50]).Some?
    ensures Fix(Fix(h + [0, 5, 0x12, 0x34, 0x50]).value).None?
  {
    FiveNibblesGainPad(h);
    var r := Record(0, 5, [0x12, 0x34, 0x50], []);
    assert PaddingFixFor(5) == InsertZero && PayloadCount(5) == 3;
    assert AllWellFormed([r]);
    assert Encoded([r]) == [0, 5, 0x12, 0x34, 0x50] by {
      assert [r][1..] == [];
    }
    assert h + [0, 5, 0x12, 0x34, 0x50, 0] == h + Encoded([r]) + [0];
    FailsOnTruncatedRecord(h, [r], [0]);
  }
}
