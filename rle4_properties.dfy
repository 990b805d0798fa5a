/**
 * What the BI_RLE4 padding repair guarantees: the body is split into records
 * exactly as the writer laid them out, every record comes out with its token and
 * payload unchanged and padded as the Windows bitmap format requires, the length
 * changes by one byte per mis-padded run, and the repair fails exactly on a body
 * that ends inside a record.
 */
module Rle4Properties {
  import opened Wrappers
  import opened Rle4Records

  /** A well-formed record is read back from its own bytes, whatever follows them. */
  lemma ParseRecordOfEncoded(r: Record, t: seq<Byte>)
    requires WellFormed(r)
    ensures ParseRecord(EncodedRecord(r) + t) == Some(r)
    ensures InputLength(r.b1, r.b2) == |EncodedRecord(r)|
    ensures (EncodedRecord(r) + t)[|EncodedRecord(r)|..] == t
  {
    var s := EncodedRecord(r) + t;
    var m := |EncodedRecord(r)|;
    assert s[0] == r.b1 && s[1] == r.b2;
    assert s[..m] == EncodedRecord(r);
    var p := ParseRecord(s).value;
    assert EncodedRecord(p) == EncodedRecord(r);
    assert p.payload == EncodedRecord(p)[2..2 + |p.payload|];
    assert r.payload == EncodedRecord(r)[2..2 + |r.payload|];
    assert p.pad == EncodedRecord(p)[2 + |p.payload|..];
    assert r.pad == EncodedRecord(r)[2 + |r.payload|..];
  }

  lemma SplitAt(s: seq<Byte>, m: nat)
    requires m <= |s|
    ensures s[..m] + s[m..] == s
  {
  }

  lemma SliceParts(b: seq<Byte>, m: nat, k: nat)
    requires m + k <= |b|
    ensures b[..m + k] == b[..m] + b[m..][..k]
    ensures b[m + k..] == b[m..][k..]
  {
  }

  lemma SuffixSlices(s: seq<Byte>, m: nat, k: nat)
    requires m + k <= |s|
    ensures s[m..][..k] == s[m..m + k] && s[m..][k..] == s[m + k..]
  {
  }

  /** One step of `ParseBody`: the first record, then the records after it. */
  lemma ParseBodyStep(s: seq<Byte>, r: Record)
    requires s != [] && ParseRecord(s) == Some(r)
    ensures ParseBody(s) == Prepend([r], ParseBody(s[InputLength(r.b1, r.b2)..]))
  {
  }

  lemma AllWellFormedTail(rs: seq<Record>)
    requires rs != [] && AllWellFormed(rs)
    ensures WellFormed(rs[0]) && AllWellFormed(rs[1..])
  {
    forall i | 0 <= i < |rs[1..]| ensures WellFormed(rs[1..][i]) {
      assert rs[1..][i] == rs[i + 1];
    }
  }

  /** The first record of the writer's layout parses back, and parsing goes on after it. */
  lemma ParseEncodedHead(rs: seq<Record>, t: seq<Byte>)
    requires rs != [] && WellFormed(rs[0])
    ensures ParseBody(Encoded(rs) + t) == Prepend([rs[0]], ParseBody(Encoded(rs[1..]) + t))
  {
    var r := rs[0];
    var tail := Encoded(rs[1..]) + t;
    var s := EncodedRecord(r) + tail;
    assert Encoded(rs) + t == s;
    ParseRecordOfEncoded(r, tail);
    ParseBodyStep(s, r);
    assert s[InputLength(r.b1, r.b2)..] == tail;
  }

  lemma PrependCons(rs: seq<Record>, rest: Option<seq<Record>>)
    requires rs != []
    ensures Prepend([rs[0]], Prepend(rs[1..], rest)) == Prepend(rs, rest)
  {
    if rest.Some? {
      var more := rest.value;
      calc {
        [rs[0]] + (rs[1..] + more);
        ([rs[0]] + rs[1..]) + more;
        { assert [rs[0]] + rs[1..] == rs; }
        rs + more;
      }
    }
  }

  /** Parsing the writer's layout of well-formed records gives those records back, whatever follows. */
  lemma {:induction false} ParseEncoded(rs: seq<Record>, t: seq<Byte>)
    requires AllWellFormed(rs)
    ensures ParseBody(Encoded(rs) + t) == Prepend(rs, ParseBody(t))
    decreases |rs|
  {
    if rs == [] {
      assert Encoded(rs) + t == t;
      match ParseBody(t)
      case None =>
      case Some(more) => assert rs + more == more;
    } else {
      AllWellFormedTail(rs);
      ParseEncodedHead(rs, t);
      ParseEncoded(rs[1..], t);
      PrependCons(rs, ParseBody(t));
    }
  }

  /** Well-formed records survive a round trip through the writer's layout. */
  lemma EncodedRoundTrip(rs: seq<Record>)
    requires AllWellFormed(rs)
    ensures ParseBody(Encoded(rs)) == Some(rs)
  {
    ParseEncoded(rs, []);
    assert Encoded(rs) + [] == Encoded(rs);
    assert ParseBody([]) == Some([]);
    assert rs + [] == rs;
  }

  /** Every byte of a parsed body belongs to exactly one record, in input order. */
  lemma {:induction false} ParsedRoundTrip(s: seq<Byte>)
    requires ParseBody(s).Some?
    ensures AllWellFormed(ParseBody(s).value)
    ensures Encoded(ParseBody(s).value) == s
    decreases |s|
  {
    if s != [] {
      var r := ParseRecord(s).value;
      var m := InputLength(r.b1, r.b2);
      var rest := s[m..];
      ParseBodyStep(s, r);
      assert ParseBody(rest).Some?;
      ParsedRoundTrip(rest);
      var more := ParseBody(rest).value;
      var rs := [r] + more;
      assert ParseBody(s) == Some(rs);
      assert rs[0] == r && rs[1..] == more;
      assert Encoded(rs) == EncodedRecord(r) + Encoded(more);
      SplitAt(s, m);
      forall i | 0 <= i < |rs| ensures WellFormed(rs[i]) {
        if i > 0 {
          assert rs[i] == more[i - 1];
        }
      }
    }
  }

  /** The repair changes the body length by one byte for each run with `L % 4` equal to 1 or 3. */
  lemma {:induction false} CorrectedLength(rs: seq<Record>)
    requires AllWellFormed(rs)
    ensures |Corrected(rs)| == |Encoded(rs)| + TotalInserted(rs) - TotalDropped(rs)
    decreases |rs|
  {
    if rs != [] {
      assert AllWellFormed(rs[1..]) by {
        forall i | 0 <= i < |rs[1..]| ensures WellFormed(rs[1..][i]) {
          assert rs[1..][i] == rs[i + 1];
        }
      }
      assert WellFormed(rs[0]);
      CorrectedLength(rs[1..]);
    }
  }

  /** Output length = input length + inserted padding bytes - dropped padding bytes. */
  lemma FixLength(s: seq<Byte>)
    requires Fix(s).Some?
    ensures ParseBody(s[HeaderSize..]).Some?
    ensures |Fix(s).value| == |s| + TotalInserted(ParseBody(s[HeaderSize..]).value)
                                  - TotalDropped(ParseBody(s[HeaderSize..]).value)
  {
    var body := s[HeaderSize..];
    ParsedRoundTrip(body);
    CorrectedLength(ParseBody(body).value);
  }

  /** A body made of complete records followed by a record cut short makes the repair fail. */
  lemma FailsOnTruncatedRecord(header: seq<Byte>, rs: seq<Record>, t: seq<Byte>)
    requires |header| == HeaderSize && AllWellFormed(rs) && Truncated(t)
    ensures Fix(header + Encoded(rs) + t) == None
  {
    var body := Encoded(rs) + t;
    assert header + Encoded(rs) + t == header + body;
    assert (header + body)[HeaderSize..] == body;
    assert ParseRecord(t).None?;
    assert ParseBody(t).None?;
    ParseEncoded(rs, t);
  }

  /** When the repair fails on a long enough input, the body ends inside a record after complete ones. */
  lemma {:induction false} FailureIsTruncation(b: seq<Byte>)
    requires ParseBody(b).None?
    ensures exists k :: 0 <= k < |b| && ParseBody(b[..k]).Some? && Truncated(b[k..])
    decreases |b|
  {
    if ParseRecord(b).None? {
      assert b[..0] == [] && b[0..] == b;
      assert ParseBody(b[..0]).Some?;
    } else {
      var r := ParseRecord(b).value;
      var m := InputLength(r.b1, r.b2);
      var rest := b[m..];
      ParseBodyStep(b, r);
      FailureIsTruncation(rest);
      var k :| 0 <= k < |rest| && ParseBody(rest[..k]).Some? && Truncated(rest[k..]);
      SliceParts(b, m, k);
      assert EncodedRecord(r) == b[..m];
      assert Encoded([r]) == EncodedRecord(r) by {
        assert Encoded([r]) == EncodedRecord(r) + Encoded([]);
      }
      assert b[..m + k] == Encoded([r]) + rest[..k];
      assert AllWellFormed([r]);
      ParseEncoded([r], rest[..k]);
      assert ParseBody(b[..m + k]).Some?;
    }
  }

  /** The repair fails, on an input that holds a header, exactly when its body ends inside a record. */
  lemma FixFailsOnlyOnTruncation(s: seq<Byte>)
    requires |s| >= HeaderSize && Fix(s).None?
    ensures exists k :: HeaderSize <= k < |s| && ParseBody(s[HeaderSize..k]).Some? && Truncated(s[k..])
  {
    var b := s[HeaderSize..];
    assert ParseBody(b).None?;
    FailureIsTruncation(b);
    var k :| 0 <= k < |b| && ParseBody(b[..k]).Some? && Truncated(b[k..]);
    SuffixSlices(s, HeaderSize, k);
  }

  // ---- The layout the Windows bitmap format prescribes ----

  /** A record as the format describes it: token, and the packed pixels of an absolute run. */
  datatype Run = Run(b1: Byte, b2: Byte, pixels: seq<Byte>)

  /** Packed-pixel bytes of an absolute run of `L` pixels: `ceil(L / 2)`. */
  function FormatPayload(b1: Byte, b2: Byte): nat
  {
    if IsAbsolute(b1, b2) then (b2 + 1) / 2 else 0
  }

  /** Bytes of a record in the format: token, pixels, and padding to a 16-bit boundary. */
  function FormatLength(b1: Byte, b2: Byte): nat
  {
    2 + FormatPayload(b1, b2) + FormatPayload(b1, b2) % 2
  }

  /** A reader of the format: the runs of a body laid out as the format prescribes. */
  function ParseFormat(s: seq<Byte>): Option<seq<Run>>
    decreases |s|
  {
    if s == [] then Some([])
    else if |s| < 2 || |s| < FormatLength(s[0], s[1]) then None
    else
      var run := Run(s[0], s[1], s[2..2 + FormatPayload(s[0], s[1])]);
      match ParseFormat(s[FormatLength(s[0], s[1])..])
      case None => None
      case Some(more) => Some([run] + more)
  }

  function Runs(rs: seq<Record>): seq<Run>
    decreases |rs|
  {
    if rs == [] then [] else [Run(rs[0].b1, rs[0].b2, rs[0].payload)] + Runs(rs[1..])
  }

  /** A record other than an absolute run of 255 pixels, whose payload the repair does not copy. */
  predicate NotFullRun(r: Record)
  {
    IsAbsolute(r.b1, r.b2) ==> r.b2 < 255
  }

  /** No absolute run of 255 pixels; encoded runs `nn FF` are allowed. */
  ghost predicate NoFullRuns(rs: seq<Record>)
  {
    forall i :: 0 <= i < |rs| ==> NotFullRun(rs[i])
  }

  /** A format reader reads one repaired record as its run, then goes on after it. */
  lemma FormatReadsRecord(r: Record, rest: seq<Byte>)
    requires WellFormed(r) && NotFullRun(r)
    ensures ParseFormat(CorrectedRecord(r) + rest)
            == match ParseFormat(rest)
               case None => None
               case Some(more) => Some([Run(r.b1, r.b2, r.payload)] + more)
  {
    var c := CorrectedRecord(r);
    var s := c + rest;
    assert |c| == FormatLength(r.b1, r.b2);
    assert s[0] == r.b1 && s[1] == r.b2;
    assert s[2..2 + FormatPayload(r.b1, r.b2)] == r.payload;
    assert s[|c|..] == rest;
  }

  lemma NoFullRunsTail(rs: seq<Record>)
    requires rs != [] && NoFullRuns(rs)
    ensures NotFullRun(rs[0]) && NoFullRuns(rs[1..])
  {
    forall i | 0 <= i < |rs[1..]| ensures NotFullRun(rs[1..][i]) {
      assert rs[1..][i] == rs[i + 1];
    }
  }

  /** A reader of the format finds in the repaired records the writer's tokens and pixels. */
  lemma {:induction false} FormatReadsCorrected(rs: seq<Record>)
    requires AllWellFormed(rs) && NoFullRuns(rs)
    ensures ParseFormat(Corrected(rs)) == Some(Runs(rs))
    decreases |rs|
  {
    if rs != [] {
      var r := rs[0];
      AllWellFormedTail(rs);
      NoFullRunsTail(rs);
      FormatReadsCorrected(rs[1..]);
      FormatReadsRecord(r, Corrected(rs[1..]));
    }
  }

  /**
   * The repaired bitmap conforms to the format: after the header, a format reader
   * sees exactly the runs the writer produced, when no absolute run has 255 pixels.
   */
  lemma FixConformsToFormat(s: seq<Byte>)
    requires Fix(s).Some?
    requires NoFullRuns(ParseBody(s[HeaderSize..]).value)
    ensures ParseFormat(Fix(s).value[HeaderSize..]) == Some(Runs(ParseBody(s[HeaderSize..]).value))
  {
    var rs := ParseBody(s[HeaderSize..]).value;
    ParsedRoundTrip(s[HeaderSize..]);
    assert Fix(s).value[HeaderSize..] == Corrected(rs);
    FormatReadsCorrected(rs);
  }
}
