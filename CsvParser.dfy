/**
 * The ingestion parser: a line "id | tag1 | tag2 | ..." becomes a record
 * with the trimmed id and the trimmed non-empty tags, and a text is read
 * line by line from a start offset, each accepted line handed on in order.
 */
module CsvParser {
  import opened Types
  import opened StringUtil

  // ---------------------------------------------------------------------------
  // One line
  // ---------------------------------------------------------------------------

  /** Each field trimmed, in order. */
  function TrimAll(fields: seq<string>): (r: seq<string>)
    ensures |r| == |fields| && forall k :: 0 <= k < |r| ==> r[k] == TrimCopy(fields[k])
  {
    seq(|fields|, k requires 0 <= k < |fields| => TrimCopy(fields[k]))
  }

  /** Trimming one more field adds its trimmed copy at the end. */
  lemma TrimAllSnoc(fields: seq<string>, i: nat)
    requires i < |fields|
    ensures TrimAll(fields[..i + 1]) == TrimAll(fields[..i]) + [TrimCopy(fields[i])]
  {
  }

  /** Reading one more field adds its trimmed text to the tags, unless that is empty. */
  lemma TagsSnoc(fields: seq<string>, i: nat)
    requires i < |fields|
    ensures NonEmpty(TrimAll(fields[..i + 1]))
         == NonEmpty(TrimAll(fields[..i])) + (if TrimCopy(fields[i]) == [] then [] else [TrimCopy(fields[i])])
  {
    var t := TrimCopy(fields[i]);
    TrimAllSnoc(fields, i);
    NonEmptyAppend(TrimAll(fields[..i]), [t]);
    assert [t][1..] == [];
  }

  /** Where the first field of `line` ends: at the first delimiter, or at the end of the line. */
  function FieldEnd(line: string, delim: char): (e: nat)
    ensures e <= |line| && forall k :: 0 <= k < e ==> line[k] != delim
    ensures e < |line| ==> line[e] == delim
  {
    var f := Find(line, delim, 0);
    if f == -1 then |line| else f
  }

  /**
   * `parseLine`: the line split at every delimiter, empty fields kept; the
   * id is the first field trimmed and the line is rejected when that is
   * empty; the tags are the other fields trimmed, empty ones dropped.
   */
  function LineRecord(line: string, delim: char): Option<Record> {
    var parts := Tokens(line, delim);
    TokensNeverEmpty(line, delim);
    var id := TrimCopy(parts[0]);
    if id == [] then None else Some(Record(id, NonEmpty(TrimAll(parts[1..]))))
  }

  /** `parseLine`, with the tag loop of the source. */
  method ParseLine(line: string, delim: char) returns (r: Option<Record>)
    ensures r == LineRecord(line, delim)
  {
    var parts := Split(line, delim, false);
    assert parts == Tokens(line, delim);
    TokensNeverEmpty(line, delim);
    var id := TrimCopy(parts[0]);
    if id == [] {
      return None;
    }
    ghost var fields := parts[1..];
    var tags: seq<string> := [];
    var i := 1;
    while i < |parts|
      invariant 1 <= i <= |parts|
      invariant tags == NonEmpty(TrimAll(fields[..i - 1]))
    {
      var trimmed := TrimCopy(parts[i]);
      assert fields[i - 1] == parts[i];
      TagsSnoc(fields, i - 1);
      if trimmed != [] {
        tags := tags + [trimmed];
      }
      i := i + 1;
    }
    assert fields[..i - 1] == fields;
    assert LineRecord(line, delim) == Some(Record(id, NonEmpty(TrimAll(fields))));
    return Some(Record(id, tags));
  }

  /** The first field of a line is the text up to its first delimiter. */
  lemma FirstField(line: string, delim: char)
    ensures Tokens(line, delim)[0] == line[..FieldEnd(line, delim)]
  {
    TokensNeverEmpty(line, delim);
    var e := FieldEnd(line, delim);
    if e < |line| {
      TokensAtDelimiter(line, delim, e);
    } else {
      TokensWithoutDelimiter(line, delim);
      assert line[..e] == line;
    }
  }

  /** A line is rejected exactly when everything before its first delimiter is whitespace. */
  lemma LineRecordRejects(line: string, delim: char)
    ensures LineRecord(line, delim).None? <==> forall k :: 0 <= k < FieldEnd(line, delim) ==> IsSpace(line[k])
  {
    FirstField(line, delim);
    var first := line[..FieldEnd(line, delim)];
    assert forall k :: 0 <= k < |first| ==> first[k] == line[k];
  }

  /** `t` does not contain the delimiter. */
  predicate NoDelimiter(t: string, delim: char) {
    forall j :: 0 <= j < |t| ==> t[j] != delim
  }

  /** `t` is a clean field: non-empty, without the delimiter, and with no whitespace at either end. */
  predicate Clean(t: string, delim: char) {
    t != [] && !IsSpace(t[0]) && !IsSpace(t[|t| - 1]) && NoDelimiter(t, delim)
  }

  /** A field without the delimiter trims to a field without it. */
  lemma TrimKeepsNoDelimiter(t: string, delim: char)
    requires NoDelimiter(t, delim)
    ensures NoDelimiter(TrimCopy(t), delim)
  {
    var r := TrimCopy(t);
    var i := FirstNonSpace(t);
    forall j | 0 <= j < |r|
      ensures r[j] != delim
    {
      assert r[j] == t[i + j];
    }
  }

  /** Fields without the delimiter trim to fields that are clean unless empty. */
  lemma TrimAllClean(fields: seq<string>, delim: char)
    requires forall k :: 0 <= k < |fields| ==> NoDelimiter(fields[k], delim)
    ensures forall k :: 0 <= k < |TrimAll(fields)| && TrimAll(fields)[k] != [] ==> Clean(TrimAll(fields)[k], delim)
  {
    forall k | 0 <= k < |fields|
      ensures NoDelimiter(TrimAll(fields)[k], delim)
    {
      TrimKeepsNoDelimiter(fields[k], delim);
    }
  }

  /** Dropping the empty fields from fields that are clean unless empty leaves only clean ones. */
  lemma NonEmptyClean(ts: seq<string>, delim: char)
    requires forall k :: 0 <= k < |ts| && ts[k] != [] ==> Clean(ts[k], delim)
    ensures forall k :: 0 <= k < |NonEmpty(ts)| ==> Clean(NonEmpty(ts)[k], delim)
  {
    var r := NonEmpty(ts);
    forall k | 0 <= k < |r|
      ensures Clean(r[k], delim)
    {
      assert r[k] in ts;
      var i :| 0 <= i < |ts| && ts[i] == r[k];
    }
  }

  /** The id and every tag of an accepted line are clean. */
  lemma LineRecordClean(line: string, delim: char)
    requires LineRecord(line, delim).Some?
    ensures Clean(LineRecord(line, delim).value.id, delim)
    ensures forall k :: 0 <= k < |LineRecord(line, delim).value.tags| ==> Clean(LineRecord(line, delim).value.tags[k], delim)
  {
    var parts := Tokens(line, delim);
    TokensNeverEmpty(line, delim);
    TokensAvoidDelimiter(line, delim);
    assert forall k :: 0 <= k < |parts| ==> NoDelimiter(parts[k], delim);
    TrimKeepsNoDelimiter(parts[0], delim);
    var fields := parts[1..];
    assert forall k :: 0 <= k < |fields| ==> fields[k] == parts[k + 1];
    TrimAllClean(fields, delim);
    NonEmptyClean(TrimAll(fields), delim);
    assert LineRecord(line, delim) == Some(Record(TrimCopy(parts[0]), NonEmpty(TrimAll(fields))));
  }

  // ---------------------------------------------------------------------------
  // A text, line by line
  // ---------------------------------------------------------------------------

  /** What one line contributes: nothing for a blank or a rejected line, its record otherwise. */
  function LineOutput(line: string, delim: char): seq<Record> {
    var trimmed := TrimCopy(line);
    if trimmed == [] then []
    else
      match LineRecord(trimmed, delim)
      case Some(r) => [r]
      case None => []
  }

  /** The records of `lines`, in order. */
  function Records(lines: seq<string>, delim: char): seq<Record>
    decreases |lines|
  {
    if lines == [] then [] else Records(lines[..|lines| - 1], delim) + LineOutput(lines[|lines| - 1], delim)
  }

  /** Reading one more line adds what that line contributes. */
  lemma RecordsSnoc(lines: seq<string>, i: nat, delim: char)
    requires i < |lines|
    ensures Records(lines[..i + 1], delim) == Records(lines[..i], delim) + LineOutput(lines[i], delim)
  {
    assert lines[..i + 1][..i] == lines[..i];
  }

  /** The outcome of reading a text: whether reading succeeded and the records handed on. */
  datatype ParseResult = ParseResult(ok: bool, records: seq<Record>)

  /**
   * `parseStream` over an in-memory text: a start offset past the end of the
   * text is a failed seek; otherwise the text from the offset on is read
   * line by line and the result is true.
   */
  function Stream(text: string, start: nat, delim: char): (r: ParseResult)
    ensures r.ok <==> start <= |text|
    ensures !r.ok ==> r.records == []
  {
    if start > |text| then ParseResult(false, [])
    else ParseResult(true, Records(Tokens(text[start..], '\n'), delim))
  }

  /** `parseStream`: every accepted line is handed on once, in order, as a record appended to `records`. */
  method ParseStream(text: string, start: nat, delim: char) returns (ok: bool, records: seq<Record>)
    ensures ParseResult(ok, records) == Stream(text, start, delim)
  {
    if start > |text| {
      return false, [];
    }
    var lines := Split(text[start..], '\n', false);
    records := [];
    var i := 0;
    while i < |lines|
      invariant 0 <= i <= |lines|
      invariant records == Records(lines[..i], delim)
    {
      RecordsSnoc(lines, i, delim);
      var trimmed := TrimCopy(lines[i]);
      if trimmed != [] {
        var r := ParseLine(trimmed, delim);
        match r {
          case Some(rec) =>
            records := records + [rec];
          case None =>
        }
      }
      i := i + 1;
    }
    assert lines[..i] == lines;
    ok := true;
  }

  // ---- properties of reading a text ----

  /** Reading two runs of lines one after the other gives the records of each, in order. */
  lemma {:induction false} RecordsAppend(a: seq<string>, b: seq<string>, delim: char)
    ensures Records(a + b, delim) == Records(a, delim) + Records(b, delim)
    decreases |b|
  {
    if b == [] {
      assert a + b == a;
    } else {
      var front := b[..|b| - 1];
      assert (a + b)[..|a + b| - 1] == a + front;
      RecordsAppend(a, front, delim);
      ConcatAssoc(Records(a, delim), Records(front, delim), LineOutput(b[|b| - 1], delim));
    }
  }

  /** A record whose id and tags are all clean. */
  predicate RecordClean(r: Record, delim: char) {
    Clean(r.id, delim) && forall j :: 0 <= j < |r.tags| ==> Clean(r.tags[j], delim)
  }

  /** What one line contributes is clean. */
  lemma LineOutputClean(line: string, delim: char)
    ensures forall k :: 0 <= k < |LineOutput(line, delim)| ==> RecordClean(LineOutput(line, delim)[k], delim)
  {
    var trimmed := TrimCopy(line);
    if trimmed != [] && LineRecord(trimmed, delim).Some? {
      LineRecordClean(trimmed, delim);
      assert LineOutput(line, delim) == [LineRecord(trimmed, delim).value];
    }
  }

  /** Every record read from any lines has a clean id and clean tags. */
  lemma {:induction false} RecordsClean(lines: seq<string>, delim: char)
    ensures forall k :: 0 <= k < |Records(lines, delim)| ==> RecordClean(Records(lines, delim)[k], delim)
    decreases |lines|
  {
    if lines != [] {
      var front := lines[..|lines| - 1];
      RecordsClean(front, delim);
      LineOutputClean(lines[|lines| - 1], delim);
      var a := Records(front, delim);
      var b := LineOutput(lines[|lines| - 1], delim);
      assert Records(lines, delim) == a + b;
      forall k | 0 <= k < |a + b|
        ensures RecordClean((a + b)[k], delim)
      {
        if k < |a| {
          assert (a + b)[k] == a[k];
        } else {
          assert (a + b)[k] == b[k - |a|];
        }
      }
    }
  }

  /** Lines that are blank, or whose id is blank, hand nothing on. */
  lemma BlankAndRejectedLinesAreSkipped(line: string, delim: char)
    requires (forall k :: 0 <= k < |line| ==> IsSpace(line[k])) || LineRecord(TrimCopy(line), delim).None?
    ensures LineOutput(line, delim) == []
  {
  }

  /** At most one record per line. */
  lemma {:induction false} RecordsAtMostOnePerLine(lines: seq<string>, delim: char)
    ensures |Records(lines, delim)| <= |lines|
    decreases |lines|
  {
    if lines != [] {
      RecordsAtMostOnePerLine(lines[..|lines| - 1], delim);
    }
  }

  /**
   * Reading from an offset just past a line feed hands on exactly the
   * records of the lines after it: reading the whole text gives the records
   * before the offset followed by those.
   */
  lemma OffsetSkipsEarlierLines(text: string, k: nat, delim: char)
    requires 0 < k <= |text| && text[k - 1] == '\n'
    ensures Stream(text, k, delim).ok
    ensures Stream(text, 0, delim).records
         == Records(Tokens(text[..k - 1], '\n'), delim) + Stream(text, k, delim).records
  {
    assert text == text[..k - 1] + ['\n'] + text[k..];
    assert text[0..] == text;
    TokensConcat(text[..k - 1], text[k..], '\n');
    RecordsAppend(Tokens(text[..k - 1], '\n'), Tokens(text[k..], '\n'), delim);
  }

  // ---- the parser's test cases ----

  /** The fields of the example line with an empty tag. */
  lemma ExampleFields(line: string)
    requires line == "id1 | tag1 || tag3"
    ensures Tokens(line, '|') == ["id1 ", " tag1 ", "", " tag3"]
  {
    TokensOfLiteral(line, ["id1 ", " tag1 ", "", " tag3"], '|');
  }

  /** A field with padding at one or both ends trims to its middle. */
  lemma TrimPadding(f: string, i: nat, j: nat)
    requires i < j <= |f|
    requires forall k :: 0 <= k < i ==> IsSpace(f[k])
    requires forall k :: j <= k < |f| ==> IsSpace(f[k])
    requires !IsSpace(f[i]) && !IsSpace(f[j - 1])
    ensures TrimCopy(f) == f[i..j]
  {
    TrimOfPadded(f[..i], f[i..j], f[j..]);
    assert f[..i] + f[i..j] + f[j..] == f;
  }

  /** The trimmed fields of the example line with an empty tag. */
  lemma ExampleTrims(f0: string, f1: string, f3: string)
    requires f0 == "id1 " && f1 == " tag1 " && f3 == " tag3"
    ensures TrimCopy(f0) == "id1" && TrimCopy(f1) == "tag1" && TrimCopy(f3) == "tag3"
  {
    TrimPadding(f0, 0, 3);
    TrimPadding(f1, 1, 5);
    TrimPadding(f3, 1, 5);
    assert f0[0..3] == "id1" && f1[1..5] == "tag1" && f3[1..5] == "tag3";
  }

  /** Of three trimmed fields with an empty one in the middle, the two others are kept in order. */
  lemma NonEmptyDropsMiddle(a: string, b: string)
    requires a != [] && b != []
    ensures NonEmpty([a, [], b]) == [a, b]
  {
    var ts := [a, [], b];
    assert ts[1..] == [[], b] && ts[1..][1..] == [b];
    assert NonEmpty([b]) == [b];
  }

  /** An empty tag between two others is dropped, and the padding around every field is trimmed. */
  lemma ParseLineExample(line: string)
    requires line == "id1 | tag1 || tag3"
    ensures LineRecord(line, '|') == Some(Record("id1", ["tag1", "tag3"]))
  {
    ExampleFields(line);
    var parts := Tokens(line, '|');
    ExampleTrims(parts[0], parts[1], parts[3]);
    assert TrimCopy([]) == [];
    assert parts[1..] == [parts[1], [], parts[3]];
    var trimmed := TrimAll(parts[1..]);
    assert trimmed == ["tag1", [], "tag3"];
    NonEmptyDropsMiddle("tag1", "tag3");
    assert LineRecord(line, '|') == Some(Record(TrimCopy(parts[0]), NonEmpty(trimmed)));
  }

  /** An id alone is accepted with no tags. */
  lemma IdOnlyExample(line: string)
    requires line == "id1"
    ensures LineRecord(line, '|') == Some(Record("id1", []))
  {
    TokensWithoutDelimiter(line, '|');
    TrimOfPadded([], line, []);
    assert [] + line + [] == line;
  }

  /** An id followed by a delimiter and nothing else is accepted with no tags. */
  lemma IdWithDelimiterExample(line: string)
    requires line == "id2 |"
    ensures LineRecord(line, '|') == Some(Record("id2", []))
  {
    TokensOfLiteral(line, ["id2 ", ""], '|');
    var parts := Tokens(line, '|');
    TrimPadding(parts[0], 0, 3);
    assert parts[0][0..3] == "id2";
    assert TrimCopy([]) == [];
    assert parts[1..] == [[]];
    var trimmed := TrimAll(parts[1..]);
    assert trimmed == [[]];
    assert NonEmpty(trimmed) == [];
    assert LineRecord(line, '|') == Some(Record(TrimCopy(parts[0]), NonEmpty(trimmed)));
  }

  /** A line whose id field is whitespace only is rejected. */
  lemma MissingIdExample(line: string)
    requires line == "   | tag5"
    ensures LineRecord(line, '|') == None
  {
    assert line[3] == '|';
    assert FieldEnd(line, '|') <= 3;
    assert forall k :: 0 <= k < 3 ==> IsSpace(line[k]);
    LineRecordRejects(line, '|');
  }

  /** A line whose id is missing hands nothing on, even after the whole line is trimmed. */
  lemma MissingIdLineSkipped(line: string)
    requires line == "   | tag5"
    ensures LineOutput(line, '|') == []
  {
    TrimPadding(line, 3, 9);
    var trimmed := line[3..9];
    assert trimmed[0] == '|';
    assert FieldEnd(trimmed, '|') == 0;
    LineRecordRejects(trimmed, '|');
  }

  /** A line of whitespace only hands nothing on. */
  lemma BlankLineSkipped(line: string)
    requires line == "   \t   "
    ensures LineOutput(line, '|') == []
  {
    assert forall k :: 0 <= k < |line| ==> IsSpace(line[k]);
  }

  /** The well-formed line of the example hands on its record. */
  lemma IdOnlyLineRead(line: string)
    requires line == "id1"
    ensures LineOutput(line, '|') == [Record("id1", [])]
  {
    TrimOfPadded([], line, []);
    assert [] + line + [] == line;
    assert TrimCopy(line) == line;
    IdOnlyExample(line);
    assert LineOutput(line, '|') == match LineRecord(line, '|') case Some(r) => [r] case None => [];
  }

  /** Three lines of which only the first hands anything on give that line's record alone. */
  lemma ThreeLines(a: string, b: string, c: string, r: Record)
    requires LineOutput(a, '|') == [r] && LineOutput(b, '|') == [] && LineOutput(c, '|') == []
    ensures Records([a, b, c], '|') == [r]
  {
    assert [a, b, c][..2] == [a, b] && [a, b][..1] == [a] && [a][..0] == [];
    assert Records([a], '|') == [r];
    assert Records([a, b], '|') == [r] + [];
    assert Records([a, b, c], '|') == [r] + [] + [];
  }

  /** Of a well-formed line, a blank line and a line with a blank id, only the first hands on a record. */
  lemma SkippedLinesExample(good: string, blank: string, bad: string)
    requires good == "id1" && blank == "   \t   " && bad == "   | tag5"
    ensures Records([good, blank, bad], '|') == [Record("id1", [])]
  {
    IdOnlyLineRead(good);
    BlankLineSkipped(blank);
    MissingIdLineSkipped(bad);
    ThreeLines(good, blank, bad, Record("id1", []));
  }
}
