/**
 * The query command of the console front end: the last whitespace-separated
 * word names the set operation (in any letter case), the words before it are
 * the tags. The front end also has its own `trim`, which differs from the
 * library's `trimCopy` on blank input.
 */
module QueryParser {
  import opened Types
  import opened StringUtil

  // ---------------------------------------------------------------------------
  // The front end's trim
  // ---------------------------------------------------------------------------

  /**
   * `trim` of the front end: a string without any non-whitespace character
   * comes back unchanged; otherwise the slice from its first to its last
   * non-whitespace character.
   */
  function QueryTrim(s: string): (r: string)
    ensures FirstNonSpace(s) == |s| ==> r == s
    ensures FirstNonSpace(s) < |s| ==>
              SliceBetweenSpaces(s, r, FirstNonSpace(s)) && r != [] && !IsSpace(r[0]) && !IsSpace(r[|r| - 1])
  {
    var first := FirstNonSpace(s);
    if first == |s| then s else s[first..EndNonSpace(s)]
  }

  /**
   * The front end's trim agrees with `trimCopy` on every string with a
   * non-whitespace character, and keeps a blank string that `trimCopy`
   * empties.
   */
  lemma QueryTrimVersusTrimCopy(s: string)
    ensures (exists k :: 0 <= k < |s| && !IsSpace(s[k])) ==> QueryTrim(s) == TrimCopy(s)
    ensures (forall k :: 0 <= k < |s| ==> IsSpace(s[k])) ==> QueryTrim(s) == s && TrimCopy(s) == []
  {
    if exists k :: 0 <= k < |s| && !IsSpace(s[k]) {
      var k :| 0 <= k < |s| && !IsSpace(s[k]);
      assert FirstNonSpace(s) <= k;
    } else {
      FirstNonSpaceUnique(s, |s|);
    }
  }

  /** Trimming twice with the front end's trim is trimming once. */
  lemma QueryTrimIdempotent(s: string)
    ensures QueryTrim(QueryTrim(s)) == QueryTrim(s)
  {
    var r := QueryTrim(s);
    if FirstNonSpace(s) < |s| {
      FirstNonSpaceUnique(r, 0);
      EndNonSpaceUnique(r, |r|);
    }
  }

  /** The two trims on a blank line: the front end keeps it, the library empties it. */
  lemma QueryTrimBlankExample(s: string)
    requires s == " \t "
    ensures QueryTrim(s) == " \t " && TrimCopy(s) == []
  {
    assert forall k :: 0 <= k < |s| ==> IsSpace(s[k]);
    QueryTrimVersusTrimCopy(s);
  }

  // ---------------------------------------------------------------------------
  // Words, as `>>` extracts them from a string stream
  // ---------------------------------------------------------------------------

  /** A word: non-empty and free of whitespace. */
  predicate IsWord(w: string) {
    w != [] && forall k :: 0 <= k < |w| ==> !IsSpace(w[k])
  }

  /** The length of the run of non-whitespace characters at the start of `s`. */
  function RunLength(s: string): (n: nat)
    ensures n <= |s|
    ensures forall k :: 0 <= k < n ==> !IsSpace(s[k])
    ensures n < |s| ==> IsSpace(s[n])
    decreases |s|
  {
    if s == [] || IsSpace(s[0]) then 0 else 1 + RunLength(s[1..])
  }

  /** A run is determined by where it stops. */
  lemma {:induction false} RunLengthUnique(s: string, n: nat)
    requires n <= |s|
    requires forall k :: 0 <= k < n ==> !IsSpace(s[k])
    requires n < |s| ==> IsSpace(s[n])
    ensures RunLength(s) == n
    decreases n
  {
    if n > 0 {
      RunLengthUnique(s[1..], n - 1);
    }
  }

  /** The maximal runs of non-whitespace characters of `s`, in order. */
  function Words(s: string): seq<string>
    decreases |s|
  {
    if s == [] then []
    else if IsSpace(s[0]) then Words(s[1..])
    else
      var n := RunLength(s);
      [s[..n]] + Words(s[n..])
  }

  /** Every extracted word is non-empty and free of whitespace. */
  lemma {:induction false} WordsAreWords(s: string)
    ensures forall k :: 0 <= k < |Words(s)| ==> IsWord(Words(s)[k])
    decreases |s|
  {
    if s != [] {
      if IsSpace(s[0]) {
        WordsAreWords(s[1..]);
      } else {
        var n := RunLength(s);
        WordsAreWords(s[n..]);
        var w := s[..n];
        assert forall k :: 0 <= k < |w| ==> w[k] == s[k];
      }
    }
  }

  /** A single word extracts as itself. */
  lemma WordsOfWord(w: string)
    requires IsWord(w)
    ensures Words(w) == [w]
  {
    RunLengthUnique(w, |w|);
    assert w[..|w|] == w && w[|w|..] == [];
  }

  /** A space between two strings separates their words: nothing is merged across it and nothing is lost. */
  lemma {:induction false} WordsSpaceConcat(a: string, b: string)
    ensures Words(a + [' '] + b) == Words(a) + Words(b)
    decreases |a|
  {
    var s := a + [' '] + b;
    if a == [] {
      assert s[1..] == b;
    } else if IsSpace(a[0]) {
      assert s[1..] == a[1..] + [' '] + b;
      WordsSpaceConcat(a[1..], b);
    } else {
      var n := RunLength(a);
      assert forall k :: 0 <= k < n ==> s[k] == a[k];
      RunLengthUnique(s, n);
      assert s[..n] == a[..n];
      assert s[n..] == a[n..] + [' '] + b;
      WordsSpaceConcat(a[n..], b);
      ConcatAssoc([a[..n]], Words(a[n..]), Words(b));
    }
  }

  /** Words joined by single spaces extract as those words: extraction inverts joining. */
  lemma {:induction false} WordsOfJoin(ws: seq<string>)
    requires forall k :: 0 <= k < |ws| ==> IsWord(ws[k])
    ensures Words(Join(ws, ' ')) == ws
    decreases |ws|
  {
    if |ws| == 1 {
      WordsOfWord(ws[0]);
    } else if |ws| > 1 {
      WordsOfJoin(ws[1..]);
      WordsSpaceConcat(ws[0], Join(ws[1..], ' '));
      WordsOfWord(ws[0]);
    }
  }

  /** A whitespace character before the words adds none. */
  lemma WordsAtSpace(s: string, i: nat)
    requires i < |s| && IsSpace(s[i])
    ensures Words(s[i..]) == Words(s[i + 1..])
  {
    assert s[i..][1..] == s[i + 1..];
  }

  /** A run of non-whitespace from `i` to `j`, ended by whitespace or by the end, is the next word. */
  lemma WordsAtRun(s: string, i: nat, j: nat)
    requires i < j <= |s|
    requires forall k :: i <= k < j ==> !IsSpace(s[k])
    requires j < |s| ==> IsSpace(s[j])
    ensures Words(s[i..]) == [s[i..j]] + Words(s[j..])
  {
    var t := s[i..];
    assert forall k :: 0 <= k < |t| ==> t[k] == s[i + k];
    RunLengthUnique(t, j - i);
    assert t[..j - i] == s[i..j];
    assert t[j - i..] == s[j..];
  }

  /** The `while (ss >> segment)` loop: skip whitespace, read a run, until the input is used up. */
  method ExtractWords(input: string) returns (parts: seq<string>)
    ensures parts == Words(input)
  {
    parts := [];
    var i := 0;
    while i < |input|
      invariant 0 <= i <= |input|
      invariant Words(input) == parts + Words(input[i..])
      decreases |input| - i
    {
      if IsSpace(input[i]) {
        WordsAtSpace(input, i);
        i := i + 1;
      } else {
        var j := i;
        while j < |input| && !IsSpace(input[j])
          invariant i <= j <= |input|
          invariant forall k :: i <= k < j ==> !IsSpace(input[k])
        {
          j := j + 1;
        }
        WordsAtRun(input, i, j);
        ConcatAssoc(parts, [input[i..j]], Words(input[j..]));
        parts := parts + [input[i..j]];
        i := j;
      }
    }
    assert Words(input[i..]) == [];
    assert parts + [] == parts;
  }

  // ---------------------------------------------------------------------------
  // The operation keyword
  // ---------------------------------------------------------------------------

  /** `::toupper` in the "C" locale: ASCII lower-case letters become upper case, everything else is kept. */
  function UpperChar(c: char): (u: char)
    ensures !('a' <= u <= 'z')
    ensures 'a' <= c <= 'z' ==> 'A' <= u <= 'Z' && u as int - 'A' as int == c as int - 'a' as int
    ensures !('a' <= c <= 'z') ==> u == c
  {
    if 'a' <= c <= 'z' then (c as int - 'a' as int + 'A' as int) as char else c
  }

  /** `std::transform` with `::toupper` over a word. */
  function ToUpper(w: string): (r: string)
    ensures |r| == |w| && forall k :: 0 <= k < |w| ==> r[k] == UpperChar(w[k])
  {
    seq(|w|, k requires 0 <= k < |w| => UpperChar(w[k]))
  }

  /** Upper-casing twice is upper-casing once. */
  lemma ToUpperIdempotent(w: string)
    ensures ToUpper(ToUpper(w)) == ToUpper(w)
  {
  }

  /** The keyword that names each operation. */
  function OpName(op: BitmapOperation): (s: string)
    ensures IsWord(s) && ToUpper(s) == s
  {
    match op
    case And => "AND"
    case Or => "OR"
    case Xor => "XOR"
    case AndNot => "ANDNOT"
  }

  /** The operation a word names, compared after upper-casing, or none. */
  function ParseOp(word: string): Option<BitmapOperation> {
    var u := ToUpper(word);
    if u == "AND" then Some(And)
    else if u == "OR" then Some(Or)
    else if u == "XOR" then Some(Xor)
    else if u == "ANDNOT" then Some(AndNot)
    else None
  }

  /** A word names an operation exactly when it upper-cases to that operation's keyword. */
  lemma ParseOpSpec(word: string, op: BitmapOperation)
    ensures ParseOp(word) == Some(op) <==> ToUpper(word) == OpName(op)
  {
  }

  /** Every keyword, in any letter case, parses back to its operation. */
  lemma ParseOpName(op: BitmapOperation, word: string)
    requires ToUpper(word) == OpName(op)
    ensures ParseOp(word) == Some(op)
  {
    ParseOpSpec(word, op);
  }

  /** The lower-case spelling of a keyword is accepted. */
  lemma ParseOpLowerExample(word: string)
    requires word == "andnot"
    ensures ParseOp(word) == Some(AndNot)
  {
    assert ToUpper(word) == "ANDNOT";
  }

  /** A word that only contains a keyword is not one. */
  lemma ParseOpRejectsExample(word: string)
    requires word == "NAND"
    ensures ParseOp(word) == None
  {
    assert ToUpper(word) == "NAND";
  }

  // ---------------------------------------------------------------------------
  // The whole command
  // ---------------------------------------------------------------------------

  /** A parsed query: the tags and the operation to combine them with. */
  datatype TagQuery = TagQuery(tags: seq<string>, op: BitmapOperation)

  /**
   * What `parseTagQuery` accepts: at least two words, the last of which names
   * an operation; the tags are all the words before it.
   */
  function ParseQuery(input: string): (r: Option<TagQuery>)
    ensures r.Some? ==> |r.value.tags| >= 1 && forall k :: 0 <= k < |r.value.tags| ==> IsWord(r.value.tags[k])
    ensures r.Some? ==> |Words(input)| >= 2 && ParseOp(Words(input)[|Words(input)| - 1]) == Some(r.value.op)
  {
    var ws := Words(input);
    WordsAreWords(input);
    if |ws| < 2 then None
    else
      match ParseOp(ws[|ws| - 1])
      case None => None
      case Some(op) => Some(TagQuery(ws[..|ws| - 1], op))
  }

  /**
   * `parseTagQuery`. The tag vector of the caller is cleared on entry, so it
   * is an out-parameter here: nothing from an earlier call survives. The
   * operation is an in/out parameter: on failure it keeps its old value.
   */
  method ParseTagQuery(input: string, opIn: BitmapOperation) returns (ok: bool, tags: seq<string>, op: BitmapOperation)
    ensures ok <==> ParseQuery(input).Some?
    ensures ok ==> TagQuery(tags, op) == ParseQuery(input).value
    ensures !ok ==> tags == [] && op == opIn
  {
    tags := [];
    op := opIn;
    var parts := ExtractWords(input);
    if |parts| < 2 {
      return false, tags, op;
    }
    var opStr := ToUpper(parts[|parts| - 1]);
    if opStr == "AND" {
      op := And;
    } else if opStr == "OR" {
      op := Or;
    } else if opStr == "XOR" {
      op := Xor;
    } else if opStr == "ANDNOT" {
      op := AndNot;
    } else {
      return false, tags, op;
    }
    var i := 0;
    while i < |parts| - 1
      invariant 0 <= i <= |parts| - 1
      invariant tags == parts[..i]
    {
      tags := tags + [parts[i]];
      i := i + 1;
    }
    ok := tags != [];
  }

  // ---- properties of the command parser ----

  /** A command written as its tags followed by the operation's keyword, one space apart, parses back to those tags and that operation. */
  lemma QueryRoundTrip(tags: seq<string>, op: BitmapOperation)
    requires |tags| >= 1 && forall k :: 0 <= k < |tags| ==> IsWord(tags[k])
    ensures ParseQuery(Join(tags + [OpName(op)], ' ')) == Some(TagQuery(tags, op))
  {
    var ws := tags + [OpName(op)];
    WordsOfJoin(ws);
    ParseOpName(op, OpName(op));
    assert ws[..|ws| - 1] == tags;
  }

  /** Extra whitespace between, before and after the words does not change the command. */
  lemma QuerySpacing(a: string, b: string)
    ensures ParseQuery(a + [' '] + b) == ParseQuery(Join(Words(a) + Words(b), ' '))
  {
    WordsSpaceConcat(a, b);
    WordsAreWords(a + [' '] + b);
    WordsOfJoin(Words(a) + Words(b));
  }

  /** Three words one space apart extract as those three words. */
  lemma ThreeWords(a: string, b: string, c: string)
    requires IsWord(a) && IsWord(b) && IsWord(c)
    ensures Words(a + [' '] + b + [' '] + c) == [a, b, c]
  {
    assert a + [' '] + b + [' '] + c == a + [' '] + (b + [' '] + c);
    WordsSpaceConcat(a, b + [' '] + c);
    WordsSpaceConcat(b, c);
    WordsOfWord(a);
    WordsOfWord(b);
    WordsOfWord(c);
  }

  /** A command whose words are two tags and an operation keyword. */
  lemma TwoTagQuery(input: string, a: string, b: string, c: string, op: BitmapOperation)
    requires IsWord(a) && IsWord(b) && IsWord(c) && ParseOp(c) == Some(op)
    requires input == a + [' '] + b + [' '] + c
    ensures ParseQuery(input) == Some(TagQuery([a, b], op))
  {
    ThreeWords(a, b, c);
    assert [a, b, c][..2] == [a, b];
  }

  /** Two tags and a lower-case keyword. */
  lemma QueryExample(input: string)
    requires input == "red blue or"
    ensures ParseQuery(input) == Some(TagQuery(["red", "blue"], Or))
  {
    assert ToUpper("or") == "OR";
    assert IsWord("red") && IsWord("blue") && IsWord("or");
    TwoTagQuery(input, "red", "blue", "or", Or);
  }

  /** A keyword alone is not a query. */
  lemma QueryKeywordOnlyExample(input: string)
    requires input == "AND"
    ensures ParseQuery(input) == None
  {
    WordsOfWord(input);
  }
}
