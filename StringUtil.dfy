/**
 * Splitting on a delimiter character and the whitespace-trimming family.
 * Whitespace is the C locale's `isspace` set: space, tab, line feed,
 * vertical tab, form feed and carriage return.
 */
module StringUtil {
  import opened Types

  predicate IsSpace(c: char) {
    c == ' ' || c == '\t' || c == '\n' || c == '\U{000B}' || c == '\U{000C}' || c == '\r'
  }

  // ---------------------------------------------------------------------------
  // Splitting
  // ---------------------------------------------------------------------------

  /** Position of the first `c` in `s` at or after `from`; -1 plays the role of `npos`. */
  function Find(s: string, c: char, from: nat): (r: int)
    requires from <= |s|
    ensures r == -1 || from <= r < |s|
    ensures r == -1 ==> forall k :: from <= k < |s| ==> s[k] != c
    ensures r != -1 ==> s[r] == c && forall k :: from <= k < r ==> s[k] != c
    decreases |s| - from
  {
    if from == |s| then -1 else if s[from] == c then from else Find(s, c, from + 1)
  }

  /**
   * The tokens of `s` between occurrences of `d`, empty ones included,
   * defined character by character: a delimiter starts a new token, any
   * other character extends the current one.
   */
  function Tokens(s: string, d: char): seq<string>
    decreases |s|
  {
    if s == [] then [[]]
    else
      var rest := Tokens(s[1..], d);
      if s[0] == d then [[]] + rest else [[s[0]] + rest[0]] + rest[1..]
  }

  /** Number of occurrences of `c` in `s`. */
  function Count(s: string, c: char): nat
    decreases |s|
  {
    if s == [] then 0 else (if s[0] == c then 1 else 0) + Count(s[1..], c)
  }

  /** The tokens put back together, one `d` between neighbours. */
  function Join(ts: seq<string>, d: char): string
    decreases |ts|
  {
    if ts == [] then [] else if |ts| == 1 then ts[0] else ts[0] + [d] + Join(ts[1..], d)
  }

  /** The tokens that are not the empty string, in order. */
  function NonEmpty(ts: seq<string>): (r: seq<string>)
    ensures forall k :: 0 <= k < |r| ==> r[k] != []
    ensures forall t :: t in r ==> t in ts
    decreases |ts|
  {
    if ts == [] then [] else (if ts[0] == [] then [] else [ts[0]]) + NonEmpty(ts[1..])
  }

  lemma {:induction false} NonEmptyAppend(a: seq<string>, b: seq<string>)
    ensures NonEmpty(a + b) == NonEmpty(a) + NonEmpty(b)
    decreases |a|
  {
    if a == [] {
      assert a + b == b;
    } else {
      assert (a + b)[1..] == a[1..] + b;
      NonEmptyAppend(a[1..], b);
    }
  }

  lemma {:induction false} TokensNeverEmpty(s: string, d: char)
    ensures |Tokens(s, d)| >= 1
    decreases |s|
  {
    if s != [] { TokensNeverEmpty(s[1..], d); }
  }

  /** When the first `d` of `t` is at `k`, the first token is `t[..k]` and the rest is the split of `t[k+1..]`. */
  lemma {:induction false} TokensAtDelimiter(t: string, d: char, k: nat)
    requires k < |t| && t[k] == d
    requires forall j :: 0 <= j < k ==> t[j] != d
    ensures Tokens(t, d) == [t[..k]] + Tokens(t[k + 1..], d)
    decreases k
  {
    if k > 0 {
      TokensAtDelimiter(t[1..], d, k - 1);
      assert t[1..][k..] == t[k + 1..];
      assert [t[0]] + t[1..][..k - 1] == t[..k];
    }
  }

  /** A string free of `d` is a single token. */
  lemma {:induction false} TokensWithoutDelimiter(t: string, d: char)
    requires forall j :: 0 <= j < |t| ==> t[j] != d
    ensures Tokens(t, d) == [t]
    decreases |t|
  {
    if t != [] {
      TokensWithoutDelimiter(t[1..], d);
      assert [t[0]] + t[1..] == t;
    }
  }

  /** The tokens kept by `split`: all of them, or only the non-empty ones when `skipEmpty` holds. */
  function Kept(ts: seq<string>, skipEmpty: bool): seq<string> {
    if skipEmpty then NonEmpty(ts) else ts
  }

  /** The tokens of `s` from position `start` on, found delimiter by delimiter as the split loop finds them. */
  function TokensFrom(s: string, d: char, start: nat): seq<string>
    requires start <= |s|
    decreases |s| - start
  {
    var end := Find(s, d, start);
    if end == -1 then [s[start..]] else [s[start..end]] + TokensFrom(s, d, end + 1)
  }

  /** Scanning for delimiters from `start` gives the character-by-character tokens of the rest. */
  lemma {:induction false} TokensFromIsTokens(s: string, d: char, start: nat)
    requires start <= |s|
    ensures TokensFrom(s, d, start) == Tokens(s[start..], d)
    decreases |s| - start
  {
    var end := Find(s, d, start);
    var t := s[start..];
    if end == -1 {
      assert forall j :: 0 <= j < |t| ==> t[j] == s[start + j];
      TokensWithoutDelimiter(t, d);
    } else {
      assert t[end - start] == d;
      assert forall j :: 0 <= j < end - start ==> t[j] == s[start + j];
      TokensFromIsTokens(s, d, end + 1);
      TokensAtDelimiter(s[start..], d, end - start);
      assert s[start..][..end - start] == s[start..end];
      assert s[start..][end - start + 1..] == s[end + 1..];
    }
  }

  /** A single token is kept unless it is empty and empty tokens are skipped. */
  lemma KeptSingle(t: string, skipEmpty: bool)
    ensures Kept([t], skipEmpty) == if !skipEmpty || t != [] then [t] else []
  {
    assert [t][1..] == [];
    assert NonEmpty([]) == [];
  }

  /** The tokens `split` keeps of the single token `t`. */
  function KeptToken(t: string, skipEmpty: bool): seq<string> {
    if !skipEmpty || t != [] then [t] else []
  }

  /** One round of the split loop: the token before the delimiter at `end`, if kept, then the rest. */
  lemma SplitStep(s: string, d: char, start: nat, end: nat, skipEmpty: bool)
    requires start <= end < |s| && end == Find(s, d, start)
    ensures Kept(TokensFrom(s, d, start), skipEmpty)
         == KeptToken(s[start..end], skipEmpty) + Kept(TokensFrom(s, d, end + 1), skipEmpty)
  {
    var rest := TokensFrom(s, d, end + 1);
    assert TokensFrom(s, d, start) == [s[start..end]] + rest;
    if skipEmpty {
      NonEmptyAppend([s[start..end]], rest);
      KeptSingle(s[start..end], skipEmpty);
    }
  }

  /**
   * `split` with the delimiter `d`: the tokens between delimiters, with the
   * empty ones removed when `skipEmpty` holds.
   */
  method Split(s: string, d: char, skipEmpty: bool) returns (r: seq<string>)
    ensures r == Kept(Tokens(s, d), skipEmpty)
  {
    ghost var want := Kept(TokensFrom(s, d, 0), skipEmpty);
    r := [];
    var start := 0;
    var end := Find(s, d, 0);
    while end != -1
      invariant 0 <= start <= |s|
      invariant end == Find(s, d, start)
      invariant want == r + Kept(TokensFrom(s, d, start), skipEmpty)
      decreases |s| - start
    {
      var token := s[start..end];
      ghost var before := r;
      ghost var rest := Kept(TokensFrom(s, d, end + 1), skipEmpty);
      SplitStep(s, d, start, end, skipEmpty);
      if !skipEmpty || token != [] {
        r := r + [token];
      }
      assert r == before + KeptToken(token, skipEmpty);
      ConcatAssoc(before, KeptToken(token, skipEmpty), rest);
      start := end + 1;
      end := Find(s, d, start);
    }
    var last := s[start..];
    ghost var before := r;
    assert TokensFrom(s, d, start) == [last];
    KeptSingle(last, skipEmpty);
    if !skipEmpty || last != [] {
      r := r + [last];
    }
    assert r == before + KeptToken(last, skipEmpty);
    TokensFromIsTokens(s, d, 0);
    assert s[0..] == s;
  }

  // ---- properties of the split ----

  /** Splitting text that contains a delimiter splits the part before it and the part after it separately. */
  lemma {:induction false} TokensConcat(a: string, b: string, d: char)
    ensures Tokens(a + [d] + b, d) == Tokens(a, d) + Tokens(b, d)
    decreases |a|
  {
    var s := a + [d] + b;
    if a == [] {
      assert s[1..] == b;
    } else {
      assert s[1..] == a[1..] + [d] + b;
      TokensConcat(a[1..], b, d);
      TokensNeverEmpty(a[1..], d);
      var ta, tb := Tokens(a[1..], d), Tokens(b, d);
      if a[0] == d {
        ConcatAssoc([[]], ta, tb);
      } else {
        assert (ta + tb)[0] == ta[0];
        assert (ta + tb)[1..] == ta[1..] + tb;
        ConcatAssoc([[a[0]] + ta[0]], ta[1..], tb);
      }
    }
  }

  /** Without skipping, there is exactly one more token than there are delimiters. */
  lemma {:induction false} TokensCount(s: string, d: char)
    ensures |Tokens(s, d)| == Count(s, d) + 1
    decreases |s|
  {
    if s != [] {
      TokensCount(s[1..], d);
    }
  }

  /** Joining the tokens with the delimiter gives back the input. */
  lemma {:induction false} JoinTokens(s: string, d: char)
    ensures Join(Tokens(s, d), d) == s
    decreases |s|
  {
    if s != [] {
      var rest := Tokens(s[1..], d);
      TokensNeverEmpty(s[1..], d);
      JoinTokens(s[1..], d);
      if s[0] == d {
        assert Join([[]] + rest, d) == [] + [d] + Join(rest, d);
      } else {
        var ts := [[s[0]] + rest[0]] + rest[1..];
        assert ts[1..] == rest[1..];
        if |rest| == 1 {
          assert Join(ts, d) == [s[0]] + rest[0];
        } else {
          assert Join(rest, d) == rest[0] + [d] + Join(rest[1..], d);
          assert Join(ts, d) == [s[0]] + rest[0] + [d] + Join(rest[1..], d);
        }
      }
    }
  }

  /** No token contains the delimiter. */
  lemma {:induction false} TokensAvoidDelimiter(s: string, d: char)
    ensures forall k, j :: 0 <= k < |Tokens(s, d)| && 0 <= j < |Tokens(s, d)[k]| ==> Tokens(s, d)[k][j] != d
    decreases |s|
  {
    if s != [] {
      TokensNeverEmpty(s[1..], d);
      TokensAvoidDelimiter(s[1..], d);
    }
  }

  /** Splitting a join of delimiter-free tokens recovers the tokens: split is a left inverse of join. */
  lemma {:induction false} TokensOfJoin(ts: seq<string>, d: char)
    requires |ts| >= 1
    requires forall k, j :: 0 <= k < |ts| && 0 <= j < |ts[k]| ==> ts[k][j] != d
    ensures Tokens(Join(ts, d), d) == ts
    decreases |ts|
  {
    if |ts| == 1 {
      TokensWithoutDelimiter(ts[0], d);
    } else {
      var t := ts[0] + [d] + Join(ts[1..], d);
      TokensOfJoin(ts[1..], d);
      TokensAtDelimiter(t, d, |ts[0]|);
      assert t[..|ts[0]|] == ts[0];
      assert t[|ts[0]| + 1..] == Join(ts[1..], d);
      assert [ts[0]] + ts[1..] == ts;
    }
  }

  /** The tokens of the join of `ts`, for delimiter-free `ts`, spelled out on a literal. */
  lemma TokensOfLiteral(s: string, ts: seq<string>, d: char)
    requires |ts| >= 1 && Join(ts, d) == s
    requires forall k, j :: 0 <= k < |ts| && 0 <= j < |ts[k]| ==> ts[k][j] != d
    ensures Tokens(s, d) == ts
  {
    TokensOfJoin(ts, d);
  }

  /** The examples of the string utility's tests and header comment, without skipping. */
  lemma SplitExamples()
    ensures Tokens("", '|') == [""]
    ensures Tokens("|", '|') == ["", ""]
    ensures Tokens("a||c", '|') == ["a", "", "c"]
    ensures Tokens("a|b|c", '|') == ["a", "b", "c"]
  {
    assert Tokens("|", '|') == ["", ""] by { TokensOfLiteral("|", ["", ""], '|'); }
    assert Tokens("a||c", '|') == ["a", "", "c"] by { TokensOfLiteral("a||c", ["a", "", "c"], '|'); }
    assert Tokens("a|b|c", '|') == ["a", "b", "c"] by { TokensOfLiteral("a|b|c", ["a", "b", "c"], '|'); }
  }

  /** An empty token at the front. */
  lemma SplitLeadingEmptyExample()
    ensures Tokens("|b|c", '|') == ["", "b", "c"]
  {
    TokensOfLiteral("|b|c", ["", "b", "c"], '|');
  }

  /** An empty token at the back. */
  lemma SplitTrailingEmptyExample()
    ensures Tokens("a|b|", '|') == ["a", "b", ""]
  {
    TokensOfLiteral("a|b|", ["a", "b", ""], '|');
  }

  /** The comma delimiter, with an empty token in the middle and one at the back. */
  lemma SplitCommaExample()
    ensures Tokens("a,,b,", ',') == ["a", "", "b", ""]
  {
    TokensOfLiteral("a,,b,", ["a", "", "b", ""], ',');
  }

  /** With skipping, empty tokens go and whitespace-only ones stay. */
  lemma SplitSkipExample(s: string)
    requires s == "a||b| |c|"
    ensures NonEmpty(Tokens(s, '|')) == ["a", "b", " ", "c"]
  {
    var ts: seq<string> := ["a", "", "b", " ", "c", ""];
    TokensOfLiteral(s, ts, '|');
    NonEmptyAppend(ts[..3], ts[3..]);
    assert ts[..3] == ["a", "", "b"] && ts[3..] == [" ", "c", ""];
  }

  /** With skipping, a string of delimiters only, or the empty string, has no tokens. */
  lemma SplitSkipEmptyExamples()
    ensures NonEmpty(Tokens("|||", '|')) == []
    ensures NonEmpty(Tokens("", '|')) == []
  {
    assert Tokens("|||", '|') == ["", "", "", ""] by { TokensOfLiteral("|||", ["", "", "", ""], '|'); }
  }

  // ---------------------------------------------------------------------------
  // Trimming
  // ---------------------------------------------------------------------------

  /** Index of the first non-whitespace character, or |s| when there is none. */
  function FirstNonSpace(s: string): (i: nat)
    ensures i <= |s|
    ensures forall k :: 0 <= k < i ==> IsSpace(s[k])
    ensures i < |s| ==> !IsSpace(s[i])
    decreases |s|
  {
    if s == [] || !IsSpace(s[0]) then 0 else 1 + FirstNonSpace(s[1..])
  }

  /** One past the last non-whitespace character, or 0 when there is none. */
  function EndNonSpace(s: string): (j: nat)
    ensures j <= |s|
    ensures forall k :: j <= k < |s| ==> IsSpace(s[k])
    ensures j > 0 ==> !IsSpace(s[j - 1])
    decreases |s|
  {
    if s == [] || !IsSpace(s[|s| - 1]) then |s| else EndNonSpace(s[..|s| - 1])
  }

  /** `trimLeftCopy`: the suffix of `s` left once the leading whitespace is removed. */
  function TrimLeftCopy(s: string): (r: string)
    ensures |r| <= |s| && r == s[|s| - |r|..]
    ensures forall k :: 0 <= k < |s| - |r| ==> IsSpace(s[k])
    ensures r != [] ==> !IsSpace(r[0])
  {
    s[FirstNonSpace(s)..]
  }

  /** `trimRightCopy`: the prefix of `s` left once the trailing whitespace is removed. */
  function TrimRightCopy(s: string): (r: string)
    ensures |r| <= |s| && r == s[..|r|]
    ensures forall k :: |r| <= k < |s| ==> IsSpace(s[k])
    ensures r != [] ==> !IsSpace(r[|r| - 1])
  {
    s[..EndNonSpace(s)]
  }

  /** `r` is the slice of `s` at `i` with only whitespace before and after it. */
  ghost predicate SliceBetweenSpaces(s: string, r: string, i: nat) {
    i + |r| <= |s| && r == s[i..i + |r|] &&
    (forall k :: 0 <= k < i ==> IsSpace(s[k])) &&
    (forall k :: i + |r| <= k < |s| ==> IsSpace(s[k]))
  }

  /**
   * `trimCopy`: the contiguous slice of `s` from its first to its last
   * non-whitespace character, or "" when `s` has none.
   */
  function TrimCopy(s: string): (r: string)
    ensures SliceBetweenSpaces(s, r, FirstNonSpace(s))
    ensures r != [] ==> !IsSpace(r[0]) && !IsSpace(r[|r| - 1])
    ensures r == [] <==> forall k :: 0 <= k < |s| ==> IsSpace(s[k])
  {
    var first := FirstNonSpace(s);
    var last := EndNonSpace(s);
    if first >= last then [] else s[first..last]
  }

  /** Trimming the right end and then the left end is the two-ended trim. */
  lemma TrimLeftOfTrimRight(s: string)
    ensures TrimLeftCopy(TrimRightCopy(s)) == TrimCopy(s)
  {
    var first, last := FirstNonSpace(s), EndNonSpace(s);
    var p := TrimRightCopy(s);
    if first >= last {
      FirstNonSpaceUnique(p, |p|);
    } else {
      FirstNonSpaceUnique(p, first);
    }
  }

  /** Trimming is idempotent. */
  lemma TrimIdempotent(s: string)
    ensures TrimCopy(TrimCopy(s)) == TrimCopy(s)
  {
    var r := TrimCopy(s);
    if r != [] {
      assert FirstNonSpace(r) == 0;
      assert EndNonSpace(r) == |r|;
    }
  }

  /** A non-blank string with whitespace padding on both sides trims to itself. */
  lemma TrimOfPadded(p: string, r: string, q: string)
    requires forall k :: 0 <= k < |p| ==> IsSpace(p[k])
    requires forall k :: 0 <= k < |q| ==> IsSpace(q[k])
    requires r != [] && !IsSpace(r[0]) && !IsSpace(r[|r| - 1])
    ensures TrimCopy(p + r + q) == r
  {
    var s := p + r + q;
    FirstNonSpaceUnique(s, |p|);
    EndNonSpaceUnique(s, |p| + |r|);
    assert s[|p|..|p| + |r|] == r;
  }

  /** The two-ended trimming examples of the string utility's tests. */
  lemma TrimExamples()
    ensures TrimCopy("  hello world  ") == "hello world"
    ensures TrimCopy("no_whitespace") == "no_whitespace"
  {
    FirstNonSpaceUnique("  hello world  ", 2);
    EndNonSpaceUnique("  hello world  ", 13);
    FirstNonSpaceUnique("no_whitespace", 0);
    EndNonSpaceUnique("no_whitespace", 13);
  }

  /** A string of whitespace only, and the empty string, trim to "". */
  lemma TrimBlankExamples()
    ensures TrimCopy("   \t\n ") == ""
    ensures TrimCopy("") == ""
  {
    assert IsSpace("   \t\n "[5]);
  }

  /** One-ended trimming, and a record line with its line feed. */
  lemma TrimEndExamples()
    ensures TrimLeftCopy("  hello") == "hello"
    ensures TrimRightCopy("hello  ") == "hello"
    ensures TrimCopy("id3 | tag1 | tag4 | tag5\n") == "id3 | tag1 | tag4 | tag5"
  {
    FirstNonSpaceUnique("  hello", 2);
    EndNonSpaceUnique("hello  ", 5);
    FirstNonSpaceUnique("id3 | tag1 | tag4 | tag5\n", 0);
    EndNonSpaceUnique("id3 | tag1 | tag4 | tag5\n", 24);
  }

  // ---- in-place trimming: the string after the erase is the method's result ----

  /** `trimLeft`: erases the leading whitespace of `s`; `t` is the string afterwards. */
  method TrimLeft(s: string) returns (t: string)
    ensures t == TrimLeftCopy(s)
  {
    var i := 0;
    while i < |s| && IsSpace(s[i])
      invariant 0 <= i <= |s|
      invariant forall k :: 0 <= k < i ==> IsSpace(s[k])
    {
      i := i + 1;
    }
    assert i == FirstNonSpace(s) by { FirstNonSpaceUnique(s, i); }
    t := s[i..];
  }

  /** `trimRight`: erases the trailing whitespace of `s`; `t` is the string afterwards. */
  method TrimRight(s: string) returns (t: string)
    ensures t == TrimRightCopy(s)
  {
    var j := |s|;
    while j > 0 && IsSpace(s[j - 1])
      invariant 0 <= j <= |s|
      invariant forall k :: j <= k < |s| ==> IsSpace(s[k])
    {
      j := j - 1;
    }
    assert j == EndNonSpace(s) by { EndNonSpaceUnique(s, j); }
    t := s[..j];
  }

  /** `trim`: trims the right end, then the left end, of `s`. */
  method Trim(s: string) returns (t: string)
    ensures t == TrimCopy(s)
  {
    var right := TrimRight(s);
    t := TrimLeft(right);
    TrimLeftOfTrimRight(s);
  }

  lemma FirstNonSpaceUnique(s: string, i: nat)
    requires i <= |s|
    requires forall k :: 0 <= k < i ==> IsSpace(s[k])
    requires i < |s| ==> !IsSpace(s[i])
    ensures i == FirstNonSpace(s)
  {
  }

  lemma EndNonSpaceUnique(s: string, j: nat)
    requires j <= |s|
    requires forall k :: j <= k < |s| ==> IsSpace(s[k])
    requires j > 0 ==> !IsSpace(s[j - 1])
    ensures j == EndNonSpace(s)
  {
  }
}
