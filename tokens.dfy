/**
 * Maximal runs of characters of one class.  `re.findall(r'\b\w+\b', …)`
 * returns the maximal runs of word characters, and `str.split()` with no
 * argument returns the maximal runs of non-whitespace characters; both are
 * `RunSpans` with a different class.
 */
module Tokens {
  import opened Basics
  import Search

  /**
   * Python's `str.isspace` for one character.  Among ASCII characters it
   * holds for the six of `string.whitespace` and the four separators
   * U+001C..U+001F.
   */
  predicate IsSpace(c: char): (r: bool)
    ensures c as int < 128 ==> (r <==> c in " \t\n\r\U{B}\U{C}\U{1C}\U{1D}\U{1E}\U{1F}")
  {
    var n := c as int;
    (9 <= n <= 13) || (28 <= n <= 32) || n == 0x85 || n == 0xA0 || n == 0x1680 ||
    (0x2000 <= n <= 0x200A) || n == 0x2028 || n == 0x2029 || n == 0x202F ||
    n == 0x205F || n == 0x3000
  }

  predicate NotSpace(c: char) {
    !IsSpace(c)
  }

  /**
   * The regular-expression class `\w`, restricted to ASCII.  No word
   * character is whitespace, so every word lies inside one whitespace token.
   */
  predicate IsWordChar(c: char): (r: bool)
    ensures r ==> !IsSpace(c)
  {
    ('a' <= c <= 'z') || ('A' <= c <= 'Z') || ('0' <= c <= '9') || c == '_'
  }

  /** The end of the run of `p`-characters that starts at `i`. */
  function RunEnd(s: string, p: char -> bool, i: nat): (e: nat)
    requires i <= |s|
    ensures i <= e <= |s|
    ensures forall j :: i <= j < e ==> p(s[j])
    ensures e == |s| || !p(s[e])
    decreases |s| - i
  {
    if i < |s| && p(s[i]) then RunEnd(s, p, i + 1) else i
  }

  /** The runs of `p`-characters of `s[from..]`, left to right. */
  function RunSpans(s: string, p: char -> bool, from: nat): (spans: seq<Span>)
    requires from <= |s|
    ensures forall k :: 0 <= k < |spans| ==> from <= spans[k].start < spans[k].end <= |s|
    ensures forall k, l :: 0 <= k < l < |spans| ==> spans[k].end < spans[l].start
    decreases |s| - from
  {
    if from == |s| then []
    else if !p(s[from]) then RunSpans(s, p, from + 1)
    else
      var e := RunEnd(s, p, from);
      [Span(from, e)] + RunSpans(s, p, e)
  }

  /** `[a, b)` is a maximal run of `p`-characters of `s`. */
  ghost predicate IsMaximalRun(s: string, p: char -> bool, a: nat, b: nat) {
    && a < b <= |s|
    && (forall j :: a <= j < b ==> p(s[j]))
    && (a == 0 || !p(s[a - 1]))
    && (b == |s| || !p(s[b]))
  }

  /** `from` does not fall strictly inside a run. */
  ghost predicate AtBoundary(s: string, p: char -> bool, from: nat)
    requires from <= |s|
  {
    from == 0 || from == |s| || !p(s[from - 1]) || !p(s[from])
  }

  /** The spans found from a boundary are exactly the maximal runs that lie after it. */
  lemma {:induction false} RunSpansFromExact(s: string, p: char -> bool, from: nat, a: nat, b: nat)
    requires from <= |s| && AtBoundary(s, p, from)
    ensures Span(a, b) in RunSpans(s, p, from) <==> from <= a && IsMaximalRun(s, p, a, b)
    decreases |s| - from
  {
    if from == |s| {
    } else if !p(s[from]) {
      RunSpansFromExact(s, p, from + 1, a, b);
    } else {
      var e := RunEnd(s, p, from);
      assert RunSpans(s, p, from) == [Span(from, e)] + RunSpans(s, p, e);
      RunSpansFromExact(s, p, e, a, b);
      if from <= a && IsMaximalRun(s, p, a, b) && a != from {
        assert !p(s[a - 1]);
        assert e <= a - 1;
      }
      if a == from && IsMaximalRun(s, p, a, b) {
        assert !(b < e) && !(e < b);
      }
    }
  }

  /** The spans of the whole text are exactly its maximal runs. */
  lemma RunSpansExact(s: string, p: char -> bool, a: nat, b: nat)
    ensures Span(a, b) in RunSpans(s, p, 0) <==> IsMaximalRun(s, p, a, b)
  {
    RunSpansFromExact(s, p, 0, a, b);
  }

  /** The words handed to the dictionary: `re.findall(r'\b\w+\b', content)`. */
  function Words(s: string): (ws: seq<string>)
    ensures |ws| == |RunSpans(s, IsWordChar, 0)|
    ensures forall k :: 0 <= k < |ws| ==>
      var sp := RunSpans(s, IsWordChar, 0)[k];
      ws[k] == s[sp.start..sp.end]
  {
    var spans := RunSpans(s, IsWordChar, 0);
    seq(|spans|, k requires 0 <= k < |spans| => s[spans[k].start..spans[k].end])
  }

  /** Every word is a non-empty run of word characters that occurs in the text. */
  lemma WordsAreRuns(s: string, w: string)
    requires w in Words(s)
    ensures |w| > 0 && Search.Occurs(s, w)
    ensures forall c | c in w :: IsWordChar(c)
  {
    var ws := Words(s);
    var k :| 0 <= k < |ws| && ws[k] == w;
    var spans := RunSpans(s, IsWordChar, 0);
    var a, b := spans[k].start, spans[k].end;
    assert Span(a, b) in spans && w == s[a..b];
    RunSpansExact(s, IsWordChar, a, b);
    assert IsMaximalRun(s, IsWordChar, a, b);
    assert a + |w| == b && s[a..a + |w|] == w;
    Search.MatchAtSlice(s, w, a);
    SliceChars(s, IsWordChar, a, b);
  }

  lemma SliceChars(s: string, p: char -> bool, a: nat, b: nat)
    requires a <= b <= |s| && forall j :: a <= j < b ==> p(s[j])
    ensures forall c | c in s[a..b] :: p(c)
  {
    forall c | c in s[a..b] ensures p(c) {
      var j :| 0 <= j < b - a && s[a..b][j] == c;
      assert s[a..b][j] == s[a + j];
    }
  }

  /**
   * The status bar's word count: `len(content.split())`.  It is the number
   * of positions where a non-whitespace character follows whitespace or the
   * start of the text.
   */
  function WordCount(s: string): (n: nat)
    ensures n == StartsFrom(s, NotSpace, 0)
  {
    RunSpansCount(s, NotSpace, 0);
    |RunSpans(s, NotSpace, 0)|
  }

  /** A token starts at `i`: a `p`-character with none just before it. */
  predicate StartsRun(s: string, p: char -> bool, i: nat)
    requires i < |s|
  {
    p(s[i]) && (i == 0 || !p(s[i - 1]))
  }

  /** How many runs start in `s[from..]`, counted position by position. */
  function StartsFrom(s: string, p: char -> bool, from: nat): nat
    requires from <= |s|
    decreases |s| - from
  {
    if from == |s| then 0
    else (if StartsRun(s, p, from) then 1 else 0) + StartsFrom(s, p, from + 1)
  }

  /** Inside a run no further run starts. */
  lemma {:induction false} NoStartsInsideRun(s: string, p: char -> bool, i: nat, e: nat)
    requires 0 < i <= e <= |s|
    requires forall j :: i - 1 <= j < e ==> p(s[j])
    ensures StartsFrom(s, p, i) == StartsFrom(s, p, e)
    decreases e - i
  {
    if i < e {
      NoStartsInsideRun(s, p, i + 1, e);
    }
  }

  /** The number of runs found from a boundary is the number of run starts after it. */
  lemma {:induction false} RunSpansCount(s: string, p: char -> bool, from: nat)
    requires from <= |s| && AtBoundary(s, p, from)
    ensures |RunSpans(s, p, from)| == StartsFrom(s, p, from)
    decreases |s| - from
  {
    if from == |s| {
    } else if !p(s[from]) {
      RunSpansCount(s, p, from + 1);
    } else {
      var e := RunEnd(s, p, from);
      NoStartsInsideRun(s, p, from + 1, e);
      RunSpansCount(s, p, e);
    }
  }

  /** The tokens counted are exactly the maximal runs of non-whitespace. */
  lemma WordCountTokensExact(s: string, a: nat, b: nat)
    ensures Span(a, b) in RunSpans(s, NotSpace, 0) <==>
      a < b <= |s| && (forall j :: a <= j < b ==> !IsSpace(s[j])) &&
      (a == 0 || IsSpace(s[a - 1])) && (b == |s| || IsSpace(s[b]))
  {
    RunSpansExact(s, NotSpace, a, b);
  }
}
