/**
 * Python's `str.replace(old, new)` with no count: every non-overlapping
 * occurrence of `old`, found left to right, is replaced by `new`.  An
 * empty `old` matches before every character and at the end.
 */
module StrReplace {
  import opened Basics
  import opened Search

  /** `new` inserted before every character of `s` and after the last one. */
  function Interleave(s: string, r: string): string {
    if s == [] then r else r + [s[0]] + Interleave(s[1..], r)
  }

  /** Replacement of the scan's matches of a non-empty `f` in `s[from..]`. */
  function ReplaceFrom(s: string, f: string, r: string, from: nat): string
    requires |f| > 0 && from <= |s|
    decreases |s| - from
  {
    match FindFrom(s, f, from)
    case None => s[from..]
    case Some(p) => s[from..p] + r + ReplaceFrom(s, f, r, p + |f|)
  }

  /**
   * `s.replace(f, r)`: each substitution changes the length by
   * `|r| - |f|`, and there are `s.count(f)` of them.
   */
  function Replace(s: string, f: string, r: string): (t: string)
    ensures |t| == |s| + Count(s, f) * (|r| - |f|)
  {
    if f == [] then
      InterleaveLength(s, r);
      Interleave(s, r)
    else
      ReplaceFromLength(s, f, r, 0);
      ReplaceFrom(s, f, r, 0)
  }

  /**
   * Python's `str.count(old)`: the number of occurrences `replace`
   * substitutes.  It is zero exactly when `old` does not occur (the empty
   * string occurs everywhere).
   */
  function Count(s: string, f: string): (c: nat)
    ensures c == 0 <==> !Occurs(s, f)
  {
    if f == [] then
      assert MatchAt(s, f, 0);
      |s| + 1
    else
      CountedOccurrences(s, f);
      |Matches(s, f, 0)|
  }

  /** The scan takes some match exactly when the word occurs. */
  lemma CountedOccurrences(s: string, f: string)
    requires |f| > 0
    ensures Matches(s, f, 0) != [] <==> Occurs(s, f)
  {
    if Occurs(s, f) {
      var j: nat :| MatchAt(s, f, j);
      FindFromFirst(s, f, 0, j);
      MatchesStep(s, f, 0, FindFrom(s, f, 0).value);
    }
  }

  lemma {:induction false} InterleaveLength(s: string, r: string)
    ensures |Interleave(s, r)| == |s| + (|s| + 1) * |r|
  {
    if s != [] {
      InterleaveLength(s[1..], r);
      calc {
        |Interleave(s, r)|;
        |r| + 1 + |s[1..]| + (|s[1..]| + 1) * |r|;
        { assert |s[1..]| + 1 == |s|; }
        1 + |s[1..]| + (|s| + 1) * |r|;
      }
    }
  }

  lemma {:induction false} ReplaceFromLength(s: string, f: string, r: string, from: nat)
    requires |f| > 0 && from <= |s|
    ensures |ReplaceFrom(s, f, r, from)| == |s| - from + |Matches(s, f, from)| * (|r| - |f|)
    decreases |s| - from
  {
    var found := FindFrom(s, f, from);
    if found.Some? {
      var p := found.value;
      var rest := ReplaceFrom(s, f, r, p + |f|);
      assert ReplaceFrom(s, f, r, from) == s[from..p] + r + rest;
      assert Matches(s, f, from) == [p] + Matches(s, f, p + |f|);
      ReplaceFromLength(s, f, r, p + |f|);
      MulSucc(|Matches(s, f, p + |f|)|, |r| - |f|);
    }
  }

  lemma MulSucc(k: int, d: int)
    ensures (k + 1) * d == k * d + d
  {
  }

  /** When `old` does not occur, the text is unchanged. */
  lemma ReplaceAbsent(s: string, f: string, r: string)
    requires !Occurs(s, f)
    ensures Replace(s, f, r) == s
  {
    assert MatchAt(s, [], 0);
    assert FindFrom(s, f, 0).None?;
  }

  lemma {:induction false} InterleaveEmpty(s: string)
    ensures Interleave(s, []) == s
  {
    if s != [] {
      InterleaveEmpty(s[1..]);
    }
  }

  lemma {:induction false} ReplaceFromSelf(s: string, f: string, from: nat)
    requires |f| > 0 && from <= |s|
    ensures ReplaceFrom(s, f, f, from) == s[from..]
    decreases |s| - from
  {
    match FindFrom(s, f, from)
    case None =>
    case Some(p) =>
      ReplaceFromSelf(s, f, p + |f|);
      MatchAtSlice(s, f, p);
      assert s[from..] == s[from..p] + s[p..p + |f|] + s[p + |f|..];
  }

  /** Replacing a string by itself leaves the text unchanged. */
  lemma ReplaceSelf(s: string, f: string)
    ensures Replace(s, f, f) == s
  {
    if f == [] {
      InterleaveEmpty(s);
    } else {
      ReplaceFromSelf(s, f, 0);
    }
  }
}
