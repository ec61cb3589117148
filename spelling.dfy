/**
 * What the spell-check pass tags: for every unknown word, the spans the
 * left-to-right search visits.  The search looks for plain substrings, so a
 * misspelled word is also tagged where it occurs inside a longer word.
 */
module Spelling {
  import opened Basics
  import opened Search
  import Tokens

  /** Offsets of `s` covered by some scan match of some non-empty word of `ws`. */
  function Misspelt(s: string, ws: set<string>): (c: set<nat>)
    ensures forall i | i in c :: i < |s|
  {
    set w, i: nat | w in ws && |w| > 0 && i in Cover(s, w) :: i
  }

  /** Adding a word to the set adds exactly that word's covered offsets. */
  lemma MisspeltInsert(s: string, ws: set<string>, w: string)
    requires |w| > 0
    ensures Misspelt(s, ws + {w}) == Misspelt(s, ws) + Cover(s, w)
  {
  }

  /** `i` lies inside one of the spans the search visits for `w`. */
  ghost predicate InVisitedSpan(s: string, w: string, i: nat)
    requires |w| > 0
  {
    exists k :: 0 <= k < |Matches(s, w, 0)| &&
      Matches(s, w, 0)[k] <= i < Matches(s, w, 0)[k] + |w|
  }

  /**
   * An offset is tagged exactly when it lies inside a span that the search
   * visits for some unknown word (each such span is an in-bounds
   * occurrence of the word, by `Matches`).
   */
  lemma MisspeltExact(s: string, ws: set<string>, i: nat)
    ensures i in Misspelt(s, ws) <==> exists w | w in ws && |w| > 0 :: InVisitedSpan(s, w, i)
  {
    if exists w | w in ws && |w| > 0 :: InVisitedSpan(s, w, i) {
      var w :| w in ws && |w| > 0 && InVisitedSpan(s, w, i);
      SpanUnionMembers(Matches(s, w, 0), |w|, i);
      assert i in Cover(s, w);
    }
    if i in Misspelt(s, ws) {
      var w :| w in ws && |w| > 0 && i in Cover(s, w);
      SpanUnionMembers(Matches(s, w, 0), |w|, i);
      assert InVisitedSpan(s, w, i);
    }
  }

  /** Every word the dictionary rejects is tagged at least once, over an occurrence of it. */
  lemma UnknownWordTagged(s: string, ws: set<string>, w: string)
    requires w in ws && w in Tokens.Words(s)
    ensures exists p: nat :: MatchAt(s, w, p) && Range(p, p + |w|) <= Misspelt(s, ws)
  {
    Tokens.WordsAreRuns(s, w);
    var j: nat :| MatchAt(s, w, j);
    var k := MatchesComplete(s, w, 0, j);
    var p := Matches(s, w, 0)[k];
    assert MatchAt(s, w, p);
    forall i | i in Range(p, p + |w|) ensures i in Misspelt(s, ws) {
      SpanUnionMembers(Matches(s, w, 0), |w|, i);
      assert i in Cover(s, w);
    }
  }
}
