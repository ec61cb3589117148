/**
 * The text widget's forward exact search, and the left-to-right,
 * non-overlapping scan built on it: find a match, continue right after
 * its end.  Both the spell-check tagging loop and `str.replace` walk a
 * string this way.
 */
module Search {
  import opened Basics

  /** `w` occurs in `s` at offset `i`: its characters agree one by one with those from `i` on. */
  predicate MatchAt(s: string, w: string, i: nat)
    decreases |w|
  {
    i + |w| <= |s| && (w == [] || (s[i] == w[0] && MatchAt(s, w[1..], i + 1)))
  }

  /** The same, as a comparison of `w` with the slice of `s` it would cover. */
  lemma {:induction false} MatchAtSlice(s: string, w: string, i: nat)
    ensures MatchAt(s, w, i) <==> i + |w| <= |s| && s[i..i + |w|] == w
    decreases |w|
  {
    if w != [] && i + |w| <= |s| {
      MatchAtSlice(s, w[1..], i + 1);
      assert s[i..i + |w|] == [s[i]] + s[i + 1..i + 1 + |w[1..]|];
      assert w == [w[0]] + w[1..];
    }
  }

  /** `w` occurs somewhere in `s` (the empty string occurs everywhere). */
  ghost predicate Occurs(s: string, w: string) {
    exists i: nat :: MatchAt(s, w, i)
  }

  /**
   * First offset at or after `from` where `w` occurs, or None when there is
   * none before the end of the buffer.
   */
  function FindFrom(s: string, w: string, from: nat): (r: Option<nat>)
    ensures r.Some? ==> from <= r.value && MatchAt(s, w, r.value)
    decreases |s| - from
  {
    if |s| < from + |w| then None
    else if MatchAt(s, w, from) then Some(from)
    else FindFrom(s, w, from + 1)
  }

  /** The search skips no occurrence: it finds one at or before any occurrence at or after `from`. */
  lemma {:induction false} FindFromFirst(s: string, w: string, from: nat, j: nat)
    requires from <= j && MatchAt(s, w, j)
    ensures FindFrom(s, w, from).Some? && FindFrom(s, w, from).value <= j
    decreases j - from
  {
    if !MatchAt(s, w, from) {
      FindFromFirst(s, w, from + 1, j);
    }
  }

  /**
   * The start offsets the scan visits: the first match at or after `from`,
   * then the first match at or after its end, and so on.
   */
  function Matches(s: string, w: string, from: nat): (ms: seq<nat>)
    requires |w| > 0
    ensures forall k :: 0 <= k < |ms| ==> from <= ms[k] && MatchAt(s, w, ms[k])
    decreases |s| - from
  {
    match FindFrom(s, w, from)
    case None => []
    case Some(p) => [p] + Matches(s, w, p + |w|)
  }

  /** One step of the scan: a match found at `p` is followed by the scan from its end. */
  lemma MatchesStep(s: string, w: string, from: nat, p: nat)
    requires |w| > 0 && FindFrom(s, w, from) == Some(p)
    ensures Matches(s, w, from) == [p] + Matches(s, w, p + |w|)
  {
  }

  /** Spans of length `n` starting at `ms` are disjoint and in increasing order. */
  ghost predicate Spaced(ms: seq<nat>, n: nat) {
    forall k, l :: 0 <= k < l < |ms| ==> ms[k] + n <= ms[l]
  }

  lemma SpacedCons(p: nat, tail: seq<nat>, n: nat)
    requires Spaced(tail, n)
    requires forall t :: 0 <= t < |tail| ==> p + n <= tail[t]
    ensures Spaced([p] + tail, n)
  {
    var ms := [p] + tail;
    forall k, l | 0 <= k < l < |ms|
      ensures ms[k] + n <= ms[l]
    {
      assert ms[l] == tail[l - 1];
      if k > 0 {
        assert ms[k] == tail[k - 1];
      }
    }
  }

  /** The spans the scan takes do not overlap and come in increasing order. */
  lemma {:induction false} MatchesSpaced(s: string, w: string, from: nat)
    requires |w| > 0
    ensures Spaced(Matches(s, w, from), |w|)
    decreases |s| - from
  {
    if FindFrom(s, w, from).Some? {
      var p := FindFrom(s, w, from).value;
      MatchesStep(s, w, from, p);
      MatchesSpaced(s, w, p + |w|);
      SpacedCons(p, Matches(s, w, p + |w|), |w|);
    }
  }

  /**
   * One round of a loop that has taken the matches `done` and resumes at
   * `start`: the match found there is the next one the scan takes.
   */
  lemma ScanAdvance(s: string, w: string, done: seq<nat>, start: nat, p: nat)
    requires |w| > 0 && FindFrom(s, w, start) == Some(p)
    requires Matches(s, w, 0) == done + Matches(s, w, start)
    ensures Matches(s, w, 0) == (done + [p]) + Matches(s, w, p + |w|)
  {
    var rest := Matches(s, w, p + |w|);
    MatchesStep(s, w, start, p);
    assert done + ([p] + rest) == (done + [p]) + rest;
  }

  /** When the search from `start` fails, the loop has taken every match. */
  lemma ScanEnd(s: string, w: string, done: seq<nat>, start: nat)
    requires |w| > 0 && FindFrom(s, w, start).None?
    requires Matches(s, w, 0) == done + Matches(s, w, start)
    ensures Matches(s, w, 0) == done
  {
  }

  /**
   * The scan misses no occurrence except those that overlap a match it
   * already took: every occurrence at or after `from` lies inside one of
   * the spans of `Matches`.
   */
  lemma {:induction false} MatchesComplete(s: string, w: string, from: nat, j: nat) returns (k: nat)
    requires |w| > 0 && from <= j && MatchAt(s, w, j)
    ensures k < |Matches(s, w, from)| && Matches(s, w, from)[k] <= j < Matches(s, w, from)[k] + |w|
    decreases |s| - from
  {
    FindFromFirst(s, w, from, j);
    var p := FindFrom(s, w, from).value;
    var ms := Matches(s, w, from);
    var tail := Matches(s, w, p + |w|);
    MatchesStep(s, w, from, p);
    if j < p + |w| {
      k := 0;
    } else {
      var t := MatchesComplete(s, w, p + |w|, j);
      assert ms[t + 1] == tail[t];
      k := t + 1;
    }
  }

  /**
   * The scan takes exactly the occurrences that do not overlap an earlier
   * taken one: an occurrence at `j` that no taken span straddles is taken.
   */
  lemma MatchesExact(s: string, w: string, j: nat)
    requires |w| > 0 && MatchAt(s, w, j)
    requires forall k :: 0 <= k < |Matches(s, w, 0)| ==>
      !(Matches(s, w, 0)[k] < j < Matches(s, w, 0)[k] + |w|)
    ensures j in Matches(s, w, 0)
  {
    var k := MatchesComplete(s, w, 0, j);
  }

  /** The offsets covered by spans of length `n` starting at each of `ps`. */
  function SpanUnion(ps: seq<nat>, n: nat): set<nat> {
    if ps == [] then {}
    else SpanUnion(ps[..|ps| - 1], n) + Range(ps[|ps| - 1], ps[|ps| - 1] + n)
  }

  /** An offset is covered exactly when it lies in one of the spans. */
  lemma {:induction false} SpanUnionMembers(ps: seq<nat>, n: nat, i: nat)
    ensures i in SpanUnion(ps, n) <==> exists k :: 0 <= k < |ps| && ps[k] <= i < ps[k] + n
    decreases |ps|
  {
    if ps != [] {
      var front := ps[..|ps| - 1];
      SpanUnionMembers(front, n, i);
      assert forall k :: 0 <= k < |front| ==> front[k] == ps[k];
    }
  }

  /** Spans that all end by `bound` cover only offsets below it. */
  lemma {:induction false} SpanUnionBelow(ps: seq<nat>, n: nat, bound: nat)
    requires forall k :: 0 <= k < |ps| ==> ps[k] + n <= bound
    ensures forall i | i in SpanUnion(ps, n) :: i < bound
    decreases |ps|
  {
    if ps != [] {
      SpanUnionBelow(ps[..|ps| - 1], n, bound);
    }
  }

  lemma SpanUnionAppend(ps: seq<nat>, p: nat, n: nat)
    ensures SpanUnion(ps + [p], n) == SpanUnion(ps, n) + Range(p, p + n)
  {
    assert (ps + [p])[..|ps|] == ps;
  }

  /** The offsets of `s` covered by the scan's matches of `w`. */
  function Cover(s: string, w: string): (c: set<nat>)
    requires |w| > 0
    ensures forall i | i in c :: i < |s|
  {
    var ms := Matches(s, w, 0);
    SpanUnionBelow(ms, |w|, |s|);
    SpanUnion(ms, |w|)
  }
}
