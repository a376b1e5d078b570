/** The result both scanners of app.py promise: the start offsets of every
    occurrence of the pattern in the text, overlapping ones included, in
    increasing order. This module defines that list independently of either
    scanning algorithm and characterises it. */
module SearchSpec {

  /** The pattern p occurs in t starting at offset s. */
  predicate MatchesAt(t: string, p: string, s: int) {
    0 <= s && s + |p| <= |t| && t[s..s + |p|] == p
  }

  predicate StrictlyIncreasing(xs: seq<int>) {
    forall i, j :: 0 <= i < j < |xs| ==> xs[i] < xs[j]
  }

  /** The offsets below k at which p occurs in t, smallest first. */
  function OccurrencesBefore(t: string, p: string, k: nat): seq<nat> {
    if k == 0 then []
    else OccurrencesBefore(t, p, k - 1) + (if MatchesAt(t, p, k - 1) then [k - 1] else [])
  }

  /** Every occurrence of p in t: the offsets 0 .. |t|-|p| where p occurs;
      none for an empty pattern or a pattern longer than the text. */
  function Occurrences(t: string, p: string): seq<nat> {
    if |p| == 0 || |p| > |t| then [] else OccurrencesBefore(t, p, |t| - |p| + 1)
  }

  lemma {:induction false} OccurrencesBeforeSpec(t: string, p: string, k: nat)
    ensures forall s :: s in OccurrencesBefore(t, p, k) <==> s < k && MatchesAt(t, p, s)
    ensures StrictlyIncreasing(OccurrencesBefore(t, p, k))
  {
    if k > 0 {
      OccurrencesBeforeSpec(t, p, k - 1);
      var init := OccurrencesBefore(t, p, k - 1);
      forall i | 0 <= i < |init|
        ensures init[i] < k - 1
      {
        assert init[i] in init;
      }
    }
  }

  /** The list holds exactly the offsets where the pattern occurs, each once
      and in increasing order; it is empty for an empty text, an empty
      pattern, or a pattern longer than the text. */
  lemma OccurrencesSpec(t: string, p: string)
    ensures forall s :: s in Occurrences(t, p) <==> |p| > 0 && MatchesAt(t, p, s)
    ensures StrictlyIncreasing(Occurrences(t, p))
    ensures |t| == 0 || |p| == 0 || |p| > |t| ==> Occurrences(t, p) == []
  {
    if |p| > 0 && |p| <= |t| {
      OccurrencesBeforeSpec(t, p, |t| - |p| + 1);
    }
  }

  /** A strictly increasing list is determined by its elements, so the
      membership and ordering facts of OccurrencesSpec pin Occurrences down
      completely. */
  lemma {:induction false} StrictlyIncreasingUnique(xs: seq<int>, ys: seq<int>)
    requires StrictlyIncreasing(xs) && StrictlyIncreasing(ys)
    requires forall x :: x in xs <==> x in ys
    ensures xs == ys
  {
    if xs != [] {
      assert xs[0] in xs;
    }
    if ys != [] {
      assert ys[0] in ys;
    }
    if xs != [] {
      // the head of each list is the smallest element of both
      assert xs[0] == ys[0] by {
        var j :| 0 <= j < |ys| && ys[j] == xs[0];
        var i :| 0 <= i < |xs| && xs[i] == ys[0];
        assert ys[0] <= ys[j] && xs[0] <= xs[i];
      }
      forall x
        ensures x in xs[1..] <==> x in ys[1..]
      {
        if x in xs[1..] {
          var i :| 1 <= i < |xs| && xs[i] == x;
          assert x in xs && x != xs[0];
        }
        if x in ys[1..] {
          var i :| 1 <= i < |ys| && ys[i] == x;
          assert x in ys && x != ys[0];
        }
      }
      StrictlyIncreasingUnique(xs[1..], ys[1..]);
      assert xs == [xs[0]] + xs[1..];
      assert ys == [ys[0]] + ys[1..];
    }
  }

  /** p occurs at none of the offsets a .. b-1 of t. */
  ghost predicate NoMatchIn(t: string, p: string, a: int, b: int) {
    forall k :: a <= k < b ==> !MatchesAt(t, p, k)
  }

  /** Moving the end of the search over offsets where the pattern does not
      occur leaves the result unchanged. */
  lemma {:induction false} OccurrencesBeforeSkip(t: string, p: string, a: nat, b: nat)
    requires a <= b
    requires NoMatchIn(t, p, a, b)
    ensures OccurrencesBefore(t, p, a) == OccurrencesBefore(t, p, b)
    decreases b - a
  {
    if a < b {
      OccurrencesBeforeSkip(t, p, a, b - 1);
      assert !MatchesAt(t, p, b - 1);
    }
  }

  /** Once the scan position has passed the last window, the offsets found
      below it are all the occurrences. */
  lemma OccurrencesBeforePastEnd(t: string, p: string, k: nat)
    requires 1 <= |p| && k + |p| > |t|
    ensures OccurrencesBefore(t, p, k) == Occurrences(t, p)
  {
    if |p| <= |t| {
      OccurrencesBeforeSkip(t, p, |t| - |p| + 1, k);
    } else {
      OccurrencesBeforeSkip(t, p, 0, k);
    }
  }
}
