/** `boyer_moore_search` of app.py: a bad-character-only (Horspool) scanner
    over the lower-cased text that reports overlapping occurrences. */
module BoyerMoore {
  import opened Text
  import opened SearchSpec
  import opened BadCharTable

  /** Compares each window from its last character to its first; after a
      full match it moves on by 1, after a mismatch by the table's entry for
      the window's last text character (L when it has none). The result is
      every occurrence, in increasing order. */
  method BoyerMooreSearch(text: string, pattern: string) returns (matches: seq<nat>)
    ensures matches == Occurrences(Lower(text), Lower(pattern))
  {
    var t := Lower(text);
    var p := Lower(pattern);
    matches := [];
    var patternLength := |p|;
    var textLength := |t|;

    if patternLength == 0 || textLength == 0 {
      return;
    }

    var badChar := BuildBadCharTable(p);
    LowerIdempotent(pattern);

    var shift: nat := 0;
    while shift <= textLength - patternLength
      invariant 0 <= shift
      invariant matches == OccurrencesBefore(t, p, shift)
      decreases textLength - shift
    {
      var mismatch := WindowMismatch(t, p, shift);
      if !mismatch {
        OccurrencesBeforeMatch(t, p, shift, matches);
        matches := matches + [shift];
        shift := shift + 1;
      } else {
        var c := t[shift + patternLength - 1];
        SkipKeepsInvariant(t, p, badChar, shift, c, matches);
        shift := shift + Skip(badChar, c, patternLength);
      }
    }
    OccurrencesBeforePastEnd(t, p, shift);
  }

  /** The inner loop of the scan: compares the window at `shift` with the
      pattern from the last position down to the first and stops at the first
      difference. It reports a mismatch exactly when the pattern does not
      occur at `shift`. */
  method WindowMismatch(t: string, p: string, shift: nat) returns (mismatch: bool)
    requires shift + |p| <= |t|
    ensures mismatch <==> !MatchesAt(t, p, shift)
  {
    mismatch := false;
    var i := |p| - 1;
    while i >= 0
      invariant -1 <= i < |p|
      invariant forall j :: i < j < |p| ==> t[shift + j] == p[j]
    {
      if p[i] != t[shift + i] {
        mismatch := true;
        assert t[shift..shift + |p|][i] != p[i];
        return;
      }
      i := i - 1;
    }
    assert t[shift..shift + |p|] == p;
  }

  /** Finding an occurrence at `shift` extends the list of those below it. */
  lemma OccurrencesBeforeMatch(t: string, p: string, shift: nat, found: seq<nat>)
    requires MatchesAt(t, p, shift) && found == OccurrencesBefore(t, p, shift)
    ensures found + [shift] == OccurrencesBefore(t, p, shift + 1)
  {
  }

  /** One mismatch step of the scan keeps its invariant: the occurrences
      below the new shift are those below the old one. */
  lemma SkipKeepsInvariant(t: string, p: string, table: map<char, int>, shift: nat, c: char, found: seq<nat>)
    requires |p| >= 1 && shift + |p| <= |t| && c == t[shift + |p| - 1]
    requires table == SkipTable(p)
    requires !MatchesAt(t, p, shift) && found == OccurrencesBefore(t, p, shift)
    ensures 1 <= Skip(table, c, |p|)
    ensures found == OccurrencesBefore(t, p, shift + Skip(table, c, |p|))
  {
    SkipTableSpec(p);
    SkipIsSafe(t, p, table, shift);
    OccurrencesBeforeSkip(t, p, shift, shift + Skip(table, c, |p|));
  }
}
