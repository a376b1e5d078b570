/** The "Search and Compare" action of app.py's page: check the inputs, run
    both scanners on the same text and pattern, compare their timings, show
    the text with the matches in bold and, on request, the text with the
    matches replaced. The page's widgets are not modelled: the inputs, the
    button presses and the two measured durations are parameters, and what
    the page would show is the returned Outcome. */
module Compare {
  import opened Text
  import opened SearchSpec
  import opened BoyerMoore
  import opened RabinKarp
  import opened Splicing
  import opened Highlight
  import opened Replace

  datatype Option<T> = None | Some(value: T)

  /** Which message the page shows about the two timings. */
  datatype Verdict = BoyerMooreFaster | RabinKarpFaster | Similar

  /** What one press of "Search and Compare" shows: an error for missing
      input, or both match lists (their lengths fill the comparison table),
      the timing verdict, the highlighted text when there are matches (the
      "No matches found!" warning otherwise) and the replaced text when a
      replacement was given and asked for. */
  datatype Outcome =
    | MissingInput
    | Compared(bmMatches: seq<nat>, rkMatches: seq<nat>, verdict: Verdict,
               highlighted: Option<string>, replaced: Option<string>)

  /** The timing message: the strictly faster scanner wins, equal times are
      reported as similar. */
  function Judge(bmTime: real, rkTime: real): (v: Verdict)
    ensures v == BoyerMooreFaster <==> bmTime < rkTime
    ensures v == RabinKarpFaster <==> rkTime < bmTime
    ensures v == Similar <==> bmTime == rkTime
  {
    if bmTime < rkTime then BoyerMooreFaster
    else if rkTime < bmTime then RabinKarpFaster
    else Similar
  }

  /** One press of "Search and Compare". `replacePressed` says whether
      "Replace Matches" counts as pressed in the same run; `bmTime` and
      `rkTime` are the durations the clock measured around the two scans. */
  method SearchAndCompare(text: string, pattern: string, replacement: string, replacePressed: bool,
                          bmTime: real, rkTime: real)
    returns (o: Outcome)
    ensures o.MissingInput? <==> |text| == 0 || |pattern| == 0
    ensures o.Compared? ==> o.bmMatches == Occurrences(Lower(text), Lower(pattern))
    ensures o.Compared? ==> o.rkMatches == o.bmMatches
    ensures o.Compared? ==> o.verdict == Judge(bmTime, rkTime)
    ensures o.Compared? ==> (o.highlighted.Some? <==> |o.bmMatches| > 0)
    ensures o.Compared? && o.highlighted.Some? ==>
              o.highlighted.value == Highlighted(text, |pattern|, o.bmMatches)
    ensures o.Compared? ==>
              (o.replaced.Some? <==> |o.bmMatches| > 0 && |replacement| > 0 && replacePressed)
    ensures o.Compared? && o.replaced.Some? ==>
              o.replaced.value == Replaced(text, |pattern|, replacement, o.bmMatches)
  {
    if |text| == 0 || |pattern| == 0 {
      return MissingInput;
    }
    var bmMatches := BoyerMooreSearch(text, pattern);
    var rkMatches := RabinKarpSearch(text, pattern);
    var verdict := Judge(bmTime, rkTime);
    var highlighted: Option<string> := None;
    var replaced: Option<string> := None;
    if |bmMatches| > 0 {
      var shown := HighlightMatches(text, pattern, bmMatches);
      highlighted := Some(shown);
      if |replacement| > 0 && replacePressed {
        var newText := ReplaceMatches(text, pattern, replacement, bmMatches);
        replaced := Some(newText);
      }
    }
    return Compared(bmMatches, rkMatches, verdict, highlighted, replaced);
  }

  /** The scanners search the lower-cased strings but report positions in
      the original text: s is reported exactly when the pattern fits in the
      text at s and the text there equals the pattern up to case. */
  lemma CaseInsensitiveMatch(text: string, pattern: string, s: int)
    ensures s in Occurrences(Lower(text), Lower(pattern)) <==>
              |pattern| > 0 && 0 <= s && s + |pattern| <= |text|
              && Lower(text[s..s + |pattern|]) == Lower(pattern)
  {
    if 0 <= s && s + |pattern| <= |text| {
      LowerSlice(text, s, s + |pattern|);
      MatchesAtSlice(Lower(text), Lower(pattern), s, s + |pattern|, Lower(text[s..s + |pattern|]));
    }
    OccurrenceAt(Lower(text), Lower(pattern), s);
  }

  /** OccurrencesSpec at one offset. */
  lemma OccurrenceAt(t: string, p: string, s: int)
    ensures s in Occurrences(t, p) <==> |p| > 0 && MatchesAt(t, p, s)
  {
    OccurrencesSpec(t, p);
  }

  /** MatchesAt for an offset where the pattern fits, given the window of
      the text it is compared with. */
  lemma MatchesAtSlice(t: string, p: string, s: int, e: int, window: string)
    requires 0 <= s && e == s + |p| && e <= |t| && window == t[s..e]
    ensures MatchesAt(t, p, s) <==> window == p
  {
  }

  /** When no two reported matches overlap, the match list meets the
      precondition of the layout lemmas of Highlight and Replace: the
      matches are sorted and lie inside the original text. */
  lemma {:induction false} NonOverlappingWellSpaced(text: string, pattern: string)
    requires forall k :: 0 < k < |Occurrences(Lower(text), Lower(pattern))| ==>
               Occurrences(Lower(text), Lower(pattern))[k - 1] + |pattern|
               <= Occurrences(Lower(text), Lower(pattern))[k]
    ensures WellSpaced(Occurrences(Lower(text), Lower(pattern)), |pattern|, 0, |text|)
  {
    var ms := Occurrences(Lower(text), Lower(pattern));
    OccurrencesSpec(Lower(text), Lower(pattern));
    forall k | 0 <= k < |ms|
      ensures 0 <= ms[k] && ms[k] + |pattern| <= |text|
    {
      assert ms[k] in ms;
    }
    WellSpacedIff(ms, |pattern|, 0, |text|);
  }

  /** Both scanners ignore case: "aBc" is found in "ABCabc" at 0 and 3. */
  lemma MixedCaseFound()
    ensures Occurrences(Lower("ABCabc"), Lower("aBc")) == [0, 3]
  {
    MixedCaseLowered();
    RepeatedFound();
  }

  lemma MixedCaseLowered()
    ensures Lower("ABCabc") == "abcabc" && Lower("aBc") == "abc"
  {
    assert Lower("abc") == "abc";
    assert Lower("Cabc") == "cabc";
    assert Lower("BCabc") == "bcabc";
    assert Lower("c") == "c";
    assert Lower("Bc") == "bc";
  }

  lemma RepeatedFound()
    ensures Occurrences("abcabc", "abc") == [0, 3]
  {
    var t, p := "abcabc", "abc";
    assert MatchesAt(t, p, 0) && MatchesAt(t, p, 3);
    assert !MatchesAt(t, p, 1) by { assert t[1..4][0] != p[0]; }
    assert !MatchesAt(t, p, 2) by { assert t[2..5][0] != p[0]; }
    assert OccurrencesBefore(t, p, 1) == [0];
    assert OccurrencesBefore(t, p, 3) == [0];
  }

  /** A pattern whose occurrences overlap: in "aaa" the pattern "aa" is
      found at 0 and at 1. */
  lemma OverlapFound()
    ensures Occurrences(Lower("aaa"), Lower("aa")) == [0, 1]
  {
    assert Lower("aaa") == "aaa" && Lower("aa") == "aa";
    assert MatchesAt("aaa", "aa", 0) && MatchesAt("aaa", "aa", 1);
    assert OccurrencesBefore("aaa", "aa", 1) == [0];
  }

  /** Highlighting the overlapping matches of OverlapFound repeats the
      shared "a": the result shows both matches in full. */
  lemma OverlapHighlighted()
    ensures Highlighted("aaa", 2, [0, 1]) == "**aa****aa**"
  {
    var text, ms := "aaa", [0, 1];
    var bold := Wrap(Slice(text, 0, 2));
    assert bold == "**aa**" by {
      assert Slice(text, 0, 2) == "aa";
    }
    assert Wrap(Slice(text, 1, 3)) == bold by {
      assert Slice(text, 1, 3) == "aa";
    }
    var one := PartsBefore(text, 2, ms, 1);
    assert one == [Slice(text, 0, 0), bold];
    var two := PartsBefore(text, 2, ms, 2);
    assert two == one + [Slice(text, 2, 1)] + [bold];
    assert Join(one) == bold by {
      assert Slice(text, 0, 0) == "";
      JoinAppend([Slice(text, 0, 0)], bold);
      JoinAppend([], Slice(text, 0, 0));
      assert [Slice(text, 0, 0)] + [bold] == one;
      assert [] + [Slice(text, 0, 0)] == [Slice(text, 0, 0)];
    }
    assert Join(two) == bold + bold by {
      assert Slice(text, 2, 1) == "";
      JoinAppend(one + [Slice(text, 2, 1)], bold);
      JoinAppend(one, Slice(text, 2, 1));
    }
    assert Join(two + [Slice(text, 3, 3)]) == bold + bold by {
      assert Slice(text, 3, 3) == "";
      JoinAppend(two, Slice(text, 3, 3));
    }
    assert GapStart(ms, 2, 0, 2) == 3;
  }

  /** Replacing the overlapping matches of OverlapFound by "b" leaves just
      "b": the second replacement starts inside the first one's result and
      removes the rest of the text. */
  lemma OverlapReplaced()
    ensures Replaced("aaa", 2, "b", [0, 1]) == "b"
  {
    var ms: seq<nat> := [0, 1];
    assert ReplacedBefore("aaa", 2, "b", ms, 1) == "ba";
  }

  /** Two separate matches: replacing both occurrences of "abc" in "abcabc"
      by "X" gives "XX". */
  lemma SeparateReplaced()
    ensures Replaced("abcabc", 3, "X", [0, 3]) == "XX"
  {
    assert ReplacedBefore("abcabc", 3, "X", [0, 3], 1) == "Xabc";
  }
}
