/** The replace step of app.py's main: each match, taken in order, is cut
    out of the text and the replacement put in its place, with an offset
    that tracks how far the earlier replacements have moved the text. */
module Replace {
  import opened Text
  import opened Splicing

  /** Python's `s[:a] + rep + s[b:]`: the text up to a, then rep, then the
      text from b. Bounds outside 0..|s| are normalised as Python does
      first. */
  function Cut(s: string, a: int, b: int, rep: string): string
    decreases if 0 <= a <= |s| && 0 <= b <= |s| then 0 else 1
  {
    if 0 <= a <= |s| && 0 <= b <= |s| then s[..a] + rep + s[b..]
    else Cut(s, SliceBound(a, |s|), SliceBound(b, |s|), rep)
  }

  /** Cut agrees with Python's slices taken one by one. */
  lemma CutIsSlices(s: string, a: int, b: int, rep: string)
    ensures Cut(s, a, b, rep) == Slice(s, 0, a) + rep + Slice(s, b, |s|)
  {
    if !(0 <= a <= |s| && 0 <= b <= |s|) {
      assert Slice(s, 0, a) == Slice(s, 0, SliceBound(a, |s|));
      assert Slice(s, b, |s|) == Slice(s, SliceBound(b, |s|), |s|);
    }
  }

  /** The L characters at `at` give way to rep; when they lie inside s, the
      text grows by |rep| - L. */
  function ReplaceAt(s: string, at: int, L: nat, rep: string): (r: string)
    ensures 0 <= at && at + L <= |s| ==> |r| == |s| - L + |rep|
  {
    Cut(s, at, at + L, rep)
  }

  /** The text the loop ends with when it is at match j, working on s,
      the earlier replacements having moved the text by offset. */
  function ReplacedFrom(s: string, ms: seq<nat>, j: nat, L: nat, rep: string, offset: int): string
    requires j <= |ms|
    decreases |ms| - j
  {
    if j == |ms| then s
    else ReplacedFrom(ReplaceAt(s, ms[j] + offset, L, rep), ms, j + 1, L, rep, offset + |rep| - L)
  }

  /** How far the first n replacements have moved the rest of the text,
      each by d. */
  function Moved(n: nat, d: int): int {
    if n == 0 then 0 else Moved(n - 1, d) + d
  }

  /** The text after the loop has replaced the first i matches: each
      earlier replacement has moved the text by |rep| - L. */
  function ReplacedBefore(text: string, L: nat, rep: string, ms: seq<nat>, i: nat): string
    requires i <= |ms|
    decreases i
  {
    if i == 0 then text
    else ReplaceAt(ReplacedBefore(text, L, rep, ms, i - 1), ms[i - 1] + Moved(i - 1, |rep| - L), L, rep)
  }

  /** The text after replacement, as main computes it from the matches
      found in the text. */
  function Replaced(text: string, L: nat, rep: string, ms: seq<nat>): (r: string)
    ensures ms == [] ==> r == text
  {
    ReplacedBefore(text, L, rep, ms, |ms|)
  }

  /** The loop of main that builds the text after replacement. */
  method ReplaceMatches(text: string, pattern: string, replacement: string, matches: seq<nat>)
    returns (newText: string)
    ensures newText == Replaced(text, |pattern|, replacement, matches)
  {
    newText := text;
    var offset: int := 0;
    for i := 0 to |matches|
      invariant newText == ReplacedBefore(text, |pattern|, replacement, matches, i)
      invariant offset == Moved(i, |replacement| - |pattern|)
    {
      var pos := matches[i];
      var adjustedPos := pos + offset;
      newText := ReplaceAt(newText, adjustedPos, |pattern|, replacement);
      offset := offset + |replacement| - |pattern|;
    }
  }

  /** The loop that has done i replacements and goes on from there ends
      as the whole loop does. */
  lemma {:induction false} ReplacedSplit(text: string, L: nat, rep: string, ms: seq<nat>, i: nat)
    requires i <= |ms|
    ensures ReplacedFrom(ReplacedBefore(text, L, rep, ms, i), ms, i, L, rep, Moved(i, |rep| - L))
            == ReplacedFrom(text, ms, 0, L, rep, 0)
    decreases i
  {
    if i == 0 {
      assert ReplacedBefore(text, L, rep, ms, 0) == text && Moved(0, |rep| - L) == 0;
    } else {
      var before := ReplacedBefore(text, L, rep, ms, i - 1);
      var after := ReplaceAt(before, ms[i - 1] + Moved(i - 1, |rep| - L), L, rep);
      calc {
        ReplacedFrom(ReplacedBefore(text, L, rep, ms, i), ms, i, L, rep, Moved(i, |rep| - L));
        ReplacedFrom(after, ms, i, L, rep, Moved(i, |rep| - L));
        { ReplaceStep(before, ms, i - 1, L, rep, Moved(i - 1, |rep| - L), Moved(i, |rep| - L)); }
        ReplacedFrom(before, ms, i - 1, L, rep, Moved(i - 1, |rep| - L));
        { ReplacedSplit(text, L, rep, ms, i - 1); }
        ReplacedFrom(text, ms, 0, L, rep, 0);
      }
    }
  }

  /** One turn of the loop: match j is replaced and the offset moves on. */
  lemma ReplaceStep(s: string, ms: seq<nat>, j: nat, L: nat, rep: string, offset: int, next: int)
    requires j < |ms| && next == offset + |rep| - L
    ensures ReplacedFrom(s, ms, j, L, rep, offset)
            == ReplacedFrom(ReplaceAt(s, ms[j] + offset, L, rep), ms, j + 1, L, rep, next)
  { }

  /** n copies of the replacement: the pieces that take the place of the
      matches. */
  function Repeat(rep: string, n: nat): (r: seq<string>)
    ensures |r| == n
  {
    if n == 0 then [] else [rep] + Repeat(rep, n - 1)
  }

  /** The first copy, then the others. */
  lemma RepeatFirst(rep: string, n: nat, m: nat)
    requires n == m + 1
    ensures Repeat(rep, n)[0] == rep && Repeat(rep, n)[1..] == Repeat(rep, m)
  {
    assert Repeat(rep, n) == [rep] + Repeat(rep, m);
  }

  /** Every copy is the replacement. */
  lemma {:induction false} RepeatAt(rep: string, n: nat, k: nat)
    requires k < n
    ensures Repeat(rep, n)[k] == rep
  {
    if k > 0 {
      RepeatAt(rep, n - 1, k - 1);
    }
  }

  /** With the matches sorted, inside the text and not overlapping, the
      loop replaces each match by the replacement and copies the text
      between them: from match j on, the text so far P followed by the
      rest of the text becomes P followed by the rest with its matches
      replaced. */
  lemma {:induction false} ReplaceIsSplice(text: string, L: nat, rep: string, ms: seq<nat>, j: nat,
                                           P: string, from: nat, s: string, offset: int)
    requires j <= |ms| && WellSpaced(ms[j..], L, from, |text|)
    requires s == P + text[from..] && offset == |P| - from
    ensures ReplacedFrom(s, ms, j, L, rep, offset) == P + Splice(text, L, ms[j..], Repeat(rep, |ms| - j), from)
    decreases |ms| - j
  {
    if j < |ms| {
      Rest(ms, j);
      SpliceFirst(text, L, ms[j..], Repeat(rep, |ms| - j), from);
      var P' := P + text[from..ms[j]] + rep;
      var s' := P' + text[ms[j] + L..];
      var offset' := |P'| - (ms[j] + L);
      ReplaceIsSplice(text, L, rep, ms, j + 1, P', ms[j] + L, s', offset');
      ReplaceLeftStep(text, L, rep, ms, j, P, from, s, offset, P', s', offset');
      ReplaceRightStep(text, L, rep, ms, j, P, from, P');
    } else {
      assert ms[j..] == [];
    }
  }

  /** The matches from j on: match j, then those from j + 1 on. */
  lemma Rest(ms: seq<nat>, j: nat)
    requires j < |ms|
    ensures ms[j..] != [] && ms[j..][0] == ms[j] && ms[j..][1..] == ms[j + 1..]
  { }

  /** The loop's side of the step of ReplaceIsSplice: match j replaced,
      the text so far grows by the text before it and by rep. */
  lemma ReplaceLeftStep(text: string, L: nat, rep: string, ms: seq<nat>, j: nat, P: string, from: nat,
                        s: string, offset: int, P': string, s': string, offset': int)
    requires j < |ms| && from <= ms[j] && ms[j] + L <= |text|
    requires s == P + text[from..] && offset == |P| - from
    requires P' == P + text[from..ms[j]] + rep && s' == P' + text[ms[j] + L..] && offset' == |P'| - (ms[j] + L)
    ensures ReplacedFrom(s, ms, j, L, rep, offset) == ReplacedFrom(s', ms, j + 1, L, rep, offset')
  {
    CutFirst(text, L, rep, P, from, ms[j], ms[j] + offset, s, P', s');
    ReplaceStep(s, ms, j, L, rep, offset, offset');
  }

  /** The splice's side of the step of ReplaceIsSplice. */
  lemma ReplaceRightStep(text: string, L: nat, rep: string, ms: seq<nat>, j: nat, P: string, from: nat, P': string)
    requires j < |ms| && WellSpaced(ms[j..], L, from, |text|)
    requires from <= ms[j] && ms[j] + L <= |text| && WellSpaced(ms[j + 1..], L, ms[j] + L, |text|)
    requires P' == P + text[from..ms[j]] + rep
    ensures P + Splice(text, L, ms[j..], Repeat(rep, |ms| - j), from)
            == P' + Splice(text, L, ms[j + 1..], Repeat(rep, |ms| - (j + 1)), ms[j] + L)
  {
    var pieces := Repeat(rep, |ms| - j);
    Rest(ms, j);
    SpliceFirst(text, L, ms[j..], pieces, from);
    RepeatFirst(rep, |ms| - j, |ms| - (j + 1));
    AppendAssoc(P, text[from..ms[j]], rep, Splice(text, L, ms[j + 1..], pieces[1..], ms[j] + L));
  }

  /** Replacing the match at m, with everything before `from` already done:
      the text up to the match joins the text so far, followed by rep. */
  lemma CutFirst(text: string, L: nat, rep: string, P: string, from: nat, m: nat, at: int,
                 s: string, P': string, s': string)
    requires from <= m && m + L <= |text| && at == m + |P| - from
    requires s == P + text[from..] && P' == P + text[from..m] + rep && s' == P' + text[m + L..]
    ensures ReplaceAt(s, at, L, rep) == s'
  {
    assert s[..at] == P + text[from..m];
    assert s[at + L..] == text[m + L..];
  }

  /** The loop's result is the text with every match replaced. */
  lemma ReplacedIsSplice(text: string, L: nat, rep: string, ms: seq<nat>)
    requires WellSpaced(ms, L, 0, |text|)
    ensures Replaced(text, L, rep, ms) == Splice(text, L, ms, Repeat(rep, |ms|), 0)
  {
    var done := ReplacedBefore(text, L, rep, ms, |ms|);
    ReplacedSplit(text, L, rep, ms, |ms|);
    assert ReplacedFrom(done, ms, |ms|, L, rep, Moved(|ms|, |rep| - L)) == done;
    var spliced := Splice(text, L, ms, Repeat(rep, |ms|), 0);
    assert ms[0..] == ms;
    assert [] + text[0..] == text;
    ReplaceIsSplice(text, L, rep, ms, 0, [], 0, text, 0);
    assert [] + spliced == spliced;
    assert ReplacedFrom(text, ms, 0, L, rep, 0) == spliced;
    assert Replaced(text, L, rep, ms) == done;
  }

  /** Everything after the k-th match moves by k times the difference in
      length between the replacement and the pattern. */
  lemma RepeatShift(rep: string, L: nat, n: nat, k: nat)
    requires k <= n
    ensures Shift(Repeat(rep, n), L, k) == k * (|rep| - L)
  {
    forall j | 0 <= j < n
      ensures |Repeat(rep, n)[j]| == |rep|
    {
      RepeatAt(rep, n, j);
    }
    ShiftUniform(Repeat(rep, n), L, |rep|, k);
  }

  /** The text grows by the difference in length for every match. */
  lemma ReplaceLength(text: string, L: nat, rep: string, ms: seq<nat>)
    requires WellSpaced(ms, L, 0, |text|)
    ensures |Replaced(text, L, rep, ms)| == |text| + |ms| * (|rep| - L)
  {
    ReplacedIsSplice(text, L, rep, ms);
    SpliceLength(text, L, ms, Repeat(rep, |ms|), 0);
    RepeatShift(rep, L, |ms|, |ms|);
  }

  /** The k-th match is replaced by rep, k times the difference in length
      right of where it was. */
  lemma ReplacePiece(text: string, L: nat, rep: string, ms: seq<nat>, k: nat)
    requires WellSpaced(ms, L, 0, |text|) && k < |ms|
    ensures 0 <= ms[k] + k * (|rep| - L)
    ensures ms[k] + k * (|rep| - L) + |rep| <= |Replaced(text, L, rep, ms)|
    ensures Replaced(text, L, rep, ms)[ms[k] + k * (|rep| - L)..ms[k] + k * (|rep| - L) + |rep|] == rep
  {
    var pieces := Repeat(rep, |ms|);
    ReplacedIsSplice(text, L, rep, ms);
    RepeatAt(rep, |ms|, k);
    RepeatShift(rep, L, |ms|, k);
    SplicePiece(text, L, ms, pieces, 0, k);
    var lo := ms[k] - 0 + Shift(pieces, L, k);
    SameSlice(Splice(text, L, ms, pieces, 0), Replaced(text, L, rep, ms), lo, lo + |pieces[k]|,
              ms[k] + k * (|rep| - L), ms[k] + k * (|rep| - L) + |rep|);
  }

  /** The text before the k-th match, back to the end of the one before, is
      copied unchanged, moved by k times the difference in length. */
  lemma ReplaceBefore(text: string, L: nat, rep: string, ms: seq<nat>, k: nat)
    requires WellSpaced(ms, L, 0, |text|) && k < |ms|
    ensures GapStart(ms, L, 0, k) <= ms[k] <= |text|
    ensures 0 <= GapStart(ms, L, 0, k) + k * (|rep| - L)
    ensures ms[k] + k * (|rep| - L) <= |Replaced(text, L, rep, ms)|
    ensures Replaced(text, L, rep, ms)[GapStart(ms, L, 0, k) + k * (|rep| - L)..ms[k] + k * (|rep| - L)]
            == text[GapStart(ms, L, 0, k)..ms[k]]
  {
    ReplacedIsSplice(text, L, rep, ms);
    RepeatShift(rep, L, |ms|, k);
    SpliceBefore(text, L, ms, Repeat(rep, |ms|), 0, k);
  }

  /** The text after the last match ends the result unchanged. */
  lemma ReplaceTail(text: string, L: nat, rep: string, ms: seq<nat>)
    requires WellSpaced(ms, L, 0, |text|)
    ensures GapStart(ms, L, 0, |ms|) <= |text|
    ensures 0 <= GapStart(ms, L, 0, |ms|) + |ms| * (|rep| - L) <= |Replaced(text, L, rep, ms)|
    ensures Replaced(text, L, rep, ms)[GapStart(ms, L, 0, |ms|) + |ms| * (|rep| - L)..]
            == text[GapStart(ms, L, 0, |ms|)..]
  {
    ReplacedIsSplice(text, L, rep, ms);
    RepeatShift(rep, L, |ms|, |ms|);
    SpliceTail(text, L, ms, Repeat(rep, |ms|), 0);
  }
}
