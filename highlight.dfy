/** highlight_matches of app.py: every match is shown in bold by putting the
    Markdown marker "**" on both sides of it, the rest of the text is copied. */
module Highlight {
  import opened Text
  import opened Splicing

  /** A stretch of text between two bold markers. */
  function Wrap(s: string): (r: string)
    ensures |r| == |s| + 4
  {
    "**" + s + "**"
  }

  /** The parts highlight_matches collects for the matches ms when the
      previous match ended at `last`: the text before each match and the
      match in bold, then the rest of the text. Python's clamping slices make
      it total, whatever the positions are. */
  function HighlightParts(text: string, L: nat, ms: seq<nat>, last: int): seq<string>
    decreases |ms|
  {
    if ms == [] then [Slice(text, last, |text|)]
    else [Slice(text, last, ms[0]), Wrap(Slice(text, ms[0], ms[0] + L))] + HighlightParts(text, L, ms[1..], ms[0] + L)
  }

  /** The parts highlight_matches has collected once it has handled the
      first i matches: the text before each match and the match in bold. */
  function PartsBefore(text: string, L: nat, ms: seq<nat>, i: nat): seq<string>
    requires i <= |ms|
    decreases i
  {
    if i == 0 then []
    else PartsBefore(text, L, ms, i - 1) + [Slice(text, GapStart(ms, L, 0, i - 1), ms[i - 1])]
           + [Wrap(Slice(text, ms[i - 1], ms[i - 1] + L))]
  }

  /** What highlight_matches returns: the collected parts and the rest of the
      text after the last match, joined. Without matches that is the text
      itself, the value of highlight_matches's early return. */
  function Highlighted(text: string, L: nat, ms: seq<nat>): (r: string)
    ensures ms == [] ==> r == text
  {
    JoinAppend([], text);
    Join(PartsBefore(text, L, ms, |ms|) + [Slice(text, GapStart(ms, L, 0, |ms|), |text|)])
  }

  /** The bold pieces that take the place of the matches. */
  function WrapPieces(text: string, L: nat, ms: seq<nat>): (r: seq<string>)
    ensures |r| == |ms|
    decreases |ms|
  {
    if ms == [] then [] else [Wrap(Slice(text, ms[0], ms[0] + L))] + WrapPieces(text, L, ms[1..])
  }

  /** highlight_matches: without matches the text itself; otherwise, for
      each match, the text since the end of the previous one and the match
      in bold, then the rest of the text, joined. */
  method HighlightMatches(text: string, pattern: string, matches: seq<nat>) returns (r: string)
    ensures |matches| == 0 ==> r == text
    ensures r == Highlighted(text, |pattern|, matches)
  {
    if |matches| == 0 {
      return text;
    }
    var result: seq<string> := [];
    var lastPos: int := 0;
    var patternLength := |pattern|;
    for i := 0 to |matches|
      invariant result == PartsBefore(text, patternLength, matches, i)
      invariant lastPos == GapStart(matches, patternLength, 0, i)
    {
      var pos := matches[i];
      result := result + [Slice(text, lastPos, pos)];
      result := result + [Wrap(Slice(text, pos, pos + patternLength))];
      lastPos := pos + patternLength;
    }
    result := result + [Slice(text, lastPos, |text|)];
    r := Join(result);
  }

  /** The collected parts followed by the parts still to come are the parts
      of the whole text, whatever the number of matches handled. */
  lemma {:induction false} PartsSplit(text: string, L: nat, ms: seq<nat>, i: nat)
    requires i <= |ms|
    ensures PartsBefore(text, L, ms, i) + HighlightParts(text, L, ms[i..], GapStart(ms, L, 0, i))
            == HighlightParts(text, L, ms, 0)
    decreases i
  {
    if i == 0 {
      assert ms[0..] == ms;
    } else {
      PartsSplit(text, L, ms, i - 1);
      PartsMove(text, L, ms, i);
    }
  }

  /** Moving match i-1 from the parts still to come to the collected ones
      keeps the whole. */
  lemma PartsMove(text: string, L: nat, ms: seq<nat>, i: nat)
    requires 0 < i <= |ms|
    ensures PartsBefore(text, L, ms, i) + HighlightParts(text, L, ms[i..], GapStart(ms, L, 0, i))
            == PartsBefore(text, L, ms, i - 1) + HighlightParts(text, L, ms[i - 1..], GapStart(ms, L, 0, i - 1))
  {
    PartsFront(text, L, ms, i - 1);
    PartsStep(text, L, ms, i);
    MovePair(PartsBefore(text, L, ms, i - 1), PartsBefore(text, L, ms, i),
             Slice(text, GapStart(ms, L, 0, i - 1), ms[i - 1]), Wrap(Slice(text, ms[i - 1], ms[i - 1] + L)),
             HighlightParts(text, L, ms[i..], GapStart(ms, L, 0, i)),
             HighlightParts(text, L, ms[i - 1..], GapStart(ms, L, 0, i - 1)),
             PartsBefore(text, L, ms, i - 1) + HighlightParts(text, L, ms[i - 1..], GapStart(ms, L, 0, i - 1)));
  }

  /** Handling match i-1 adds the text before it and the match in bold to
      the collected parts. */
  lemma PartsStep(text: string, L: nat, ms: seq<nat>, i: nat)
    requires 0 < i <= |ms|
    ensures PartsBefore(text, L, ms, i)
            == PartsBefore(text, L, ms, i - 1) + [Slice(text, GapStart(ms, L, 0, i - 1), ms[i - 1])]
               + [Wrap(Slice(text, ms[i - 1], ms[i - 1] + L))]
  {
  }

  /** The parts still to come from match j on start with the text before
      match j and match j in bold. */
  lemma PartsFront(text: string, L: nat, ms: seq<nat>, j: nat)
    requires j < |ms|
    ensures j + 1 <= |ms|
    ensures HighlightParts(text, L, ms[j..], GapStart(ms, L, 0, j))
            == [Slice(text, GapStart(ms, L, 0, j), ms[j]), Wrap(Slice(text, ms[j], ms[j] + L))]
               + HighlightParts(text, L, ms[j + 1..], GapStart(ms, L, 0, j + 1))
  {
    assert ms[j..][0] == ms[j] && ms[j..][1..] == ms[j + 1..];
  }

  /** The loop's result is the front-to-back reading of the parts. */
  lemma HighlightedParts(text: string, L: nat, ms: seq<nat>)
    ensures Highlighted(text, L, ms) == Join(HighlightParts(text, L, ms, 0))
  {
    PartsSplit(text, L, ms, |ms|);
    assert ms[|ms|..] == [];
  }

  /** Moving the first two of the parts still to come onto the end of the
      collected ones keeps the whole. */
  lemma MovePair(result: seq<string>, result': seq<string>, a: string, b: string, later: seq<string>,
                 toCome: seq<string>, whole: seq<string>)
    requires result' == result + [a] + [b]
    requires toCome == [a, b] + later
    requires result + toCome == whole
    ensures result' + later == whole
  {
    assert result + [a] + [b] + later == result + ([a, b] + later);
  }

  /** With the matches sorted, inside the text and not overlapping, the
      highlighted text is the text with each match replaced by its bold
      form. */
  lemma {:induction false} HighlightIsSplice(text: string, L: nat, ms: seq<nat>, pieces: seq<string>, from: nat)
    requires WellSpaced(ms, L, from, |text|) && pieces == WrapPieces(text, L, ms)
    ensures Join(HighlightParts(text, L, ms, from)) == Splice(text, L, ms, pieces, from)
    decreases |ms|
  {
    if ms == [] {
      assert Slice(text, from, |text|) == text[from..];
      assert Join([text[from..]]) == Join([]) + text[from..];
    } else {
      SpliceFirst(text, L, ms, pieces, from);
      var gap, bold := text[from..ms[0]], Wrap(text[ms[0]..ms[0] + L]);
      var later := HighlightParts(text, L, ms[1..], ms[0] + L);
      assert pieces[1..] == WrapPieces(text, L, ms[1..]);
      HighlightIsSplice(text, L, ms[1..], pieces[1..], ms[0] + L);
      assert pieces[0] == bold;
      assert HighlightParts(text, L, ms, from) == [gap, bold] + later;
      JoinConcat([gap, bold], later);
      JoinPair(gap, bold);
      assert Join(HighlightParts(text, L, ms, from)) == (gap + bold) + Join(later);
      assert Join(HighlightParts(text, L, ms, from)) == Splice(text, L, ms, pieces, from);
    }
  }

  /** Joining two parts. */
  lemma JoinPair(a: string, b: string)
    ensures Join([a, b]) == a + b
  {
    assert [a, b][..1] == [a];
    assert Join([a]) == Join([]) + a;
  }

  /** The k-th bold piece is the k-th match between markers. */
  lemma {:induction false} WrapPieceAt(text: string, L: nat, ms: seq<nat>, from: nat, k: nat)
    requires WellSpaced(ms, L, from, |text|) && k < |ms|
    ensures from <= ms[k] && ms[k] + L <= |text| && WrapPieces(text, L, ms)[k] == Wrap(text[ms[k]..ms[k] + L])
    decreases k
  {
    if k > 0 {
      WrapPieceAt(text, L, ms[1..], ms[0] + L, k - 1);
      assert WrapPieces(text, L, ms)[k] == WrapPieces(text, L, ms[1..])[k - 1];
      assert ms[1..][k - 1] == ms[k];
    }
  }

  /** Each bold piece is four characters longer than a match. */
  lemma WrapPiecesUniform(text: string, L: nat, ms: seq<nat>, from: nat)
    requires WellSpaced(ms, L, from, |text|)
    ensures Uniform(WrapPieces(text, L, ms), L + 4)
  {
    forall k | 0 <= k < |ms|
      ensures |WrapPieces(text, L, ms)[k]| == L + 4
    {
      WrapPieceAt(text, L, ms, from, k);
    }
  }

  /** The first k bold pieces add 4k characters: whatever follows them
      moves right by 4k. */
  lemma WrapShift(text: string, L: nat, ms: seq<nat>, k: nat)
    requires WellSpaced(ms, L, 0, |text|) && k <= |ms|
    ensures Shift(WrapPieces(text, L, ms), L, k) == 4 * k
  {
    WrapPiecesUniform(text, L, ms, 0);
    ShiftUniform(WrapPieces(text, L, ms), L, L + 4, k);
  }

  /** With the matches sorted, inside the text and not overlapping, the
      highlighted text is the text with each match replaced by its bold
      form. */
  lemma HighlightedIsSplice(text: string, L: nat, ms: seq<nat>)
    requires WellSpaced(ms, L, 0, |text|)
    ensures Highlighted(text, L, ms) == Splice(text, L, ms, WrapPieces(text, L, ms), 0)
  {
    HighlightedParts(text, L, ms);
    HighlightIsSplice(text, L, ms, WrapPieces(text, L, ms), 0);
  }

  /** Highlighting adds exactly the four marker characters per match. */
  lemma HighlightLength(text: string, L: nat, ms: seq<nat>)
    requires WellSpaced(ms, L, 0, |text|)
    ensures |Highlighted(text, L, ms)| == |text| + 4 * |ms|
  {
    HighlightedIsSplice(text, L, ms);
    SpliceLength(text, L, ms, WrapPieces(text, L, ms), 0);
    WrapShift(text, L, ms, |ms|);
  }

  /** The k-th match appears in bold, 4k characters right of where it was. */
  lemma HighlightPiece(text: string, L: nat, ms: seq<nat>, k: nat)
    requires WellSpaced(ms, L, 0, |text|) && k < |ms|
    ensures ms[k] + L <= |text| && ms[k] + 4 * k + L + 4 <= |Highlighted(text, L, ms)|
    ensures Highlighted(text, L, ms)[ms[k] + 4 * k..ms[k] + 4 * k + L + 4] == Wrap(text[ms[k]..ms[k] + L])
  {
    var pieces := WrapPieces(text, L, ms);
    var h := Highlighted(text, L, ms);
    var s := Splice(text, L, ms, pieces, 0);
    HighlightedIsSplice(text, L, ms);
    WrapPieceAt(text, L, ms, 0, k);
    WrapShift(text, L, ms, k);
    SplicePiece(text, L, ms, pieces, 0, k);
    var lo := ms[k] - 0 + Shift(pieces, L, k);
    assert lo == ms[k] + 4 * k && |pieces[k]| == L + 4;
    SameSlice(s, h, lo, lo + |pieces[k]|, ms[k] + 4 * k, ms[k] + 4 * k + L + 4);
  }

  /** The text before the k-th match, back to the end of the one before, is
      copied unchanged, 4k characters right of where it was. */
  lemma HighlightBefore(text: string, L: nat, ms: seq<nat>, k: nat)
    requires WellSpaced(ms, L, 0, |text|) && k < |ms|
    ensures GapStart(ms, L, 0, k) <= ms[k] <= |text|
    ensures ms[k] + 4 * k <= |Highlighted(text, L, ms)|
    ensures Highlighted(text, L, ms)[GapStart(ms, L, 0, k) + 4 * k..ms[k] + 4 * k]
            == text[GapStart(ms, L, 0, k)..ms[k]]
  {
    HighlightedIsSplice(text, L, ms);
    WrapShift(text, L, ms, k);
    SpliceBefore(text, L, ms, WrapPieces(text, L, ms), 0, k);
  }

  /** The text after the last match ends the highlighted text unchanged. */
  lemma HighlightTail(text: string, L: nat, ms: seq<nat>)
    requires WellSpaced(ms, L, 0, |text|)
    ensures GapStart(ms, L, 0, |ms|) <= |text|
    ensures GapStart(ms, L, 0, |ms|) + 4 * |ms| <= |Highlighted(text, L, ms)|
    ensures Highlighted(text, L, ms)[GapStart(ms, L, 0, |ms|) + 4 * |ms|..]
            == text[GapStart(ms, L, 0, |ms|)..]
  {
    HighlightedIsSplice(text, L, ms);
    WrapShift(text, L, ms, |ms|);
    SpliceTail(text, L, ms, WrapPieces(text, L, ms), 0);
  }
}
