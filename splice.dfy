/** What both text transforms of app.py do when the matches they are given
    are sorted, inside the text and do not overlap: every match is replaced
    by a piece (the replacement, or the match between two markers) and the
    text between matches is copied unchanged. */
module Splicing {

  /** The matches ms lie in text positions from .. n-1, in increasing order,
      each one ending before the next one starts. */
  predicate WellSpaced(ms: seq<nat>, L: nat, from: nat, n: nat)
    decreases |ms|
  {
    if ms == [] then from <= n
    else from <= ms[0] && ms[0] + L <= n && WellSpaced(ms[1..], L, ms[0] + L, n)
  }

  /** The text from position `from` on, with the k-th match replaced by
      pieces[k]. */
  function Splice(text: string, L: nat, ms: seq<nat>, pieces: seq<string>, from: nat): string
    requires WellSpaced(ms, L, from, |text|) && |pieces| == |ms|
    decreases |ms|
  {
    if ms == [] then text[from..]
    else text[from..ms[0]] + pieces[0] + Splice(text, L, ms[1..], pieces[1..], ms[0] + L)
  }

  /** Every piece has length W. */
  predicate Uniform(pieces: seq<string>, W: nat) {
    forall k :: 0 <= k < |pieces| ==> |pieces[k]| == W
  }

  /** WellSpaced spelled out position by position: all matches lie inside
      from .. n-1, and each ends no later than the next one starts. */
  lemma {:induction false} WellSpacedIff(ms: seq<nat>, L: nat, from: nat, n: nat)
    ensures WellSpaced(ms, L, from, n) <==>
      && from <= n
      && (forall k :: 0 <= k < |ms| ==> from <= ms[k] && ms[k] + L <= n)
      && (forall k :: 0 < k < |ms| ==> ms[k - 1] + L <= ms[k])
    decreases |ms|
  {
    if ms != [] {
      WellSpacedIff(ms[1..], L, ms[0] + L, n);
      if WellSpaced(ms, L, from, n) {
        forall k | 0 <= k < |ms|
          ensures from <= ms[k] && ms[k] + L <= n
        {
          if k > 0 {
            assert ms[1..][k - 1] == ms[k];
          }
        }
        forall k | 0 < k < |ms|
          ensures ms[k - 1] + L <= ms[k]
        {
          if k > 1 {
            assert ms[1..][k - 2] == ms[k - 1] && ms[1..][k - 1] == ms[k];
          } else {
            assert ms[1..][0] == ms[1];
          }
        }
      }
      if && from <= n
         && (forall k :: 0 <= k < |ms| ==> from <= ms[k] && ms[k] + L <= n)
         && (forall k :: 0 < k < |ms| ==> ms[k - 1] + L <= ms[k])
      {
        assert ms[0] + L <= n;
        forall k | 0 <= k < |ms| - 1
          ensures ms[0] + L <= ms[1..][k] && ms[1..][k] + L <= n
        {
          MatchesAfterFirst(ms, L, k + 1);
        }
        forall k | 0 < k < |ms| - 1
          ensures ms[1..][k - 1] + L <= ms[1..][k]
        {
          assert ms[k] + L <= ms[k + 1];
        }
      }
    }
  }

  /** Under the chain condition, every later match starts at or after the
      end of the first. */
  lemma {:induction false} MatchesAfterFirst(ms: seq<nat>, L: nat, k: nat)
    requires 0 < k < |ms|
    requires forall j :: 0 < j < |ms| ==> ms[j - 1] + L <= ms[j]
    ensures ms[0] + L <= ms[k]
  {
    if k > 1 {
      MatchesAfterFirst(ms, L, k - 1);
    }
  }

  /** How much longer than the matches they replace the first k pieces are
      together: the distance by which everything after the k-th match moves. */
  function Shift(pieces: seq<string>, L: nat, k: nat): int
    requires k <= |pieces|
  {
    if k == 0 then 0 else |pieces[0]| - L + Shift(pieces[1..], L, k - 1)
  }

  /** When every piece has length W, k pieces move the text by k*(W-L). */
  lemma {:induction false} ShiftUniform(pieces: seq<string>, L: nat, W: nat, k: nat)
    requires Uniform(pieces, W) && k <= |pieces|
    ensures Shift(pieces, L, k) == k * (W - L)
  {
    if k > 0 {
      assert |pieces[0]| == W;
      assert Uniform(pieces[1..], W) by {
        forall j | 0 <= j < |pieces| - 1
          ensures |pieces[1..][j]| == W
        {
          assert pieces[1..][j] == pieces[j + 1];
        }
      }
      ShiftUniform(pieces[1..], L, W, k - 1);
      assert k * (W - L) == (W - L) + (k - 1) * (W - L);
    }
  }

  /** The text from `from` on splits at the first match into the gap before
      it, its piece, and the rest of the text with the later matches
      replaced. */
  lemma SpliceFirst(text: string, L: nat, ms: seq<nat>, pieces: seq<string>, from: nat)
    requires WellSpaced(ms, L, from, |text|) && |pieces| == |ms| && ms != []
    ensures WellSpaced(ms[1..], L, ms[0] + L, |text|)
    ensures from <= ms[0] && ms[0] + L <= |text|
    ensures Splice(text, L, ms, pieces, from)
            == (text[from..ms[0]] + pieces[0]) + Splice(text, L, ms[1..], pieces[1..], ms[0] + L)
    ensures |text[from..ms[0]] + pieces[0]| == ms[0] - from + |pieces[0]|
  {
  }

  /** The matches after the first are well spaced from the end of the
      first one on. */
  lemma WellSpacedRest(ms: seq<nat>, L: nat, from: nat, n: nat)
    requires WellSpaced(ms, L, from, n) && ms != []
    ensures from <= ms[0] && ms[0] + L <= n && WellSpaced(ms[1..], L, ms[0] + L, n)
  {
  }

  /** Each match of length L gives way to its piece, so the text grows by
      the total difference in length. */
  lemma {:induction false} SpliceLength(text: string, L: nat, ms: seq<nat>, pieces: seq<string>, from: nat)
    requires WellSpaced(ms, L, from, |text|) && |pieces| == |ms|
    ensures |Splice(text, L, ms, pieces, from)| == |text| - from + Shift(pieces, L, |pieces|)
    decreases |ms|
  {
    if ms != [] {
      SpliceFirst(text, L, ms, pieces, from);
      SpliceLength(text, L, ms[1..], pieces[1..], ms[0] + L);
    }
  }

  /** The k-th match is replaced in place: in the result its piece starts
      at the match's old offset moved by the growth of the k pieces before
      it. */
  lemma {:induction false} SplicePiece(text: string, L: nat, ms: seq<nat>, pieces: seq<string>, from: nat, k: nat)
    requires WellSpaced(ms, L, from, |text|) && |pieces| == |ms| && k < |ms|
    ensures from <= ms[k] && ms[k] + L <= |text|
    ensures 0 <= ms[k] - from + Shift(pieces, L, k)
    ensures ms[k] - from + Shift(pieces, L, k) + |pieces[k]| <= |Splice(text, L, ms, pieces, from)|
    ensures Splice(text, L, ms, pieces, from)[ms[k] - from + Shift(pieces, L, k)..ms[k] - from + Shift(pieces, L, k) + |pieces[k]|]
            == pieces[k]
    decreases |ms|
  {
    SpliceFirst(text, L, ms, pieces, from);
    var s := Splice(text, L, ms, pieces, from);
    var gap := text[from..ms[0]];
    var head := gap + pieces[0];
    var rest := Splice(text, L, ms[1..], pieces[1..], ms[0] + L);
    if k == 0 {
      SliceOfAppendRight(gap, pieces[0], 0, |pieces[0]|);
      SliceOfAppendLeft(head, rest, |gap|, |gap| + |pieces[0]|);
    } else {
      SplicePiece(text, L, ms[1..], pieces[1..], ms[0] + L, k - 1);
      var m, piece := ms[1..][k - 1], pieces[1..][k - 1];
      var inner := Shift(pieces[1..], L, k - 1);
      SliceOfConcatRight(s, head, rest, m - (ms[0] + L) + inner, m - (ms[0] + L) + inner + |piece|,
                         ms[k] - from + Shift(pieces, L, k), ms[k] - from + Shift(pieces, L, k) + |pieces[k]|);
    }
  }

  /** A slice that lies inside the left operand of a concatenation. */
  lemma SliceOfAppendLeft(a: string, b: string, i: int, j: int)
    requires 0 <= i <= j <= |a|
    ensures (a + b)[i..j] == a[i..j]
  {
    assert forall x :: 0 <= x < j - i ==> (a + b)[i..j][x] == a[i..j][x];
  }

  /** A slice that lies inside the right operand of a concatenation. */
  lemma SliceOfAppendRight(a: string, b: string, i: int, j: int)
    requires 0 <= i <= j <= |b|
    ensures (a + b)[|a| + i..|a| + j] == b[i..j]
  {
    assert forall x :: 0 <= x < j - i ==> (a + b)[|a| + i..|a| + j][x] == b[i..j][x];
  }

  /** The same, for a string known to be the concatenation, at offsets
      given in the string's own coordinates. */
  lemma SliceOfConcatRight(s: string, a: string, b: string, i: int, j: int, x: int, y: int)
    requires s == a + b && 0 <= i <= j <= |b| && x == |a| + i && y == |a| + j
    ensures s[x..y] == b[i..j]
  {
    SliceOfAppendRight(a, b, i, j);
  }

  /** The start of the stretch of text copied before match k (or, for
      k = |ms|, after the last match): `from`, or the end of match k-1. */
  function GapStart(ms: seq<nat>, L: nat, from: nat, k: nat): nat
    requires k <= |ms|
  {
    if k == 0 then from else ms[k - 1] + L
  }

  /** The text before the k-th match, back to the previous match (or to
      `from`), is copied unchanged, moved by the growth of the k pieces
      before it. */
  predicate GapCopied(text: string, L: nat, ms: seq<nat>, pieces: seq<string>, from: nat, k: nat)
    requires WellSpaced(ms, L, from, |text|) && |pieces| == |ms| && k < |ms|
  {
    && GapStart(ms, L, from, k) <= ms[k] <= |text|
    && 0 <= GapStart(ms, L, from, k) - from + Shift(pieces, L, k)
    && ms[k] - from + Shift(pieces, L, k) <= |Splice(text, L, ms, pieces, from)|
    && Splice(text, L, ms, pieces, from)[GapStart(ms, L, from, k) - from + Shift(pieces, L, k)..ms[k] - from + Shift(pieces, L, k)]
       == text[GapStart(ms, L, from, k)..ms[k]]
  }

  lemma {:induction false} SpliceBefore(text: string, L: nat, ms: seq<nat>, pieces: seq<string>, from: nat, k: nat)
    requires WellSpaced(ms, L, from, |text|) && |pieces| == |ms| && k < |ms|
    ensures GapCopied(text, L, ms, pieces, from, k)
    decreases |ms|
  {
    if k == 0 {
      SpliceBeforeFirst(text, L, ms, pieces, from);
    } else {
      WellSpacedRest(ms, L, from, |text|);
      SpliceBefore(text, L, ms[1..], pieces[1..], ms[0] + L, k - 1);
      SpliceBeforeLift(text, L, ms, pieces, from, k);
    }
  }

  /** SpliceBefore for the first match: the text before it starts the
      result. */
  lemma SpliceBeforeFirst(text: string, L: nat, ms: seq<nat>, pieces: seq<string>, from: nat)
    requires WellSpaced(ms, L, from, |text|) && |pieces| == |ms| && 0 < |ms|
    ensures GapCopied(text, L, ms, pieces, from, 0)
  {
    SpliceFirst(text, L, ms, pieces, from);
    var gap := text[from..ms[0]];
    SliceOfAppendLeft(gap, pieces[0], 0, |gap|);
    SliceOfAppendLeft(gap + pieces[0], Splice(text, L, ms[1..], pieces[1..], ms[0] + L), 0, |gap|);
  }

  /** The step of SpliceBefore: the gap before match k-1 of the rest of the
      text is the gap before match k of the whole. */
  lemma SpliceBeforeLift(text: string, L: nat, ms: seq<nat>, pieces: seq<string>, from: nat, k: nat)
    requires WellSpaced(ms, L, from, |text|) && |pieces| == |ms| && 0 < k < |ms|
    requires WellSpaced(ms[1..], L, ms[0] + L, |text|)
    requires GapCopied(text, L, ms[1..], pieces[1..], ms[0] + L, k - 1)
    ensures GapCopied(text, L, ms, pieces, from, k)
  {
    SpliceFirst(text, L, ms, pieces, from);
    var s := Splice(text, L, ms, pieces, from);
    var head := text[from..ms[0]] + pieces[0];
    var rest := Splice(text, L, ms[1..], pieces[1..], ms[0] + L);
    var a := GapStart(ms[1..], L, ms[0] + L, k - 1);
    var b := ms[1..][k - 1];
    assert a == GapStart(ms, L, from, k) && b == ms[k];
    var inner := Shift(pieces[1..], L, k - 1);
    assert Shift(pieces, L, k) == |pieces[0]| - L + inner;
    SliceOfConcatRight(s, head, rest, a - (ms[0] + L) + inner, b - (ms[0] + L) + inner,
                       a - from + Shift(pieces, L, k), b - from + Shift(pieces, L, k));
  }

  /** The text after the last match (all of it from `from` on when there
      is none) is copied unchanged to the end of the result. */
  predicate TailCopied(text: string, L: nat, ms: seq<nat>, pieces: seq<string>, from: nat)
    requires WellSpaced(ms, L, from, |text|) && |pieces| == |ms|
  {
    && GapStart(ms, L, from, |ms|) <= |text|
    && 0 <= GapStart(ms, L, from, |ms|) - from + Shift(pieces, L, |pieces|) <= |Splice(text, L, ms, pieces, from)|
    && Splice(text, L, ms, pieces, from)[GapStart(ms, L, from, |ms|) - from + Shift(pieces, L, |pieces|)..]
       == text[GapStart(ms, L, from, |ms|)..]
  }

  lemma {:induction false} SpliceTail(text: string, L: nat, ms: seq<nat>, pieces: seq<string>, from: nat)
    requires WellSpaced(ms, L, from, |text|) && |pieces| == |ms|
    ensures TailCopied(text, L, ms, pieces, from)
    decreases |ms|
  {
    if ms != [] {
      WellSpacedRest(ms, L, from, |text|);
      SpliceTail(text, L, ms[1..], pieces[1..], ms[0] + L);
      SpliceTailLift(text, L, ms, pieces, from);
    }
  }

  /** The step of SpliceTail: the text after the last match of the rest of
      the text is the text after the last match of the whole. */
  lemma SpliceTailLift(text: string, L: nat, ms: seq<nat>, pieces: seq<string>, from: nat)
    requires WellSpaced(ms, L, from, |text|) && |pieces| == |ms| && ms != []
    requires WellSpaced(ms[1..], L, ms[0] + L, |text|)
    requires TailCopied(text, L, ms[1..], pieces[1..], ms[0] + L)
    ensures TailCopied(text, L, ms, pieces, from)
  {
    SpliceFirst(text, L, ms, pieces, from);
    var head := text[from..ms[0]] + pieces[0];
    var rest := Splice(text, L, ms[1..], pieces[1..], ms[0] + L);
    var a := GapStart(ms[1..], L, ms[0] + L, |ms[1..]|);
    var inner := Shift(pieces[1..], L, |pieces[1..]|);
    assert a == GapStart(ms, L, from, |ms|);
    assert Shift(pieces, L, |pieces|) == |pieces[0]| - L + inner;
    SuffixOfConcat(Splice(text, L, ms, pieces, from), head, rest, a - (ms[0] + L) + inner,
                   GapStart(ms, L, from, |ms|) - from + Shift(pieces, L, |pieces|));
  }

  /** Concatenation regrouped: what is written to the left stays left. */
  lemma AppendAssoc(p: string, a: string, b: string, c: string)
    ensures p + ((a + b) + c) == ((p + a) + b) + c
  { }

  /** A slice read again, from an equal string at equal offsets. */
  lemma SameSlice(s: string, t: string, i: int, j: int, x: int, y: int)
    requires s == t && 0 <= i <= j <= |s| && x == i && y == j
    ensures t[x..y] == s[i..j]
  {
  }

  /** A suffix that lies inside the right operand of a concatenation. */
  lemma SuffixOfConcat(s: string, a: string, b: string, i: int, x: int)
    requires s == a + b && 0 <= i <= |b| && x == |a| + i
    ensures s[x..] == b[i..]
  {
    assert forall y :: 0 <= y < |b| - i ==> s[x..][y] == b[i..][y];
  }
}
