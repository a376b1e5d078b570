# String matching: Boyer-Moore and Rabin-Karp, highlight and replace

This project models the string-matching core of `app.py`, a small page that
compares two substring scanners:

- `build_bad_char_table` builds the bad-character (Horspool) skip table of a
  pattern.
- `boyer_moore_search` is a bad-character-only scanner. It compares each
  window from its last character back to its first. After a match it moves
  on by one, so overlapping occurrences are reported.
- `rabin_karp_search` is a rolling-hash scanner: base 256, modulus 101. It
  confirms every hash hit by comparing the window itself.
- `highlight_matches` puts every match between `**` markers.
- The replace loop of `main` cuts each match out of the text and puts the
  replacement in its place. A running offset says how far the earlier
  replacements have moved the text.
- The "Search and Compare" step of `main`:
  - it rejects empty input;
  - it runs both scanners and judges their timings;
  - it highlights when there are matches and otherwise shows "No matches
    found!";
  - it replaces when a replacement is given and asked for.

Both scanners work on the lower-cased text and pattern. Each scanner is a
method proved to return `Occurrences(Lower(text), Lower(pattern))`: every
offset where the lowered pattern occurs in the lowered text, overlapping ones
included, in increasing order. `SearchSpec` defines that list independently of
either algorithm and characterises it. Membership holds if and only if the
pattern occurs at the offset, and the list is strictly increasing, which fixes
it uniquely. So the two scanners agree on every input. The page relies on this
when it shows their match counts side by side.

The highlight and replace transforms are total, like the Python code. Python's
slices clamp out-of-range bounds and count negative ones from the end;
`Text.Slice` and `Replace.Cut` spell this out. Each transform's method is
proved equal to a specification function that follows the loop.

For sorted, non-overlapping matches inside the text (`Splicing.WellSpaced`),
both transforms are shown to be instances of one operation, `Splicing.Splice`:
the text with the k-th match replaced by the k-th piece. From that follow:

- the exact length of the result;
- where each piece lands: 4k characters right of its match for
  highlighting, k·(|rep| − |pattern|) for replacing;
- the text between matches, which is copied unchanged.

Overlapping matches, which both scanners report, are covered by worked
examples of what the code then does.

Modules, one file each:

| file | module | models |
|---|---|---|
| text.dfy | Text | `str.lower`, `ord`, Python slicing, `''.join` |
| search_spec.dfy | SearchSpec | the list of occurrences both scanners promise |
| bad_char_table.dfy | BadCharTable | `build_bad_char_table`, `bad_char.get(c, L)` |
| boyer_moore.dfy | BoyerMoore | `boyer_moore_search` |
| rolling_hash.dfy | RollingHash | the hash and the rolling update of `rabin_karp_search` |
| rabin_karp.dfy | RabinKarp | `rabin_karp_search` |
| splice.dfy | Splicing | replacing non-overlapping matches by pieces, shared by both transforms |
| highlight.dfy | Highlight | `highlight_matches` |
| replace.dfy | Replace | the replace loop of `main` |
| compare.dfy | Compare | the "Search and Compare" step of `main` |

A note on the bad-character table. Positions 0 to L−2 of the pattern are
entered in order, each setting `L−1−i`, so a later position overwrites an
earlier one; the last position is never entered. For the pattern `"abca"`
the table is therefore `{a: 3, b: 2, c: 1}`, which
`BadCharTable.SkipTableExample` proves.

A note on overlapping matches. Highlighting emits every match in full, so
when two matches overlap, the characters they share appear twice.
`Compare.OverlapHighlighted` proves the result for "aaa" and "aa".

## Model

| member | source | states |
|---|---|---|
| Text.LowerChar | app.py:16 | lowering a character yields no ASCII upper-case letter; an ASCII capital moves up by 32 to its small letter; every other character is kept |
| Text.Lower | app.py:16-17 | `str.lower` keeps the length of the string |
| Text.LowerAt | app.py:16-17 | position i of the lowered string is the lowered character at position i |
| Text.LowerIdempotent | app.py:7 | lowering twice is lowering once: the table built from the already-lowered pattern is the table of that pattern |
| Text.LowerIsLowerCase | app.py:47 | a lowered string holds no upper-case letter |
| Text.LowerOfLowerCase | app.py:77 | lowering a string without upper-case letters changes nothing |
| Text.LowerSlice | app.py:77 | lowering a slice is slicing the lowered string |
| Text.Ord | app.py:71-72 | `ord` maps a character to its code point, a number below 0x110000 |
| Text.SliceBound | app.py:97 | a Python slice bound is normalised into 0..n: kept when in range, n when beyond, counted from the end when negative, 0 when still negative |
| Text.Slice | app.py:97-98 | Python's `s[lo:hi]` never fails; it is `s[lo..hi]` for in-range bounds in order and empty for bounds out of order |
| Text.JoinAppend | app.py:102 | joining one more part appends it |
| Text.JoinConcat | app.py:102 | joining two lists of parts is joining each and concatenating |
| SearchSpec.OccurrencesBeforeSpec | app.py:29-38 | the occurrences below k are exactly the offsets below k where the pattern occurs, strictly increasing |
| SearchSpec.OccurrencesSpec | app.py:22-23 | the occurrence list holds exactly the offsets where a non-empty pattern occurs, strictly increasing; it is empty for an empty text, an empty pattern or a pattern longer than the text |
| SearchSpec.StrictlyIncreasingUnique | app.py:75-78 | two strictly increasing lists with the same elements are equal, so OccurrencesSpec determines the list |
| SearchSpec.OccurrencesBeforeSkip | app.py:41 | skipping offsets where the pattern does not occur loses no occurrence |
| SearchSpec.OccurrencesBeforePastEnd | app.py:29 | once the scan position passes the last window, the occurrences found are all of them |
| BadCharTable.SkipTablePrefixSpec | app.py:10-11 | after entering positions 0..n−1 the keys are exactly their characters, each mapped to L−1 minus its rightmost position below n |
| BadCharTable.SkipTableSpec | app.py:5-12 | the table's keys are the characters at positions 0..L−2, each mapped to L−1 minus its rightmost such position |
| BadCharTable.SkipTableExample | app.py:5-12 | the table of "abca" is {a: 3, b: 2, c: 1} |
| BadCharTable.BuildBadCharTable | app.py:5-12 | the loop builds the skip table of the lowered pattern; it is empty for a pattern of length 0 or 1 |
| BadCharTable.BadCharTableUnique | app.py:10-11 | the characterisation fixes the table: two tables meeting it are equal |
| BadCharTable.NoMatchInsideSkip | app.py:40-41 | no occurrence starts strictly between the mismatching window and the window the skip lands on |
| BadCharTable.Skip | app.py:41 | `bad_char.get(c, L)`: the table's entry for a character in the table, the pattern length for any other |
| BadCharTable.SkipIsSafe | app.py:39-41 | after a mismatch the skip is between 1 and L and jumps over no occurrence |
| BoyerMoore.BoyerMooreSearch | app.py:14-43 | the scanner returns exactly the occurrences of the lowered pattern in the lowered text, in increasing order, overlapping ones included; none for empty input |
| BoyerMoore.WindowMismatch | app.py:30-34 | the backward comparison reports a mismatch if and only if the pattern does not occur at the window |
| BoyerMoore.OccurrencesBeforeMatch | app.py:36-38 | recording a full match and moving on by one keeps the found list equal to the occurrences below the scan position |
| BoyerMoore.SkipKeepsInvariant | app.py:39-41 | after a mismatch the table's skip is at least 1 and keeps the found list equal to the occurrences below the new position |
| RollingHash.Hash | app.py:70-72 | the Horner hash lies in 0..100 |
| RollingHash.ModAddMultiple | app.py:82-83 | adding a multiple of the modulus does not change the residue, so adding 101 to a negative hash keeps it |
| RollingHash.HashIsPolyMod | app.py:70-72 | the Horner hash is the exact polynomial value mod 101 |
| RollingHash.PolyFront | app.py:81 | the polynomial value splits into its first character's term and the rest |
| RollingHash.PolyRoll | app.py:81 | dropping the first character and appending the next one is the rolling formula, without reduction |
| RollingHash.ModRoll | app.py:81 | the rolling formula on reduced values gives the residue of the unreduced one |
| RollingHash.RollHash | app.py:81 | the rolling update maps the hash of the window at i to the hash of the window at i+1 |
| RabinKarp.RabinKarpSearch | app.py:45-85 | the scanner returns exactly the occurrences of the lowered pattern in the lowered text, in increasing order; none for empty input or a pattern longer than the text |
| RabinKarp.ScanWindows | app.py:65-85 | the hashing and the window loop find every occurrence in a lowered text |
| RabinKarp.InitialHashes | app.py:65-72 | the first loop computes the hash of the pattern and of the first window |
| RabinKarp.NextWindowHash | app.py:80-83 | the update gives the hash of the next window, a value in 0..100; the correction of a negative remainder never fires, since `%` with a positive modulus is never negative |
| RabinKarp.HashStep | app.py:71-72 | one Horner step extends the hash of a prefix by one character |
| RabinKarp.RollStep | app.py:81 | the rolling update applied to a window's hash gives the next window's hash |
| RabinKarp.RecordWindow | app.py:76-78 | offset i is recorded exactly when the pattern occurs there |
| RabinKarp.HitIffMatch | app.py:76-77 | a hash hit confirmed by comparison happens if and only if the pattern occurs: no collision is reported and no occurrence is missed |
| Splicing.WellSpacedIff | app.py:96-99 | well-spaced matches are, position by position, inside the text and each ends before the next begins |
| Splicing.MatchesAfterFirst | app.py:96-99 | with non-overlapping matches, every later match starts after the first one ends |
| Splicing.ShiftUniform | app.py:165 | when every piece has length W, the first k pieces move the text by k·(W − L) |
| Splicing.SpliceFirst | app.py:97-98 | the spliced text is the gap before the first match, its piece, and the splice of the rest |
| Splicing.WellSpacedRest | app.py:99 | the matches after the first are well spaced from the end of the first one |
| Splicing.SpliceLength | app.py:160-165 | the spliced text is longer than the text by the total growth of the pieces |
| Splicing.SplicePiece | app.py:97-98 | the k-th piece sits at the k-th match's offset moved by the growth of the pieces before it |
| Splicing.SpliceBefore | app.py:97 | the text between match k−1 and match k is copied unchanged, moved by the growth before it |
| Splicing.SpliceBeforeFirst | app.py:97 | the text before the first match starts the result |
| Splicing.SpliceBeforeLift | app.py:97 | the gap before match k−1 of the rest of the text is the gap before match k of the whole |
| Splicing.SpliceTail | app.py:101 | the text after the last match ends the result unchanged |
| Splicing.SpliceTailLift | app.py:101 | the tail of the rest of the text is the tail of the whole |
| Highlight.Wrap | app.py:98 | the bold form of a match is four characters longer |
| Highlight.WrapPieces | app.py:98 | there is one bold piece per match |
| Highlight.HighlightMatches | app.py:87-102 | `highlight_matches` returns the text itself without matches, and otherwise the joined parts its loop collects |
| Highlight.Highlighted | app.py:87-102 | the value `highlight_matches` computes; without matches it is the text itself, which is what the early return gives |
| Highlight.PartsSplit | app.py:96-102 | the parts collected after i matches plus the parts still to come are the parts of the whole text, read front to back |
| Highlight.PartsMove | app.py:96-99 | handling match i−1 moves its two parts from the parts to come to the collected ones |
| Highlight.PartsStep | app.py:97-98 | handling a match adds the text before it and the match in bold |
| Highlight.PartsFront | app.py:97-99 | the parts from match j on start with the gap before it and its bold form |
| Highlight.HighlightedParts | app.py:87-102 | the loop's result is the front-to-back reading of the parts |
| Highlight.HighlightIsSplice | app.py:96-102 | for well-spaced matches, the joined parts are the text with each match replaced by its bold form |
| Highlight.WrapPieceAt | app.py:98 | the k-th bold piece is the k-th match of the original text between markers |
| Highlight.WrapPiecesUniform | app.py:98 | every bold piece is four characters longer than the pattern |
| Highlight.WrapShift | app.py:98-99 | the first k bold pieces add 4k characters |
| Highlight.HighlightedIsSplice | app.py:87-102 | for well-spaced matches the highlighted text is the splice of the bold pieces |
| Highlight.HighlightLength | app.py:87-102 | highlighting well-spaced matches adds exactly four characters per match |
| Highlight.HighlightPiece | app.py:98 | the k-th match appears in bold, 4k characters right of where it was |
| Highlight.HighlightBefore | app.py:97 | the text between matches is copied unchanged, 4k characters right |
| Highlight.HighlightTail | app.py:101 | the text after the last match ends the highlighted text unchanged |
| Replace.CutIsSlices | app.py:164 | one replacement step is Python's three slices joined: up to a, the replacement, from b |
| Replace.ReplaceAt | app.py:163-164 | one turn of the loop replaces the L characters at the moved offset; when they lie inside the text, its length changes by the replacement's length minus L |
| Replace.Replaced | app.py:160-165 | the text after all replacements; without matches it is the text itself |
| Replace.ReplaceMatches | app.py:160-165 | the loop returns the result of replacing the matches in order, each at its offset moved by the replacements before it |
| Replace.ReplacedSplit | app.py:160-165 | the loop's prefix-form result is the front-to-back reading of the same replacements |
| Replace.Repeat | app.py:164 | the list of replacement pieces has one piece per match |
| Replace.RepeatFirst | app.py:164 | the pieces list starts with the replacement |
| Replace.RepeatAt | app.py:164 | every piece is the replacement |
| Replace.ReplaceIsSplice | app.py:160-165 | for well-spaced matches, the remaining replacements turn what is left of the text into its splice with the replacement |
| Replace.ReplaceLeftStep | app.py:163-165 | one replacement at the moved offset turns the text before the step into the text after it |
| Replace.ReplaceRightStep | app.py:164 | the splice moves on by one match when the gap and the replacement move into the finished prefix |
| Replace.CutFirst | app.py:163-164 | cutting at the moved offset removes exactly the match from the original text |
| Replace.ReplacedIsSplice | app.py:160-165 | for well-spaced matches the replaced text is the text with every match replaced by the replacement |
| Replace.RepeatShift | app.py:165 | the first k replacements move the text by k·(len(replacement) − len(pattern)), the loop's offset |
| Replace.ReplaceLength | app.py:160-165 | replacing well-spaced matches changes the length by len(replacement) − len(pattern) per match |
| Replace.ReplacePiece | app.py:163-165 | the k-th replacement sits at the k-th match moved by the offset of the k before it |
| Replace.ReplaceBefore | app.py:164 | the text between matches is kept, moved by the offset |
| Replace.ReplaceTail | app.py:164 | the text after the last match ends the result unchanged |
| Compare.Judge | app.py:145-150 | Boyer-Moore is named faster exactly when its time is smaller, Rabin-Karp exactly when its time is smaller, and the two similar exactly when equal |
| Compare.SearchAndCompare | app.py:117-169 | an error exactly when text or pattern is empty; otherwise both scanners' lists, equal to each other and to the occurrences; a highlighted text exactly when there are matches; a replaced text exactly when there are matches, the replacement is non-empty and replace is pressed |
| Compare.CaseInsensitiveMatch | app.py:16-17 | an offset is reported exactly when the pattern fits there and the original text equals it up to case |
| Compare.OccurrenceAt | app.py:14-43 | an offset is in the occurrence list exactly when a non-empty pattern occurs there |
| Compare.MatchesAtSlice | app.py:32 | a fitting pattern occurs at an offset exactly when the window there equals it |
| Compare.NonOverlappingWellSpaced | app.py:153-165 | when no two reported matches overlap, they are well spaced in the original text, so the layout lemmas of both transforms apply |
| Compare.MixedCaseFound | app.py:16-17 | "aBc" is found in "ABCabc" at 0 and 3 |
| Compare.MixedCaseLowered | app.py:16-17 | "ABCabc" and "aBc" lower to "abcabc" and "abc" |
| Compare.RepeatedFound | app.py:29-38 | "abc" occurs in "abcabc" at 0 and 3 |
| Compare.OverlapFound | app.py:36-38 | "aa" is found in "aaa" at 0 and at 1, overlapping |
| Compare.OverlapHighlighted | app.py:87-102 | highlighting those overlapping matches gives "\*\*aa\*\*\*\*aa\*\*", repeating the shared character |
| Compare.SeparateReplaced | app.py:160-165 | replacing the matches 0 and 3 of "abc" in "abcabc" by "X" gives "XX" |
| Compare.OverlapReplaced | app.py:160-165 | replacing those overlapping matches by "b" gives "b": the second cut starts inside the first replacement |

## Left out

- The Streamlit page is not modelled: text areas, buttons, `st.error`,
  `st.table`, `st.markdown` and `st.write`. Its inputs and button presses are
  parameters of `Compare.SearchAndCompare`, and what it shows is the returned
  `Outcome`.
- Compare.SearchAndCompare: the "Replace Matches" press is a parameter of the
  same run. Streamlit reruns the whole script on that press, and "Search and
  Compare" is then no longer pressed. The model does not capture this rerun.
- The pandas comparison table is not modelled. Its match counts are the
  lengths of the two lists in the `Outcome`, and its timings are the
  parameters.
- `time.time()` is not modelled. The two measured durations are parameters
  of type `real`, and only their comparison (`Compare.Judge`) is modelled.
- Text.LowerChar: `str.lower` is modelled for ASCII letters only. Python also
  lowers other upper-case letters, some into more than one character. That
  would change lengths and so the meaning of the reported offsets. Upper-case
  letters outside ASCII that Python lowers to one character (`É` to `é`, `Σ`
  to `σ`) are kept unchanged, so `Lower("É") == "É"`, and searching "É" for
  "é" finds nothing here, while Python finds a match.
- Text.Lower: for the same reason, `Lower` is a per-character ASCII fold.
- Highlight.HighlightLength: proved only for sorted, non-overlapping matches inside the text
  (`WellSpaced`). The scanners can report overlapping matches, and those are
  covered only by the worked examples in `Compare`.
- Highlight.HighlightPiece: the same restriction to sorted, non-overlapping matches.
- Highlight.HighlightBefore: the same restriction to sorted, non-overlapping matches.
- Highlight.HighlightTail: the same restriction to sorted, non-overlapping matches.
- Highlight.HighlightedIsSplice: the same restriction to sorted, non-overlapping matches.
- Replace.ReplaceLength: the same restriction to sorted, non-overlapping matches.
- Replace.ReplacePiece: the same restriction to sorted, non-overlapping matches.
- Replace.ReplaceBefore: the same restriction to sorted, non-overlapping matches.
- Replace.ReplaceTail: the same restriction to sorted, non-overlapping matches.
- Replace.ReplacedIsSplice: the same restriction to sorted, non-overlapping matches.
- The efficiency message is the timing verdict. The model does not claim
  anything about which scanner is actually faster.
