/** The bad-character (Horspool) skip table of app.py's `build_bad_char_table`
    and the argument that a skip taken from it never jumps over an
    occurrence. */
module BadCharTable {
  import opened Text
  import opened SearchSpec

  /** `skip` is a correct entry for c among the first `upto` positions of p:
      it lies in L-1-upto < skip <= L-1, position L-1-skip holds c, and no
      later position before `upto` does. */
  ghost predicate SkipEntry(p: string, c: char, skip: int, upto: int) {
    && upto <= |p| - 1
    && |p| - 1 - upto < skip <= |p| - 1
    && p[|p| - 1 - skip] == c
    && forall m :: |p| - 1 - skip < m < upto ==> p[m] != c
  }

  /** `table` is the skip table of pattern p: its keys are exactly the
      characters at positions 0..L-2, and the entry for c is L-1-j where j is
      the rightmost of those positions holding c; so every entry lies in
      1..L-1. */
  ghost predicate IsBadCharTable(p: string, table: map<char, int>) {
    && table.Keys == (set j | 0 <= j < |p| - 1 :: p[j])
    && forall c :: c in table ==> SkipEntry(p, c, table[c], |p| - 1)
  }

  /** The table after entering positions 0 .. n-1 of p in order, each
      position j setting the entry of p[j] to L-1-j, so that a later position
      overwrites an earlier one. */
  function SkipTablePrefix(p: string, n: nat): map<char, int>
    requires n <= |p|
  {
    if n == 0 then map[] else SkipTablePrefix(p, n - 1)[p[n - 1] := |p| - n]
  }

  /** The skip table of p: positions 0 .. L-2 entered in order (the last
      position is left out); empty for a pattern of length 0 or 1. */
  function SkipTable(p: string): map<char, int> {
    if |p| <= 1 then map[] else SkipTablePrefix(p, |p| - 1)
  }

  /** Entering positions 0 .. n-1 gives the keys p[0..n-1], and for each the
      rightmost position below n. */
  lemma {:induction false} SkipTablePrefixSpec(p: string, n: nat)
    requires n <= |p| - 1
    ensures SkipTablePrefix(p, n).Keys == (set j | 0 <= j < n :: p[j])
    ensures forall c :: c in SkipTablePrefix(p, n) ==> SkipEntry(p, c, SkipTablePrefix(p, n)[c], n)
  {
    if n > 0 {
      SkipTablePrefixSpec(p, n - 1);
      var before := SkipTablePrefix(p, n - 1);
      var table := SkipTablePrefix(p, n);
      assert (set j | 0 <= j < n :: p[j]) == (set j | 0 <= j < n - 1 :: p[j]) + {p[n - 1]};
      forall c | c in table
        ensures SkipEntry(p, c, table[c], n)
      {
        if c != p[n - 1] {
          assert SkipEntry(p, c, before[c], n - 1);
        }
      }
    }
  }

  /** SkipTable meets the characterisation: its keys are the characters at
      positions 0..L-2, each mapped to L-1 minus its rightmost such position. */
  lemma SkipTableSpec(p: string)
    ensures IsBadCharTable(p, SkipTable(p))
  {
    if |p| > 1 {
      SkipTablePrefixSpec(p, |p| - 1);
    }
  }

  /** For the pattern "abca" the entries are a: 3, b: 2, c: 1. The last
      position is never entered, so the entry for 'a' is the one position 0
      gives. */
  lemma SkipTableExample()
    ensures SkipTable("abca") == map['a' := 3, 'b' := 2, 'c' := 1]
  {
    assert SkipTablePrefix("abca", 1) == map['a' := 3];
    assert SkipTablePrefix("abca", 2) == map['a' := 3, 'b' := 2];
  }

  /** `build_bad_char_table`: lowers the pattern, then for i = 0 .. L-2 sets
      table[p[i]] := L-1-i, a later index overwriting an earlier one. */
  method BuildBadCharTable(pattern: string) returns (table: map<char, int>)
    ensures table == SkipTable(Lower(pattern))
    ensures |pattern| <= 1 ==> table == map[]
  {
    var p := Lower(pattern);
    table := map[];
    var patternLength := |p|;
    var i := 0;
    while i < patternLength - 1
      invariant 0 <= i <= if patternLength == 0 then 0 else patternLength - 1
      invariant table == SkipTablePrefix(p, i)
    {
      table := table[p[i] := patternLength - 1 - i];
      i := i + 1;
    }
  }

  /** The skip table is fully determined by IsBadCharTable: two tables that
      both satisfy it for the same pattern are equal. */
  lemma BadCharTableUnique(p: string, t1: map<char, int>, t2: map<char, int>)
    requires IsBadCharTable(p, t1) && IsBadCharTable(p, t2)
    ensures t1 == t2
  {
    forall c | c in t1
      ensures t1[c] == t2[c]
    {
      assert SkipEntry(p, c, t1[c], |p| - 1) && SkipEntry(p, c, t2[c], |p| - 1);
      var j1, j2 := |p| - 1 - t1[c], |p| - 1 - t2[c];
      assert p[j1] == c && p[j2] == c;
    }
  }

  /** The shift the scanner takes after a mismatch whose window ends in c:
      `bad_char.get(c, L)`. */
  function Skip(table: map<char, int>, c: char, patternLength: nat): (r: int)
    ensures c in table ==> r == table[c]
    ensures c !in table ==> r == patternLength
  {
    if c in table then table[c] else patternLength
  }

  /** A window starting strictly inside (shift, shift + skip) puts a pattern
      position m < L-1 with m > L-1-skip under the text character c that ends
      the window at shift; the table says no such position holds c. */
  lemma NoMatchInsideSkip(t: string, p: string, table: map<char, int>, shift: nat, k: int)
    requires |p| >= 1 && shift + |p| <= |t|
    requires IsBadCharTable(p, table)
    requires shift < k < shift + Skip(table, t[shift + |p| - 1], |p|)
    ensures !MatchesAt(t, p, k)
  {
    var L := |p|;
    var c := t[shift + L - 1];
    if k + L <= |t| {
      var m := shift + L - 1 - k;
      assert 0 <= m < L - 1;
      if c in table {
        assert SkipEntry(p, c, table[c], L - 1);
        assert p[m] != c;
      } else {
        assert p[m] in table.Keys;
      }
      assert t[k..k + L][m] == c;
    }
  }

  /** Skip safety: when the window at `shift` does not match, no window
      from `shift` up to (not including) `shift + skip` matches, so the scan
      may resume at `shift + skip` without losing an occurrence; the skip is
      between 1 and L, so the scan always moves forward. */
  lemma SkipIsSafe(t: string, p: string, table: map<char, int>, shift: nat)
    requires |p| >= 1 && shift + |p| <= |t|
    requires IsBadCharTable(p, table)
    requires !MatchesAt(t, p, shift)
    ensures 1 <= Skip(table, t[shift + |p| - 1], |p|) <= |p|
    ensures NoMatchIn(t, p, shift, shift + Skip(table, t[shift + |p| - 1], |p|))
  {
    var c := t[shift + |p| - 1];
    if c in table {
      assert SkipEntry(p, c, table[c], |p| - 1);
    }
    forall k | shift < k < shift + Skip(table, c, |p|)
      ensures !MatchesAt(t, p, k)
    {
      NoMatchInsideSkip(t, p, table, shift, k);
    }
  }
}
