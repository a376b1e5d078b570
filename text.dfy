/** Character and string helpers shared by the scanners and the transforms of
    app.py: Python's `str.lower` (restricted to ASCII letters), `ord`, Python's
    clamping slice `s[lo:hi]`, and `''.join`. */
module Text {

  predicate IsUpper(c: char) {
    'A' <= c <= 'Z'
  }

  /** Lower-case form of one character: ASCII capitals move to their small
      letter, every other character is left as it is. */
  function LowerChar(c: char): (r: char)
    ensures !IsUpper(r)
    ensures IsUpper(c) ==> r as int == c as int + 32
    ensures !IsUpper(c) ==> r == c
  {
    if IsUpper(c) then (c as int + 32) as char else c
  }

  /** `s.lower()`, applied one character at a time, so it never changes the
      length. */
  function Lower(s: string): (r: string)
    ensures |r| == |s|
  {
    if s == [] then [] else [LowerChar(s[0])] + Lower(s[1..])
  }

  /** Position i of the lowered string is the lowered character at position i. */
  lemma {:induction false} LowerAt(s: string, i: int)
    requires 0 <= i < |s|
    ensures Lower(s)[i] == LowerChar(s[i])
  {
    if i > 0 {
      LowerAt(s[1..], i - 1);
    }
  }

  /** Lower-casing twice is lower-casing once; the search functions rely on
      this when they lower an already lowered string again. */
  lemma {:induction false} LowerIdempotent(s: string)
    ensures Lower(Lower(s)) == Lower(s)
  {
    if s != [] {
      LowerIdempotent(s[1..]);
      assert Lower(s)[1..] == Lower(s[1..]);
    }
  }

  /** s holds no ASCII capital. */
  predicate IsLowerCase(s: string) {
    forall k :: 0 <= k < |s| ==> !IsUpper(s[k])
  }

  /** The result of lower-casing is in lower case. */
  lemma LowerIsLowerCase(s: string)
    ensures IsLowerCase(Lower(s))
  {
    forall k | 0 <= k < |s|
      ensures !IsUpper(Lower(s)[k])
    {
      LowerAt(s, k);
    }
  }

  /** Lower-casing a string already in lower case changes nothing. */
  lemma {:induction false} LowerOfLowerCase(s: string)
    requires IsLowerCase(s)
    ensures Lower(s) == s
  {
    if s != [] {
      assert IsLowerCase(s[1..]) by {
        forall k | 0 <= k < |s| - 1
          ensures !IsUpper(s[1..][k])
        {
          assert s[1..][k] == s[k + 1];
        }
      }
      LowerOfLowerCase(s[1..]);
      assert s == [s[0]] + s[1..];
    }
  }

  /** Lower-casing commutes with taking a slice. */
  lemma {:induction false} LowerSlice(s: string, i: int, j: int)
    requires 0 <= i <= j <= |s|
    ensures Lower(s[i..j]) == Lower(s)[i..j]
  {
    forall k | 0 <= k < j - i
      ensures Lower(s[i..j])[k] == Lower(s)[i..j][k]
    {
      LowerAt(s[i..j], k);
      LowerAt(s, i + k);
    }
  }

  /** Python's `ord`: the code point of a character. */
  function Ord(c: char): (r: nat)
    ensures r < 0x11_0000
  {
    c as int
  }

  /** Python's normalisation of one slice bound against a length n: a
      negative bound counts from the end, and the result is clamped into
      0..n. */
  function SliceBound(i: int, n: nat): (r: nat)
    ensures r <= n
    ensures 0 <= i <= n ==> r == i
    ensures i > n ==> r == n
    ensures i < 0 <= i + n ==> r == i + n
    ensures i + n < 0 ==> r == 0
  {
    if i < 0 then (if i + n < 0 then 0 else i + n)
    else if i > n then n
    else i
  }

  /** Python's `s[lo:hi]`: bounds outside 0..|s| are first normalised as
      Python does (negative ones count from the end, then both are clamped),
      and the slice between the normalised bounds is taken; it never fails,
      and is empty when the bounds are out of order. */
  function Slice(s: string, lo: int, hi: int): (r: string)
    ensures |r| <= |s|
    ensures 0 <= lo <= hi <= |s| ==> r == s[lo..hi]
    ensures 0 <= hi <= lo ==> r == []
    decreases if 0 <= lo <= |s| && 0 <= hi <= |s| then 0 else 1
  {
    if 0 <= lo <= |s| && 0 <= hi <= |s| then (if lo < hi then s[lo..hi] else [])
    else Slice(s, SliceBound(lo, |s|), SliceBound(hi, |s|))
  }

  /** Python's `''.join(parts)`. */
  function Join(parts: seq<string>): string {
    if parts == [] then [] else Join(parts[..|parts| - 1]) + parts[|parts| - 1]
  }

  /** Joining one more part appends it. */
  lemma JoinAppend(parts: seq<string>, x: string)
    ensures Join(parts + [x]) == Join(parts) + x
  {
    assert (parts + [x])[..|parts|] == parts;
  }

  /** Joining two lists of parts one after the other. */
  lemma {:induction false} JoinConcat(xs: seq<string>, ys: seq<string>)
    ensures Join(xs + ys) == Join(xs) + Join(ys)
    decreases |ys|
  {
    if ys == [] {
      assert xs + ys == xs;
    } else {
      var init, y := ys[..|ys| - 1], ys[|ys| - 1];
      assert ys == init + [y];
      assert xs + ys == (xs + init) + [y];
      JoinConcat(xs, init);
      JoinAppend(xs + init, y);
      JoinAppend(init, y);
    }
  }
}
