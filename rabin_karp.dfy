/** `rabin_karp_search` of app.py: a rolling-hash scanner over the
    lower-cased text that confirms every hash hit by comparing the window
    itself. */
module RabinKarp {
  import opened Text
  import opened SearchSpec
  import opened RollingHash

  /** Hashes the pattern and the first window, then visits every start
      offset once: a hash hit is recorded only when the window really equals
      the pattern, and the window hash is rolled forward with h = 256^(L-1)
      mod 101. The result is every occurrence, in increasing order, which is
      also what BoyerMooreSearch returns. */
  method RabinKarpSearch(text: string, pattern: string) returns (matches: seq<nat>)
    ensures matches == Occurrences(Lower(text), Lower(pattern))
  {
    var t := Lower(text);
    var p := Lower(pattern);
    matches := [];

    if |p| == 0 || |t| == 0 {
      return;
    }

    // `prime` and `d` of the source are the module constants Prime and Base
    var patternLength := |p|;
    var textLength := |t|;

    if patternLength > textLength {
      return;
    }

    LowerIsLowerCase(text);
    matches := ScanWindows(t, p);
  }

  /** The hashing and the main loop of the scanner, over the lowered text
      t and pattern p. */
  method ScanWindows(t: string, p: string) returns (matches: seq<nat>)
    requires IsLowerCase(t) && 1 <= |p| <= |t|
    ensures matches == Occurrences(t, p)
  {
    var patternLength := |p|;
    var textLength := |t|;
    var h := Pow(Base, patternLength - 1) % Prime;
    var patternHash, textHash := InitialHashes(p, t);
    matches := [];

    for i := 0 to textLength - patternLength + 1
      invariant i <= textLength - patternLength ==> textHash == Hash(t[i..i + patternLength])
      invariant matches == OccurrencesBefore(t, p, i)
    {
      matches := RecordWindow(t, p, i, matches, patternHash, textHash);

      if i < textLength - patternLength {
        textHash := NextWindowHash(t, patternLength, i, textHash, h);
      }
    }
    OccurrencesBeforePastEnd(t, p, textLength - patternLength + 1);
  }

  /** The first loop of the scanner: Horner's rule over the pattern and,
      in step with it, over the first window of the text. */
  method InitialHashes(p: string, t: string) returns (patternHash: int, windowHash: int)
    requires |p| <= |t|
    ensures patternHash == Hash(p) && windowHash == Hash(t[0..|p|])
  {
    patternHash := 0;
    windowHash := 0;
    for i := 0 to |p|
      invariant patternHash == Hash(p[..i])
      invariant windowHash == Hash(t[..i])
    {
      HashStep(p, i, patternHash);
      HashStep(t, i, windowHash);
      patternHash := (Base * patternHash + Ord(p[i])) % Prime;
      windowHash := (Base * windowHash + Ord(t[i])) % Prime;
    }
    assert p[..|p|] == p;
    assert t[..|p|] == t[0..|p|];
  }

  /** The rolling update of the scanner, including its guard that adds the
      modulus back to a negative remainder: it turns the hash of the window at
      i into the hash of the window at i + 1. */
  method NextWindowHash(t: string, L: nat, i: nat, windowHash: int, h: int) returns (next: int)
    requires L >= 1 && i + L < |t|
    requires windowHash == Hash(t[i..i + L]) && h == Pow(Base, L - 1) % Prime
    ensures next == Hash(t[i + 1..i + 1 + L])
  {
    RollStep(t, L, i, windowHash, h);
    next := (Base * (windowHash - Ord(t[i]) * h) + Ord(t[i + L])) % Prime;
    // `%` with a positive modulus is never negative, so the guard never fires
    assert next >= 0;
    if next < 0 {
      next := next + Prime;
    }
  }

  /** One step of Horner's rule extends the hash of a prefix by one
      character. */
  lemma HashStep(s: string, i: nat, prefixHash: int)
    requires i < |s| && prefixHash == Hash(s[..i])
    ensures (Base * prefixHash + Ord(s[i])) % Prime == Hash(s[..i + 1])
  {
    assert s[..i + 1][..i] == s[..i];
  }

  /** The rolling update applied to the hash of the window at i gives the
      hash of the window at i + 1. */
  lemma RollStep(t: string, L: nat, i: nat, windowHash: int, h: int)
    requires L >= 1 && i + L < |t|
    requires windowHash == Hash(t[i..i + L]) && h == Pow(Base, L - 1) % Prime
    ensures (Base * (windowHash - Ord(t[i]) * h) + Ord(t[i + L])) % Prime == Hash(t[i + 1..i + 1 + L])
  {
    RollHash(t, i, L);
  }

  /** The hash test and the confirmation at offset i: i is appended exactly
      when the hashes agree and the lowered window equals the pattern, which
      extends the occurrences below i to those below i + 1. */
  method RecordWindow(t: string, p: string, i: nat, found: seq<nat>, patternHash: int, windowHash: int)
    returns (matches: seq<nat>)
    requires IsLowerCase(t) && |p| >= 1 && i + |p| <= |t|
    requires found == OccurrencesBefore(t, p, i)
    requires patternHash == Hash(p) && windowHash == Hash(t[i..i + |p|])
    ensures matches == OccurrencesBefore(t, p, i + 1)
  {
    HitIffMatch(t, p, |p|, i, patternHash == windowHash);
    matches := found;
    if patternHash == windowHash {
      if Lower(t[i..i + |p|]) == p {
        matches := matches + [i];
      }
    }
  }

  /** No false positives, no misses: the scanner records the window at i
      exactly when it equals the pattern. A window equal to the pattern has
      the pattern's hash, so the hash test never hides an occurrence, and the
      confirmation rejects every hash collision. */
  lemma HitIffMatch(t: string, p: string, L: nat, i: nat, hashesEqual: bool)
    requires IsLowerCase(t) && L == |p| && i + L <= |t|
    requires t[i..i + L] == p ==> hashesEqual
    ensures (hashesEqual && Lower(t[i..i + L]) == p) <==> MatchesAt(t, p, i)
  {
    var window := t[i..i + L];
    assert IsLowerCase(window) by {
      forall k | 0 <= k < L
        ensures !IsUpper(window[k])
      {
        assert window[k] == t[i + k];
      }
    }
    LowerOfLowerCase(window);
  }
}
