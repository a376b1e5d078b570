/** The polynomial hash of app.py's `rabin_karp_search`: Horner's rule with
    base 256 modulo 101, and the rule that rolls the hash of one window into
    the hash of the next. */
module RollingHash {
  import opened Text

  /** `d`, the number of characters in the input alphabet. */
  const Base: int := 256
  /** `prime`, the modulus. */
  const Prime: int := 101

  function Pow(b: int, e: nat): int {
    if e == 0 then 1 else b * Pow(b, e - 1)
  }

  /** The hash the scanner keeps: Horner's rule `h := (d*h + ord(c)) % prime`
      over the characters of s, from first to last. */
  function Hash(s: string): (h: int)
    ensures 0 <= h < Prime
  {
    if s == [] then 0 else (Base * Hash(s[..|s| - 1]) + Ord(s[|s| - 1])) % Prime
  }

  /** The exact polynomial sum of ord(s[k]) * 256^(|s|-1-k), without any
      reduction. */
  function Poly(s: string): int {
    if s == [] then 0 else Base * Poly(s[..|s| - 1]) + Ord(s[|s| - 1])
  }

  /** Python's and Dafny's `%` agree for a positive modulus: adding a
      multiple of the modulus does not change the remainder. */
  lemma ModAddMultiple(y: int, k: int)
    ensures (y + Prime * k) % Prime == y % Prime
  {
    var q := y / Prime;
    var r := y % Prime;
    assert y == Prime * q + r;
    assert y + Prime * k == Prime * (q + k) + r;
  }

  /** Reducing after every step gives the reduced polynomial. */
  lemma {:induction false} HashIsPolyMod(s: string)
    ensures Hash(s) == Poly(s) % Prime
  {
    if s != [] {
      var init := s[..|s| - 1];
      HashIsPolyMod(init);
      var a := Poly(init);
      var x := Ord(s[|s| - 1]);
      assert a == Prime * (a / Prime) + a % Prime;
      assert Base * a + x == (Base * (a % Prime) + x) + Prime * (Base * (a / Prime));
      ModAddMultiple(Base * (a % Prime) + x, Base * (a / Prime));
    }
  }

  /** The polynomial split at its first character. */
  lemma {:induction false} PolyFront(s: string)
    requires |s| >= 1
    ensures Poly(s) == Ord(s[0]) * Pow(Base, |s| - 1) + Poly(s[1..])
  {
    if |s| > 1 {
      var init := s[..|s| - 1];
      PolyFront(init);
      assert init[1..] == s[1..][..|s| - 2];
      assert init[0] == s[0];
      calc {
        Poly(s);
        Base * Poly(init) + Ord(s[|s| - 1]);
        Base * (Ord(s[0]) * Pow(Base, |s| - 2) + Poly(init[1..])) + Ord(s[|s| - 1]);
        { assert Base * (Ord(s[0]) * Pow(Base, |s| - 2)) == Ord(s[0]) * (Base * Pow(Base, |s| - 2)); }
        Ord(s[0]) * Pow(Base, |s| - 1) + (Base * Poly(init[1..]) + Ord(s[|s| - 1]));
        Ord(s[0]) * Pow(Base, |s| - 1) + Poly(s[1..]);
      }
    }
  }

  /** Dropping the first character and appending one at the end, in exact
      arithmetic. */
  lemma PolyRoll(t: string, i: nat, L: nat)
    requires L >= 1 && i + L < |t|
    ensures Poly(t[i + 1..i + 1 + L]) == Base * (Poly(t[i..i + L]) - Ord(t[i]) * Pow(Base, L - 1)) + Ord(t[i + L])
  {
    var s := t[i..i + L + 1];
    assert s[..|s| - 1] == t[i..i + L];
    assert s[1..] == t[i + 1..i + 1 + L];
    PolyFront(s);
    assert Pow(Base, L) == Base * Pow(Base, L - 1);
    assert Ord(t[i]) * Pow(Base, L) == Base * (Ord(t[i]) * Pow(Base, L - 1));
  }

  /** The rolling formula may use the reduced values of the window's
      polynomial and of 256^(L-1). */
  lemma ModRoll(A: int, P: int, c: int, x: int)
    ensures (Base * (A % Prime - c * (P % Prime)) + x) % Prime == (Base * (A - c * P) + x) % Prime
  {
    var a, qa := A % Prime, A / Prime;
    var h, qp := P % Prime, P / Prime;
    assert A == Prime * qa + a;
    assert P == Prime * qp + h;
    assert c * P == c * h + Prime * (c * qp);
    assert Base * (A - c * P) + x == (Base * (a - c * h) + x) + Prime * (Base * qa - Base * (c * qp));
    ModAddMultiple(Base * (a - c * h) + x, Base * qa - Base * (c * qp));
  }

  /** The rolling step of the scanner is exact: with h = 256^(L-1) mod 101,
      `(d*(hash(w) - ord(t[i])*h) + ord(t[i+L])) % prime` is the hash of the
      window one position further on. */
  lemma RollHash(t: string, i: nat, L: nat)
    requires L >= 1 && i + L < |t|
    ensures Hash(t[i + 1..i + 1 + L])
            == (Base * (Hash(t[i..i + L]) - Ord(t[i]) * (Pow(Base, L - 1) % Prime)) + Ord(t[i + L])) % Prime
  {
    PolyRoll(t, i, L);
    HashIsPolyMod(t[i..i + L]);
    HashIsPolyMod(t[i + 1..i + 1 + L]);
    ModRoll(Poly(t[i..i + L]), Pow(Base, L - 1), Ord(t[i]), Ord(t[i + L]));
  }
}
