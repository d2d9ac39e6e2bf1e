/** ASCII case mapping, standing in for JavaScript's `toLowerCase`,
    `toUpperCase` and the `charAt(0).toUpperCase() + slice(1)` idiom used to
    label the badges of a character card. Characters outside `A`-`Z` and
    `a`-`z` are left unchanged. */
module Ascii {

  predicate IsUpperChar(c: char) {
    'A' <= c <= 'Z'
  }

  predicate IsLowerChar(c: char) {
    'a' <= c <= 'z'
  }

  /** The ASCII lower-case of `c`. */
  function LowerChar(c: char): (r: char)
    ensures !IsUpperChar(r)
    ensures IsUpperChar(c) ==> IsLowerChar(r) && r as int == c as int + 32
    ensures !IsUpperChar(c) ==> r == c
  {
    if IsUpperChar(c) then (c as int + 32) as char else c
  }

  /** The ASCII upper-case of `c`. */
  function UpperChar(c: char): (r: char)
    ensures !IsLowerChar(r)
    ensures IsLowerChar(c) ==> IsUpperChar(r) && r as int == c as int - 32
    ensures !IsLowerChar(c) ==> r == c
  {
    if IsLowerChar(c) then (c as int - 32) as char else c
  }

  /** Upper-casing a character does not change its lower-case. */
  lemma LowerOfUpper(c: char)
    ensures LowerChar(UpperChar(c)) == LowerChar(c)
  {
  }

  /** A string holding no ASCII upper-case letter. */
  predicate IsLowerCase(s: string) {
    forall i :: 0 <= i < |s| ==> !IsUpperChar(s[i])
  }

  /** `s.toLowerCase()`: every character mapped through `LowerChar`. */
  function ToLower(s: string): (r: string)
    ensures |r| == |s|
    ensures IsLowerCase(r)
    ensures IsLowerCase(s) ==> r == s
  {
    seq(|s|, i requires 0 <= i < |s| => LowerChar(s[i]))
  }

  /** Lower-casing is idempotent. */
  lemma ToLowerIdempotent(s: string)
    ensures ToLower(ToLower(s)) == ToLower(s)
  {
  }

  /** The two strings have the same length and agree position by position
      up to ASCII case. */
  predicate SameUpToCase(a: string, b: string) {
    |a| == |b| && forall i :: 0 <= i < |a| ==> LowerChar(a[i]) == LowerChar(b[i])
  }

  /** Two strings lower-case to the same string exactly when they agree
      position by position up to case. */
  lemma ToLowerEqual(a: string, b: string)
    ensures ToLower(a) == ToLower(b) <==> SameUpToCase(a, b)
  {
    if SameUpToCase(a, b) {
      assert forall i :: 0 <= i < |a| ==> ToLower(a)[i] == ToLower(b)[i];
    }
    if ToLower(a) == ToLower(b) {
      assert forall i :: 0 <= i < |a| ==> LowerChar(a[i]) == ToLower(a)[i] == ToLower(b)[i];
    }
  }

  /** The badge label of a stored value: its first character upper-cased,
      the rest unchanged; the empty string stays empty. */
  function Capitalize(s: string): (r: string)
    ensures |r| == |s|
    ensures s == [] ==> r == []
    ensures |s| > 0 ==> r[0] == UpperChar(s[0]) && r[1..] == s[1..]
  {
    if |s| == 0 then [] else [UpperChar(s[0])] + s[1..]
  }

  /** Capitalising a label never changes what it lower-cases to, so a
      badge label read back through `toLowerCase` gives the stored value's
      lower-case. */
  lemma {:induction false} CapitalizePreservesLower(s: string)
    ensures ToLower(Capitalize(s)) == ToLower(s)
  {
    if |s| > 0 {
      var c := Capitalize(s);
      forall i | 0 <= i < |s|
        ensures LowerChar(c[i]) == LowerChar(s[i])
      {
        if i == 0 {
          LowerOfUpper(s[0]);
        } else {
          assert c[i] == c[1..][i - 1] == s[1..][i - 1] == s[i];
        }
      }
      ToLowerEqual(c, s);
    }
  }

  /** Capitalising twice is the same as capitalising once. */
  lemma CapitalizeIdempotent(s: string)
    ensures Capitalize(Capitalize(s)) == Capitalize(s)
  {
  }
}
