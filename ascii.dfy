/** Rust's `str::eq_ignore_ascii_case`, used to compare persistent UUIDs.
    Only the letters 'A' to 'Z' are folded; every other character must match
    exactly. */
module Ascii {

  function ToAsciiLower(c: char): (r: char)
    ensures 'A' <= c <= 'Z' ==> 'a' <= r <= 'z' && r as int - c as int == 32
    ensures !('A' <= c <= 'Z') ==> r == c
  {
    if 'A' <= c <= 'Z' then (c as int + 32) as char else c
  }

  function ToAsciiUpper(c: char): (r: char)
    ensures 'a' <= c <= 'z' ==> 'A' <= r <= 'Z' && c as int - r as int == 32
    ensures !('a' <= c <= 'z') ==> r == c
  {
    if 'a' <= c <= 'z' then (c as int - 32) as char else c
  }

  /** The string with every ASCII letter lower-cased. */
  function LowerString(s: string): (r: string)
    ensures |r| == |s|
    ensures forall i :: 0 <= i < |s| ==> r[i] == ToAsciiLower(s[i])
  {
    if s == [] then [] else [ToAsciiLower(s[0])] + LowerString(s[1..])
  }

  /** The string with every ASCII letter upper-cased. */
  function UpperString(s: string): (r: string)
    ensures |r| == |s|
    ensures forall i :: 0 <= i < |s| ==> r[i] == ToAsciiUpper(s[i])
  {
    if s == [] then [] else [ToAsciiUpper(s[0])] + UpperString(s[1..])
  }

  /** Equal length and, position by position, equal after folding ASCII case. */
  predicate EqIgnoreAsciiCase(a: string, b: string)
    ensures EqIgnoreAsciiCase(a, b) ==> |a| == |b|
  {
    |a| == |b| && (a == [] || (ToAsciiLower(a[0]) == ToAsciiLower(b[0]) && EqIgnoreAsciiCase(a[1..], b[1..])))
  }

  /** Case-insensitive equality is equality of the lower-cased strings. */
  lemma {:induction false} EqIgnoreAsciiCaseIsLowerEquality(a: string, b: string)
    ensures EqIgnoreAsciiCase(a, b) <==> LowerString(a) == LowerString(b)
  {
    if |a| == |b| && a != [] {
      EqIgnoreAsciiCaseIsLowerEquality(a[1..], b[1..]);
      assert LowerString(a) == [ToAsciiLower(a[0])] + LowerString(a[1..]);
      assert LowerString(b) == [ToAsciiLower(b[0])] + LowerString(b[1..]);
    }
  }

  lemma EqIgnoreAsciiCaseReflexive(a: string)
    ensures EqIgnoreAsciiCase(a, a)
  {
    EqIgnoreAsciiCaseIsLowerEquality(a, a);
  }

  lemma EqIgnoreAsciiCaseSymmetric(a: string, b: string)
    ensures EqIgnoreAsciiCase(a, b) <==> EqIgnoreAsciiCase(b, a)
  {
    EqIgnoreAsciiCaseIsLowerEquality(a, b);
    EqIgnoreAsciiCaseIsLowerEquality(b, a);
  }

  lemma EqIgnoreAsciiCaseTransitive(a: string, b: string, c: string)
    requires EqIgnoreAsciiCase(a, b) && EqIgnoreAsciiCase(b, c)
    ensures EqIgnoreAsciiCase(a, c)
  {
    EqIgnoreAsciiCaseIsLowerEquality(a, b);
    EqIgnoreAsciiCaseIsLowerEquality(b, c);
    EqIgnoreAsciiCaseIsLowerEquality(a, c);
  }

  /** Any re-casing of a string's ASCII letters compares equal to it:
      the all-upper and all-lower spellings in particular, and every string
      that differs from it only in the case of single letters. */
  lemma RecasingMatches(s: string, t: string)
    requires |t| == |s|
    requires forall i :: 0 <= i < |s| ==> t[i] == s[i] || t[i] == ToAsciiUpper(s[i]) || t[i] == ToAsciiLower(s[i])
    ensures EqIgnoreAsciiCase(t, s)
  {
    forall i | 0 <= i < |s| ensures LowerString(t)[i] == LowerString(s)[i] {
      RecasedCharFolds(s[i], t[i]);
    }
    assert LowerString(t) == LowerString(s);
    EqIgnoreAsciiCaseIsLowerEquality(t, s);
  }

  /** A character, its upper-case and its lower-case form fold to the same. */
  lemma RecasedCharFolds(c: char, d: char)
    requires d == c || d == ToAsciiUpper(c) || d == ToAsciiLower(c)
    ensures ToAsciiLower(d) == ToAsciiLower(c)
  {
  }

  lemma CaseConversionsMatch(s: string)
    ensures EqIgnoreAsciiCase(UpperString(s), s)
    ensures EqIgnoreAsciiCase(LowerString(s), s)
  {
    RecasingMatches(s, UpperString(s));
    RecasingMatches(s, LowerString(s));
  }

  /** Letters other than ASCII ones keep the comparison strict: two strings
      that differ at a position where neither holds an ASCII letter do not
      compare equal. */
  lemma NonLetterDifferenceDistinguishes(a: string, b: string, i: nat)
    requires |a| == |b| && i < |a|
    requires !('A' <= a[i] <= 'Z') && !('a' <= a[i] <= 'z')
    requires !('A' <= b[i] <= 'Z') && !('a' <= b[i] <= 'z')
    requires a[i] != b[i]
    ensures !EqIgnoreAsciiCase(a, b)
  {
    EqIgnoreAsciiCaseIsLowerEquality(a, b);
    assert LowerString(a)[i] != LowerString(b)[i];
  }
}
