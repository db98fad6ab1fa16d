/**
 * Case-insensitive string comparison as `String.equalsIgnoreCase` performs it,
 * restricted to the ASCII case mapping.
 */
module CaseFolding {

  function ToUpperAscii(c: char): char {
    if 'a' <= c <= 'z' then (c as int - 32) as char else c
  }

  function ToLowerAscii(c: char): char {
    if 'A' <= c <= 'Z' then (c as int + 32) as char else c
  }

  /**
   * Two characters are equal ignoring case when they are equal, when their upper
   * cases are equal, or when the lower cases of their upper cases are equal
   * (the three tests `equalsIgnoreCase` makes, in that order).
   */
  predicate CharEqualsIgnoreCase(a: char, b: char) {
    || a == b
    || ToUpperAscii(a) == ToUpperAscii(b)
    || ToLowerAscii(ToUpperAscii(a)) == ToLowerAscii(ToUpperAscii(b))
  }

  predicate EqualsIgnoreCase(s: string, t: string) {
    |s| == |t| && forall i :: 0 <= i < |s| ==> CharEqualsIgnoreCase(s[i], t[i])
  }

  /** The string with every ASCII upper-case letter replaced by its lower case. */
  function LowerAscii(s: string): (r: string)
    ensures |r| == |s|
    ensures forall i :: 0 <= i < |s| ==> r[i] == ToLowerAscii(s[i])
  {
    if s == [] then [] else [ToLowerAscii(s[0])] + LowerAscii(s[1..])
  }

  /** Characterisation: two characters are equal ignoring case iff their lower cases agree. */
  lemma CharEqualsIgnoreCaseIsLowerEquality(a: char, b: char)
    ensures CharEqualsIgnoreCase(a, b) <==> ToLowerAscii(a) == ToLowerAscii(b)
  {
    if 'A' <= a <= 'Z' || 'a' <= a <= 'z' {
      assert ToLowerAscii(ToUpperAscii(a)) == ToLowerAscii(a);
    } else {
      assert ToUpperAscii(a) == a && ToLowerAscii(a) == a;
    }
    if 'A' <= b <= 'Z' || 'a' <= b <= 'z' {
      assert ToLowerAscii(ToUpperAscii(b)) == ToLowerAscii(b);
    } else {
      assert ToUpperAscii(b) == b && ToLowerAscii(b) == b;
    }
  }

  /** Characterisation: two strings are equal ignoring case iff their lower-cased forms are equal. */
  lemma EqualsIgnoreCaseIsLowerEquality(s: string, t: string)
    ensures EqualsIgnoreCase(s, t) <==> LowerAscii(s) == LowerAscii(t)
  {
    forall i | 0 <= i < |s| && i < |t|
      ensures CharEqualsIgnoreCase(s[i], t[i]) <==> LowerAscii(s)[i] == LowerAscii(t)[i]
    {
      CharEqualsIgnoreCaseIsLowerEquality(s[i], t[i]);
    }
    if LowerAscii(s) == LowerAscii(t) {
      assert |s| == |t|;
      forall i | 0 <= i < |s| ensures CharEqualsIgnoreCase(s[i], t[i]) {
        assert LowerAscii(s)[i] == LowerAscii(t)[i];
      }
    }
  }

  /** Case-insensitive equality is an equivalence relation. */
  lemma EqualsIgnoreCaseIsEquivalence(s: string, t: string, u: string)
    ensures EqualsIgnoreCase(s, s)
    ensures EqualsIgnoreCase(s, t) ==> EqualsIgnoreCase(t, s)
    ensures EqualsIgnoreCase(s, t) && EqualsIgnoreCase(t, u) ==> EqualsIgnoreCase(s, u)
  {
    EqualsIgnoreCaseIsLowerEquality(s, s);
    EqualsIgnoreCaseIsLowerEquality(s, t);
    EqualsIgnoreCaseIsLowerEquality(t, s);
    EqualsIgnoreCaseIsLowerEquality(t, u);
    EqualsIgnoreCaseIsLowerEquality(s, u);
  }
}
