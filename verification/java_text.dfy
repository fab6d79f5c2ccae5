/** The three java.lang.String predicates the processor relies on, over
    strings modelled as sequences of Unicode scalar values:
    `startsWith`, `equalsIgnoreCase` (restricted to ASCII case folding)
    and `isBlank` (every character satisfies Character.isWhitespace). */
module JavaText {

  /** ASCII lower-casing: 'A'..'Z' become 'a'..'z', every other character
      is left alone. */
  function AsciiLower(c: char): (d: char)
    ensures 'A' <= c <= 'Z' ==> 'a' <= d <= 'z'
    ensures !('A' <= c <= 'Z') ==> d == c
  {
    if 'A' <= c <= 'Z' then (c as int + 32) as char else c
  }

  /** `a.equalsIgnoreCase(b)`, with case folding restricted to ASCII letters. */
  predicate EqualsIgnoreCase(a: string, b: string)
  {
    |a| == |b| && forall i :: 0 <= i < |a| ==> AsciiLower(a[i]) == AsciiLower(b[i])
  }

  /** `s.startsWith(p)`. */
  predicate StartsWith(s: string, p: string)
  {
    |p| <= |s| && s[..|p|] == p
  }

  /** Character.isWhitespace: the Unicode space, line and paragraph
      separators other than the three non-breaking spaces (U+00A0, U+2007,
      U+202F), plus the controls U+0009..U+000D and U+001C..U+001F. */
  predicate IsWhitespace(c: char)
  {
    || '\U{0009}' <= c <= '\U{000D}'
    || '\U{001C}' <= c <= '\U{0020}'
    || c == '\U{1680}'
    || '\U{2000}' <= c <= '\U{2006}'
    || '\U{2008}' <= c <= '\U{200A}'
    || c == '\U{2028}' || c == '\U{2029}'
    || c == '\U{205F}' || c == '\U{3000}'
  }

  /** `s.isBlank()`: empty, or white space only. */
  predicate IsBlank(s: string)
  {
    forall i :: 0 <= i < |s| ==> IsWhitespace(s[i])
  }

  /** Case-insensitive equality is an equivalence relation, so any two
      spellings of a keyword that differ only in ASCII case are treated
      alike by every comparison against that keyword. */
  lemma EqualsIgnoreCaseEquivalence(a: string, b: string, c: string)
    ensures EqualsIgnoreCase(a, a)
    ensures EqualsIgnoreCase(a, b) ==> EqualsIgnoreCase(b, a)
    ensures EqualsIgnoreCase(a, b) && EqualsIgnoreCase(b, c) ==> EqualsIgnoreCase(a, c)
  {
  }

  /** A string that starts with '-' is never blank: '-' is not white space. */
  lemma DashStartedNotBlank(s: string)
    requires StartsWith(s, "-")
    ensures !IsBlank(s)
  {
    assert s[0] == "-"[0];
  }
}
