/** The Java string predicates the request filter relies on. */
module JavaText {

  /** `Character.isWhitespace`: the Unicode space, line and paragraph separators
      other than the three non-breaking spaces, plus the ASCII controls
      TAB, LF, VT, FF, CR and the four information separators U+001C..U+001F. */
  predicate IsWhitespace(c: char)
  {
    var n := c as int;
    || (0x09 <= n <= 0x0D)
    || (0x1C <= n <= 0x1F)
    || n == 0x20
    || n == 0x1680
    || (0x2000 <= n <= 0x2006)
    || (0x2008 <= n <= 0x200A)
    || n == 0x2028
    || n == 0x2029
    || n == 0x205F
    || n == 0x3000
  }

  /** Spring's `StringUtils.hasText` on a non-null string: non-empty and
      holding at least one character that is not whitespace. */
  predicate HasText(s: string)
  {
    exists i :: 0 <= i < |s| && !IsWhitespace(s[i])
  }

  /** `String.startsWith`: an exact, case-sensitive prefix test. */
  predicate StartsWith(s: string, prefix: string)
  {
    |prefix| <= |s| && s[..|prefix|] == prefix
  }

  /** A string beginning with a non-whitespace character has text, whatever follows it. */
  lemma HasTextOfPrefixed(prefix: string, rest: string)
    requires |prefix| > 0 && !IsWhitespace(prefix[0])
    ensures HasText(prefix + rest)
  {
    assert (prefix + rest)[0] == prefix[0];
  }

  /** A string made only of whitespace has no text. */
  lemma NoTextInBlanks(s: string)
    requires forall i :: 0 <= i < |s| ==> IsWhitespace(s[i])
    ensures !HasText(s)
  {
  }
}
