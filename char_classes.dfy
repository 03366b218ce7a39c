/** The character classes used by the two validator patterns, with the meaning
    an ECMAScript regular expression without the `u` or `i` flag gives them. */
module CharClasses {

  /** `\s`: the ECMAScript WhiteSpace and LineTerminator code points, that is
      TAB, VT, FF, SP, NBSP, ZWNBSP (U+FEFF), the other Unicode "Zs" space
      separators, LF, CR, LINE SEPARATOR and PARAGRAPH SEPARATOR. NEL
      (U+0085) is not in the set, and neither is U+180E, which left "Zs" in
      Unicode 6.3. No whitespace character is one of the patterns' literals. */
  predicate IsWhitespace(c: char): (r: bool)
    ensures r ==> c != '@' && c != '.' && !('0' <= c <= '9')
    ensures c == '\U{0085}' || c == '\U{180E}' ==> !r
  {
    c == '\t' || c == '\n' || c == '\U{000B}' || c == '\U{000C}' || c == '\r'
    || c == ' ' || c == '\U{00A0}' || c == '\U{1680}'
    || ('\U{2000}' <= c <= '\U{200A}')
    || c == '\U{2028}' || c == '\U{2029}' || c == '\U{202F}' || c == '\U{205F}'
    || c == '\U{3000}' || c == '\U{FEFF}'
  }

  /** `\d` without the `u` flag: the ASCII digits only. */
  predicate IsDigit(c: char): (r: bool)
    ensures r ==> !IsWhitespace(c) && c != '@' && c != '.'
  {
    '0' <= c <= '9'
  }

  /** `[6-9]`: the leading digit of a mobile number. */
  predicate IsMobileLead(c: char): (r: bool)
    ensures r ==> IsDigit(c)
    ensures c == '0' || c == '1' || c == '2' || c == '3' || c == '4' || c == '5' ==> !r
  {
    '6' <= c <= '9'
  }

  /** `[^\s@]`: a character allowed in any of the three runs of an address. */
  predicate IsAddressChar(c: char): (r: bool)
    ensures r ==> c != '@'
    ensures c == '.' || IsDigit(c) ==> r
  {
    !IsWhitespace(c) && c != '@'
  }

  /** Every character of `t` is an address character. */
  predicate AllAddressChars(t: string) {
    forall i :: 0 <= i < |t| ==> IsAddressChar(t[i])
  }

  /** No character of `s` is whitespace. */
  predicate NoWhitespace(s: string) {
    forall i :: 0 <= i < |s| ==> !IsWhitespace(s[i])
  }
}
