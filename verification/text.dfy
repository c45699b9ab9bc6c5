/** Character classes of JavaScript regular expressions without the `u` flag:
    `\d` is the ASCII digits only and `\s` is the fixed set of white-space
    characters the ECMAScript standard lists (WhiteSpace and LineTerminator). */
module Text {

  /** `\d`: one of the ASCII characters '0' .. '9'. */
  predicate IsDigit(c: char) {
    '0' <= c <= '9'
  }

  /** Every character of `s` is an ASCII digit. */
  predicate AllDigits(s: string) {
    forall i :: 0 <= i < |s| ==> IsDigit(s[i])
  }

  /** `parseInt` of a one-character digit string. */
  function DigitValue(c: char): (v: nat)
    requires IsDigit(c)
    ensures v <= 9
    ensures c == ('0' as int + v) as char
  {
    c as int - '0' as int
  }

  /** The numeric values of a string of digits, position by position. */
  function DigitValues(s: string): (d: seq<nat>)
    requires AllDigits(s)
    ensures |d| == |s|
    ensures forall i :: 0 <= i < |s| ==> d[i] == DigitValue(s[i])
  {
    seq(|s|, i requires 0 <= i < |s| => DigitValue(s[i]))
  }

  /** ECMAScript's LineTerminator: line feed, carriage return, and the line
      and paragraph separators. */
  predicate IsLineTerminator(c: char) {
    c == '\n' || c == '\r' || c == '\U{2028}' || c == '\U{2029}'
  }

  /** The Unicode space separators (general category Zs). */
  predicate IsSpaceSeparator(c: char) {
    || c == ' ' || c == '\U{00A0}' || c == '\U{1680}'
    || ('\U{2000}' <= c <= '\U{200A}')
    || c == '\U{202F}' || c == '\U{205F}' || c == '\U{3000}'
  }

  /** ECMAScript's WhiteSpace: tab, vertical tab, form feed, the byte-order
      mark and the space separators. */
  predicate IsWhiteSpace(c: char) {
    c == '\t' || c == '\U{000B}' || c == '\U{000C}' || c == '\U{FEFF}' || IsSpaceSeparator(c)
  }

  /** `\s`, listed by code point: the controls U+0009 to U+000D, and the
      rest above U+001F. It is exactly WhiteSpace and LineTerminator, and
      never a digit or `@`. */
  predicate IsSpace(c: char): (r: bool)
    ensures r <==> IsWhiteSpace(c) || IsLineTerminator(c)
    ensures r ==> !IsDigit(c) && c != '@'
  {
    || ('\t' <= c <= '\r')
    || c == ' ' || c == '\U{00A0}' || c == '\U{1680}'
    || ('\U{2000}' <= c <= '\U{200A}')
    || c == '\U{2028}' || c == '\U{2029}' || c == '\U{202F}' || c == '\U{205F}'
    || c == '\U{3000}' || c == '\U{FEFF}'
  }
}
