/** Values and character classes of the JavaScript runtime that the cookie code relies on. */
module JsBase {

  datatype Option<+T> = None | Some(value: T)

  /** The completion of a call that may throw a URIError (decodeURIComponent does). */
  datatype Outcome<+T> = Ok(value: T) | UriError

  /** Prepends a character to a successful string result; a thrown error propagates. */
  function Prepend(c: char, rest: Outcome<string>): Outcome<string> {
    match rest
    case Ok(s) => Ok([c] + s)
    case UriError => UriError
  }

  /** The upper-case hexadecimal digit that both encoders emit. */
  function HexDigit(d: nat): (c: char)
    requires d < 16
    ensures IsHexChar(c) && HexValue(c) == d
    ensures '0' <= c <= '9' || 'A' <= c <= 'F'
  {
    if d < 10 then ('0' as int + d) as char else ('A' as int + d - 10) as char
  }

  predicate IsHexChar(c: char) {
    '0' <= c <= '9' || 'a' <= c <= 'f' || 'A' <= c <= 'F'
  }

  function HexValue(c: char): (d: nat)
    requires IsHexChar(c)
    ensures d < 16
  {
    if '0' <= c <= '9' then c as int - '0' as int
    else if 'a' <= c <= 'f' then c as int - 'a' as int + 10
    else c as int - 'A' as int + 10
  }

  /** ECMA-262 LineTerminator: the characters that `.` in a regular expression does not match. */
  predicate IsLineTerminator(c: char) {
    c == '\n' || c == '\r' || c == '\U{2028}' || c == '\U{2029}'
  }

  /** ECMA-262 WhiteSpace: TAB, VT, FF, ZWNBSP and the Unicode space separators. */
  predicate IsWhiteSpace(c: char) {
    c == '\t' || c == '\U{000B}' || c == '\U{000C}' || c == ' ' || c == '\U{00A0}' || c == '\U{FEFF}'
    || c == '\U{1680}' || ('\U{2000}' <= c <= '\U{200A}') || c == '\U{202F}' || c == '\U{205F}'
    || c == '\U{3000}'
  }

  /** The regular-expression class `\s`: WhiteSpace or LineTerminator. */
  predicate IsRegexSpace(c: char) {
    IsWhiteSpace(c) || IsLineTerminator(c)
  }
}
