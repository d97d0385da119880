/**
 * The legacy global functions escape and unescape (ECMA-262 Annex B.2.1.1 and B.2.1.2).
 * They work on UTF-16 code units: a character above U+FFFF is the surrogate pair that
 * JavaScript stores for it, and unescape joins `%uHHHH%uLLLL` pairs back into one character.
 */
module EscapeCoding {
  import opened JsBase

  /** The characters escape leaves alone: letters, digits and  @ * _ + - . / */
  predicate IsEscapeKept(c: char) {
    'A' <= c <= 'Z' || 'a' <= c <= 'z' || '0' <= c <= '9'
    || c == '@' || c == '*' || c == '_' || c == '+' || c == '-' || c == '.' || c == '/'
  }

  /** The characters that can appear in the output of escape. */
  predicate IsEscapedChar(c: char) {
    IsEscapeKept(c) || c == '%'
  }

  predicate IsCodeUnit(u: nat) { u < 0x10000 }
  predicate IsHighSurrogate(u: nat) { 0xD800 <= u < 0xDC00 }
  predicate IsLowSurrogate(u: nat) { 0xDC00 <= u < 0xE000 }

  /** The high and low surrogates of a character above U+FFFF. */
  function HighSurrogate(c: char): (u: nat)
    requires c as int >= 0x10000
    ensures IsHighSurrogate(u)
  {
    0xD800 + (c as int - 0x10000) / 1024
  }

  function LowSurrogate(c: char): (u: nat)
    requires c as int >= 0x10000
    ensures IsLowSurrogate(u)
  {
    0xDC00 + (c as int - 0x10000) % 1024
  }

  /** The code point of a surrogate pair. */
  function CombineSurrogates(hi: nat, lo: nat): (c: char)
    requires IsHighSurrogate(hi) && IsLowSurrogate(lo)
    ensures c as int >= 0x10000
  {
    (0x10000 + (hi - 0xD800) * 1024 + (lo - 0xDC00)) as char
  }

  lemma SurrogatesRoundTrip(c: char)
    requires c as int >= 0x10000
    ensures CombineSurrogates(HighSurrogate(c), LowSurrogate(c)) == c
  {
    var w := c as int - 0x10000;
    assert w == (w / 1024) * 1024 + w % 1024;
  }

  /** `%XY` for a code unit below 256, `%uWXYZ` for any other, with upper-case digits. */
  function EscapeUnit(u: nat): (r: string)
    requires IsCodeUnit(u)
    ensures forall i :: 0 <= i < |r| ==> IsEscapedChar(r[i])
  {
    if u < 256 then ['%', HexDigit(u / 16), HexDigit(u % 16)]
    else ['%', 'u', HexDigit(u / 4096), HexDigit((u / 256) % 16), HexDigit((u / 16) % 16), HexDigit(u % 16)]
  }

  function EscapeChar(c: char): (r: string)
    ensures forall i :: 0 <= i < |r| ==> IsEscapedChar(r[i])
  {
    if IsEscapeKept(c) then [c]
    else if c as int < 0x10000 then EscapeUnit(c as int)
    else EscapeUnit(HighSurrogate(c)) + EscapeUnit(LowSurrogate(c))
  }

  /** escape: kept characters are copied, every other code unit is written in hexadecimal. */
  function Escape(s: string): string {
    if s == [] then [] else EscapeChar(s[0]) + Escape(s[1..])
  }

  /** The code unit written as `%uWXYZ` at the start of `s`, if there is one. */
  function ReadUnit(s: string): (u: Option<nat>)
    ensures u.Some? ==> |s| >= 6 && IsCodeUnit(u.value)
  {
    if |s| >= 6 && s[0] == '%' && s[1] == 'u'
       && IsHexChar(s[2]) && IsHexChar(s[3]) && IsHexChar(s[4]) && IsHexChar(s[5])
    then Some(HexValue(s[2]) * 4096 + HexValue(s[3]) * 256 + HexValue(s[4]) * 16 + HexValue(s[5]))
    else None
  }

  /** The code unit written as `%XY` at the start of `s`, if there is one. */
  function ReadByte(s: string): (b: Option<nat>)
    ensures b.Some? ==> |s| >= 3 && b.value < 256
  {
    if |s| >= 3 && s[0] == '%' && IsHexChar(s[1]) && IsHexChar(s[2])
    then Some(HexValue(s[1]) * 16 + HexValue(s[2]))
    else None
  }

  /**
   * unescape: `%uWXYZ` (tried first) and `%XY` become the code unit they spell, everything else
   * is copied; it never fails. A `%u` high surrogate directly followed by a `%u` low surrogate is
   * the one character they form together.
   */
  function Unescape(s: string): string
    decreases |s|
  {
    if s == [] then []
    else match ReadUnit(s)
      case Some(u) =>
        if !IsHighSurrogate(u) && !IsLowSurrogate(u) then [u as char] + Unescape(s[6..])
        else if IsHighSurrogate(u) && ReadUnit(s[6..]).Some? && IsLowSurrogate(ReadUnit(s[6..]).value)
        then [CombineSurrogates(u, ReadUnit(s[6..]).value)] + Unescape(s[12..])
        else s[..6] + Unescape(s[6..])
      case None =>
        match ReadByte(s)
        case Some(b) => [b as char] + Unescape(s[3..])
        case None => [s[0]] + Unescape(s[1..])
  }

  lemma ReadEscapedUnit(u: nat, rest: string)
    requires IsCodeUnit(u) && u >= 256
    ensures ReadUnit(EscapeUnit(u) + rest) == Some(u)
  {
    var s := EscapeUnit(u) + rest;
    var a := u / 16;
    var b := a / 16;
    assert u / 256 == b && (u / 16) % 16 == a % 16;
    assert u / 4096 == b / 16 && (u / 256) % 16 == b % 16;
    HexDigits4(u / 4096, b % 16, a % 16, u % 16);
    assert s[..6] == EscapeUnit(u);
    assert u == ((u / 4096) * 16 + b % 16) * 256 + (a % 16) * 16 + u % 16;
  }

  lemma HexDigits4(d0: nat, d1: nat, d2: nat, d3: nat)
    requires d0 < 16 && d1 < 16 && d2 < 16 && d3 < 16
    ensures HexValue(HexDigit(d0)) == d0 && HexValue(HexDigit(d1)) == d1
    ensures HexValue(HexDigit(d2)) == d2 && HexValue(HexDigit(d3)) == d3
  {
  }

  lemma UnescapeEscapedByte(c: char, rest: string)
    requires !IsEscapeKept(c) && c as int < 256
    ensures Unescape(EscapeChar(c) + rest) == [c] + Unescape(rest)
  {
    var s := EscapeChar(c) + rest;
    var v := c as int;
    assert s[..3] == EscapeUnit(v);
    assert ReadUnit(s) == None;
    assert v == (v / 16) * 16 + v % 16;
    assert ReadByte(s) == Some(v);
    assert s[3..] == rest;
  }

  lemma UnescapeEscapedPair(c: char, rest: string)
    requires c as int >= 0x10000
    ensures Unescape(EscapeChar(c) + rest) == [c] + Unescape(rest)
  {
    var s := EscapeChar(c) + rest;
    var hi, lo := HighSurrogate(c), LowSurrogate(c);
    assert s == EscapeUnit(hi) + (EscapeUnit(lo) + rest);
    ReadEscapedUnit(hi, EscapeUnit(lo) + rest);
    assert s[6..] == EscapeUnit(lo) + rest;
    ReadEscapedUnit(lo, rest);
    assert s[6..][6..] == rest;
    assert s[12..] == rest;
    SurrogatesRoundTrip(c);
  }

  /** Unescaping one escaped character followed by anything gives the character first. */
  lemma UnescapeEscapedChar(c: char, rest: string)
    ensures Unescape(EscapeChar(c) + rest) == [c] + Unescape(rest)
  {
    var s := EscapeChar(c) + rest;
    var v := c as int;
    if IsEscapeKept(c) {
      assert s[1..] == rest;
    } else if v < 256 {
      UnescapeEscapedByte(c, rest);
    } else if v < 0x10000 {
      ReadEscapedUnit(v, rest);
      assert s[6..] == rest;
    } else {
      UnescapeEscapedPair(c, rest);
    }
  }

  /** unescape inverts escape on every string. */
  lemma {:induction false} EscapeRoundTrip(s: string)
    ensures Unescape(Escape(s)) == s
  {
    if s != [] {
      EscapeRoundTrip(s[1..]);
      UnescapeEscapedChar(s[0], Escape(s[1..]));
      assert [s[0]] + s[1..] == s;
    }
  }

  /** Every character escape emits is a kept character or `%`. */
  lemma {:induction false} EscapedAlphabet(s: string)
    ensures forall i :: 0 <= i < |Escape(s)| ==> IsEscapedChar(Escape(s)[i])
  {
    if s != [] {
      EscapedAlphabet(s[1..]);
    }
  }

  /** escape never emits `;`, `=`, a space or a line terminator. */
  lemma EscapedCharIsNoSeparator(c: char)
    requires IsEscapedChar(c)
    ensures c != ';' && c != '=' && !IsRegexSpace(c)
  {
  }

  lemma EscapedHasNoSeparator(s: string)
    ensures ';' !in Escape(s) && '=' !in Escape(s)
    ensures forall c :: c in Escape(s) ==> !IsRegexSpace(c)
  {
    var r := Escape(s);
    EscapedAlphabet(s);
    forall c | c in r
      ensures c != ';' && c != '=' && !IsRegexSpace(c)
    {
      var i :| 0 <= i < |r| && r[i] == c;
      EscapedCharIsNoSeparator(c);
    }
  }


  /** Distinct names have distinct escapes. */
  lemma EscapeInjective(a: string, b: string)
    requires Escape(a) == Escape(b)
    ensures a == b
  {
    EscapeRoundTrip(a);
    EscapeRoundTrip(b);
  }
}
