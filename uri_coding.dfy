/**
 * encodeURIComponent and decodeURIComponent (ECMA-262 section 19.2.6, URI Handling Functions):
 * percent-encoding of UTF-8 octets as in section 2.1 of RFC 3986, with UTF-8 as in RFC 3629.
 * A Dafny `char` is a Unicode scalar value, so a string here is already a sequence of code points.
 */
module UriCoding {
  import opened JsBase

  /** The characters encodeURIComponent leaves alone: letters, digits and  - _ . ! ~ * ' ( ) */
  predicate IsUnreservedChar(c: char) {
    'A' <= c <= 'Z' || 'a' <= c <= 'z' || '0' <= c <= '9'
    || c == '-' || c == '_' || c == '.' || c == '!' || c == '~' || c == '*' || c == '\'' || c == '(' || c == ')'
  }

  /** The characters that can appear in the output of encodeURIComponent. */
  predicate IsUriEncodedChar(c: char) {
    IsUnreservedChar(c) || c == '%'
  }

  predicate IsOctet(b: nat) { b < 256 }

  /** The UTF-8 octets of one code point (section 3 of RFC 3629). */
  function Utf8(c: char): (bytes: seq<nat>)
    ensures 1 <= |bytes| <= 4
    ensures forall i :: 0 <= i < |bytes| ==> IsOctet(bytes[i])
  {
    var v := c as int;
    if v < 0x80 then [v]
    else if v < 0x800 then [0xC0 + v / 64, 0x80 + v % 64]
    else if v < 0x10000 then [0xE0 + v / 4096, 0x80 + (v / 64) % 64, 0x80 + v % 64]
    else [0xF0 + v / 262144, 0x80 + (v / 4096) % 64, 0x80 + (v / 64) % 64, 0x80 + v % 64]
  }

  /** How many octets a UTF-8 sequence starting with `b` has; 0 when `b` cannot start one. */
  function LeadLength(b: nat): (n: nat)
    ensures n <= 4
  {
    if b < 0x80 then 1
    else if b < 0xC0 then 0
    else if b < 0xE0 then 2
    else if b < 0xF0 then 3
    else if b < 0xF8 then 4
    else 0
  }

  predicate IsContinuation(b: nat) { 0x80 <= b < 0xC0 }

  /**
   * The code point that `bytes` encode, when they are exactly one valid UTF-8 sequence:
   * continuation octets of the form 10xxxxxx, no over-long form, no surrogate, at most U+10FFFF.
   */
  function Utf8Decode(bytes: seq<nat>): Option<char> {
    if |bytes| == 0 || LeadLength(bytes[0]) != |bytes| then None
    else if |bytes| == 1 then Some(bytes[0] as char)
    else if !(forall i :: 1 <= i < |bytes| ==> IsContinuation(bytes[i])) then None
    else
      var v :=
        if |bytes| == 2 then (bytes[0] - 0xC0) * 64 + (bytes[1] - 0x80)
        else if |bytes| == 3 then (bytes[0] - 0xE0) * 4096 + (bytes[1] - 0x80) * 64 + (bytes[2] - 0x80)
        else (bytes[0] - 0xF0) * 262144 + (bytes[1] - 0x80) * 4096 + (bytes[2] - 0x80) * 64 + (bytes[3] - 0x80);
      var least := if |bytes| == 2 then 0x80 else if |bytes| == 3 then 0x800 else 0x10000;
      if v < least || v > 0x10FFFF || 0xD800 <= v < 0xE000 then None else Some(v as char)
  }

  lemma Utf8Decode2(c: char)
    requires 0x80 <= c as int < 0x800
    ensures Utf8Decode(Utf8(c)) == Some(c)
  {
    var v := c as int;
    assert v == (v / 64) * 64 + v % 64;
  }

  lemma Utf8Decode3(c: char)
    requires 0x800 <= c as int < 0x10000
    ensures Utf8Decode(Utf8(c)) == Some(c)
  {
    var v := c as int;
    assert v / 64 == (v / 4096) * 64 + (v / 64) % 64;
    assert v == (v / 64) * 64 + v % 64;
  }

  lemma Utf8Decode4(c: char)
    requires 0x10000 <= c as int
    ensures Utf8Decode(Utf8(c)) == Some(c)
  {
    var v := c as int;
    assert v / 4096 == (v / 262144) * 64 + (v / 4096) % 64;
    assert v / 64 == (v / 4096) * 64 + (v / 64) % 64;
    assert v == (v / 64) * 64 + v % 64;
  }

  /** Decoding the UTF-8 encoding of a code point gives the code point back. */
  lemma Utf8RoundTrip(c: char)
    ensures Utf8Decode(Utf8(c)) == Some(c)
  {
    var v := c as int;
    if v < 0x80 {
    } else if v < 0x800 {
      Utf8Decode2(c);
    } else if v < 0x10000 {
      Utf8Decode3(c);
    } else {
      Utf8Decode4(c);
    }
  }

  lemma Utf8Only2(bytes: seq<nat>, c: char)
    requires |bytes| == 2 && IsOctet(bytes[0]) && IsOctet(bytes[1])
    requires Utf8Decode(bytes) == Some(c)
    ensures bytes == Utf8(c)
  {
    var v := c as int;
    assert v == (bytes[0] - 0xC0) * 64 + (bytes[1] - 0x80);
    assert v / 64 == bytes[0] - 0xC0 && v % 64 == bytes[1] - 0x80;
  }

  lemma Utf8Only3(bytes: seq<nat>, c: char)
    requires |bytes| == 3 && IsOctet(bytes[0]) && IsOctet(bytes[1]) && IsOctet(bytes[2])
    requires Utf8Decode(bytes) == Some(c)
    ensures bytes == Utf8(c)
  {
    var v := c as int;
    var w := (bytes[0] - 0xE0) * 64 + (bytes[1] - 0x80);
    assert v == w * 64 + (bytes[2] - 0x80);
    assert v / 64 == w && v % 64 == bytes[2] - 0x80;
    assert w / 64 == bytes[0] - 0xE0 && w % 64 == bytes[1] - 0x80;
    assert v / 4096 == w / 64;
  }

  lemma Utf8Only4(bytes: seq<nat>, c: char)
    requires |bytes| == 4 && IsOctet(bytes[0]) && IsOctet(bytes[1]) && IsOctet(bytes[2]) && IsOctet(bytes[3])
    requires Utf8Decode(bytes) == Some(c)
    ensures bytes == Utf8(c)
  {
    var v := c as int;
    var x := (bytes[0] - 0xF0) * 64 + (bytes[1] - 0x80);
    var w := x * 64 + (bytes[2] - 0x80);
    assert v == w * 64 + (bytes[3] - 0x80);
    assert v / 64 == w && v % 64 == bytes[3] - 0x80;
    assert w / 64 == x && w % 64 == bytes[2] - 0x80;
    assert x / 64 == bytes[0] - 0xF0 && x % 64 == bytes[1] - 0x80;
    assert v / 4096 == x;
    assert v / 262144 == x / 64;
  }

  /** The only octet sequences Utf8Decode accepts are encodings of code points. */
  lemma Utf8DecodeOnlyEncodings(bytes: seq<nat>, c: char)
    requires forall i :: 0 <= i < |bytes| ==> IsOctet(bytes[i])
    requires Utf8Decode(bytes) == Some(c)
    ensures bytes == Utf8(c)
  {
    if |bytes| == 2 {
      Utf8Only2(bytes, c);
    } else if |bytes| == 3 {
      Utf8Only3(bytes, c);
    } else if |bytes| == 4 {
      Utf8Only4(bytes, c);
    }
  }

  /** `%XY` with upper-case hexadecimal digits. */
  function PercentOctet(b: nat): (r: string)
    requires IsOctet(b)
    ensures |r| == 3 && r[0] == '%' && IsHexChar(r[1]) && IsHexChar(r[2])
    ensures HexValue(r[1]) * 16 + HexValue(r[2]) == b
  {
    ['%', HexDigit(b / 16), HexDigit(b % 16)]
  }

  function PercentOctets(bytes: seq<nat>): (r: string)
    requires forall i :: 0 <= i < |bytes| ==> IsOctet(bytes[i])
    ensures |r| == 3 * |bytes|
  {
    if bytes == [] then [] else PercentOctet(bytes[0]) + PercentOctets(bytes[1..])
  }

  function EncodeChar(c: char): string {
    if IsUnreservedChar(c) then [c] else PercentOctets(Utf8(c))
  }

  /** encodeURIComponent: unreserved characters are kept, every other one becomes its UTF-8 octets as `%XY`. */
  function EncodeURIComponent(s: string): string {
    if s == [] then [] else EncodeChar(s[0]) + EncodeURIComponent(s[1..])
  }

  /** The octet written as `%XY` at the start of `s`, if there is one. */
  function ReadOctet(s: string): (b: Option<nat>)
    ensures b.Some? ==> |s| >= 3 && IsOctet(b.value)
  {
    if |s| >= 3 && s[0] == '%' && IsHexChar(s[1]) && IsHexChar(s[2])
    then Some(HexValue(s[1]) * 16 + HexValue(s[2]))
    else None
  }

  /** The `k` octets written as `%XY%XY...` at the start of `s`, if there are that many. */
  function ReadOctets(s: string, k: nat): (bytes: Option<seq<nat>>)
    ensures bytes.Some? ==> |bytes.value| == k && 3 * k <= |s|
    ensures bytes.Some? ==> forall i :: 0 <= i < k ==> IsOctet(bytes.value[i])
  {
    if k == 0 then Some([])
    else match ReadOctet(s)
      case None => None
      case Some(b) =>
        match ReadOctets(s[3..], k - 1)
        case None => None
        case Some(more) => Some([b] + more)
  }

  /**
   * decodeURIComponent: every `%XY` sequence must spell one well-formed UTF-8 sequence, which is
   * replaced by its code point; anything else (a stray `%`, a bad hex digit, a truncated or
   * invalid sequence) throws a URIError. Other characters are copied.
   */
  function DecodeURIComponent(s: string): Outcome<string>
    decreases |s|
  {
    if s == [] then Ok([])
    else if s[0] != '%' then Prepend(s[0], DecodeURIComponent(s[1..]))
    else match ReadOctet(s)
      case None => UriError
      case Some(lead) =>
        var n := LeadLength(lead);
        if n == 0 then UriError
        else match ReadOctets(s, n)
          case None => UriError
          case Some(bytes) =>
            match Utf8Decode(bytes)
            case None => UriError
            case Some(c) => Prepend(c, DecodeURIComponent(s[3 * n..]))
  }

  lemma {:induction false} ReadPercentOctets(bytes: seq<nat>, rest: string)
    requires forall i :: 0 <= i < |bytes| ==> IsOctet(bytes[i])
    ensures ReadOctets(PercentOctets(bytes) + rest, |bytes|) == Some(bytes)
  {
    if bytes != [] {
      var s := PercentOctets(bytes) + rest;
      var head := PercentOctet(bytes[0]);
      assert s == head + (PercentOctets(bytes[1..]) + rest);
      assert s[..3] == head;
      assert ReadOctet(s) == Some(bytes[0]);
      assert s[3..] == PercentOctets(bytes[1..]) + rest;
      ReadPercentOctets(bytes[1..], rest);
      assert [bytes[0]] + bytes[1..] == bytes;
    }
  }

  /** Decoding one encoded character followed by anything decodes the character first. */
  lemma DecodeEncodedChar(c: char, rest: string)
    ensures DecodeURIComponent(EncodeChar(c) + rest) == Prepend(c, DecodeURIComponent(rest))
  {
    var s := EncodeChar(c) + rest;
    if IsUnreservedChar(c) {
      assert s[1..] == rest;
    } else {
      var bytes := Utf8(c);
      ReadPercentOctets(bytes, rest);
      assert s[..3] == PercentOctet(bytes[0]);
      assert ReadOctet(s) == Some(bytes[0]);
      Utf8RoundTrip(c);
      assert s[3 * |bytes|..] == rest;
    }
  }

  /** Every character encodeURIComponent emits is unreserved or `%`. */
  lemma {:induction false} EncodedAlphabet(s: string)
    ensures forall i :: 0 <= i < |EncodeURIComponent(s)| ==> IsUriEncodedChar(EncodeURIComponent(s)[i])
  {
    if s != [] {
      EncodedAlphabet(s[1..]);
      if !IsUnreservedChar(s[0]) {
        PercentOctetsAlphabet(Utf8(s[0]));
      }
    }
  }

  lemma {:induction false} PercentOctetsAlphabet(bytes: seq<nat>)
    requires forall i :: 0 <= i < |bytes| ==> IsOctet(bytes[i])
    ensures forall i :: 0 <= i < |PercentOctets(bytes)| ==> IsUriEncodedChar(PercentOctets(bytes)[i])
  {
    if bytes != [] {
      PercentOctetsAlphabet(bytes[1..]);
    }
  }

  /** encodeURIComponent never emits the cookie separators `;` and `=`, a space or a line terminator. */
  lemma EncodedCharIsNoSeparator(c: char)
    requires IsUriEncodedChar(c)
    ensures c != ';' && c != '=' && !IsRegexSpace(c)
  {
  }

  lemma EncodedHasNoSeparator(s: string)
    ensures ';' !in EncodeURIComponent(s) && '=' !in EncodeURIComponent(s)
    ensures forall c :: c in EncodeURIComponent(s) ==> !IsRegexSpace(c)
  {
    var r := EncodeURIComponent(s);
    EncodedAlphabet(s);
    forall c | c in r
      ensures c != ';' && c != '=' && !IsRegexSpace(c)
    {
      var i :| 0 <= i < |r| && r[i] == c;
      EncodedCharIsNoSeparator(c);
    }
  }


  /** decodeURIComponent inverts encodeURIComponent on every string. */
  lemma {:induction false} UriRoundTrip(s: string)
    ensures DecodeURIComponent(EncodeURIComponent(s)) == Ok(s)
  {
    if s != [] {
      UriRoundTrip(s[1..]);
      DecodeEncodedChar(s[0], EncodeURIComponent(s[1..]));
      assert [s[0]] + s[1..] == s;
    }
  }

  /** Distinct names have distinct encodings. */
  lemma EncodeInjective(a: string, b: string)
    requires EncodeURIComponent(a) == EncodeURIComponent(b)
    ensures a == b
  {
    UriRoundTrip(a);
    UriRoundTrip(b);
  }

  /** encodeURIComponent leaves a string unchanged exactly when all its characters are unreserved. */
  lemma {:induction false} EncodeKeepsUnreserved(s: string)
    ensures EncodeURIComponent(s) == s <==> forall i :: 0 <= i < |s| ==> IsUnreservedChar(s[i])
    ensures |EncodeURIComponent(s)| >= |s|
  {
    if s != [] {
      EncodeKeepsUnreserved(s[1..]);
      var head := EncodeChar(s[0]);
      if IsUnreservedChar(s[0]) {
        assert EncodeURIComponent(s) == [s[0]] + EncodeURIComponent(s[1..]);
        if EncodeURIComponent(s) == s {
          assert EncodeURIComponent(s[1..]) == s[1..];
        }
      } else {
        assert |head| >= 3;
      }
    }
  }
}
