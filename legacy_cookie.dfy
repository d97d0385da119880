/**
 * The static class Cookie of src/services/cookie.ts, the older interface kept beside CookieService.
 * Names and values go through escape on the way in and unescape on the way out. Its reader builds
 * the pattern from the string literal `';\s*'`, in which `\s` is not a known escape sequence and
 * stands for the letter `s`: the pattern only matches after a `;` followed by letters `s`, so it
 * finds a cookie only when it is the first one of the cookie string. GetCookie models the reader
 * as written; GetCookieFixed is the reader with `\\s`, the white-space class it evidently means.
 */
module LegacyCookie {
  import opened JsBase
  import opened JsDate
  import opened EscapeCoding
  import opened CookiePattern
  import opened CookieHeader
  import opened Browser
  import CookieService

  /**
   * A name whose escape holds no regular-expression operator (escape keeps only `*`, `+` and `.`
   * of those), so that the pattern built from it matches it literally.
   */
  predicate IsLiteralLegacyName(name: string) {
    forall i :: 0 <= i < |name| ==> name[i] != '*' && name[i] != '+' && name[i] != '.'
  }

  // ---------------------------------------------------------------------------------------------
  // getCookie

  /** getCookie(name) as written: null when nothing matches, otherwise the unescaped capture of the leftmost match. */
  function GetCookie(doc: Document, name: string): (r: Option<string>)
    reads doc
    requires doc.defined && IsLiteralLegacyName(name)
    ensures r.Some? <==> HasMatch(doc.cookie, Escape(name), LetterS)
    ensures r.Some? ==>
      exists p: nat, raw :: p <= |doc.cookie| && MatchesAt(doc.cookie, p, Escape(name), LetterS, raw)
                            && (forall q: nat, w :: q < p ==> !MatchesAt(doc.cookie, q, Escape(name), LetterS, w))
                            && r.value == Unescape(raw)
  {
    LookupFinds(doc.cookie, Escape(name), LetterS);
    match Lookup(doc.cookie, Escape(name), LetterS)
    case None => None
    case Some(raw) => Some(Unescape(raw))
  }

  /** getCookie(name) with `\s*` read as white space, as the pattern of CookieService has it. */
  function GetCookieFixed(doc: Document, name: string): (r: Option<string>)
    reads doc
    requires doc.defined && IsLiteralLegacyName(name)
    ensures r.Some? <==> HasMatch(doc.cookie, Escape(name), Spaces)
    ensures r.Some? ==>
      exists p: nat, raw :: p <= |doc.cookie| && MatchesAt(doc.cookie, p, Escape(name), Spaces, raw)
                            && (forall q: nat, w :: q < p ==> !MatchesAt(doc.cookie, q, Escape(name), Spaces, w))
                            && r.value == Unescape(raw)
  {
    LookupFinds(doc.cookie, Escape(name), Spaces);
    match Lookup(doc.cookie, Escape(name), Spaces)
    case None => None
    case Some(raw) => Some(Unescape(raw))
  }

  // ---------------------------------------------------------------------------------------------
  // setCookie and deleteCookie

  /** The `expires` argument of setCookie, a number of days that may be left out, in the terms of CookieService. */
  function ExpiresIn(expires: Option<int>): CookieService.Expires {
    match expires
    case None => CookieService.Omitted
    case Some(d) => CookieService.Days(d)
  }

  /** The string setCookie assigns to `document.cookie`; it has no secure flag. */
  function SetCookieText(name: string, value: string, expires: Option<int>, path: string, domain: string,
                         now: int, utc: int -> string): string
  {
    Entry(Escape(name), Escape(value)) + ";" + CookieService.ExpiresAttribute(ExpiresIn(expires), now, utc)
    + CookieService.PathAttribute(path) + CookieService.DomainAttribute(domain)
  }

  /** setCookie(name, value, expires, path, domain), with `now` the time `new Date()` reads. */
  method SetCookie(doc: Document, name: string, value: string, expires: Option<int>, path: string, domain: string,
                   now: int, utc: int -> string)
    requires doc.defined
    modifies doc`writes
    ensures doc.writes == old(doc.writes) + [SetCookieText(name, value, expires, path, domain, now, utc)]
  {
    var cookieStr := Escape(name) + "=" + Escape(value) + ";";
    if expires.Some? && expires.value != 0 {
      var dtExpires := DaysFromNow(now, expires.value);
      cookieStr := cookieStr + ("expires=" + UtcText(dtExpires, utc) + ";");
    }
    assert cookieStr == Entry(Escape(name), Escape(value)) + ";" + CookieService.ExpiresAttribute(ExpiresIn(expires), now, utc);
    ghost var prefix := cookieStr;
    if path != "" {
      cookieStr := cookieStr + ("path=" + path + ";");
    }
    assert cookieStr == prefix + CookieService.PathAttribute(path);
    prefix := cookieStr;
    if domain != "" {
      cookieStr := cookieStr + ("domain=" + domain + ";");
    }
    assert cookieStr == prefix + CookieService.DomainAttribute(domain);
    doc.Assign(cookieStr);
  }

  /** A reader's result is truthy when it is a string other than ''. */
  predicate IsTruthy(r: Option<string>) {
    r.Some? && r.value != ""
  }

  /**
   * deleteCookie(name, path, domain): when getCookie, as written, reads a non-empty value, set the
   * cookie to '' with an expiry one day back; otherwise write nothing.
   */
  method DeleteCookie(doc: Document, name: string, path: string, domain: string, now: int, utc: int -> string)
    requires doc.defined && IsLiteralLegacyName(name)
    modifies doc`writes
    ensures IsTruthy(old(GetCookie(doc, name))) ==>
      doc.writes == old(doc.writes) + [SetCookieText(name, "", Some(-1), path, domain, now, utc)]
    ensures !IsTruthy(old(GetCookie(doc, name))) ==> doc.writes == old(doc.writes)
  {
    var current := GetCookie(doc, name);
    if current.Some? && current.value != "" {
      SetCookie(doc, name, "", Some(-1), path, domain, now, utc);
    }
  }

  /** The text deleteCookie writes has an empty value and expires one day before `now`. */
  lemma DeleteCookieText(name: string, path: string, domain: string, now: int, utc: int -> string)
    ensures SetCookieText(name, "", Some(-1), path, domain, now, utc)
            == Escape(name) + "=" + ";" + ("expires=" + UtcText(now - MsPerDay, utc) + ";")
               + CookieService.PathAttribute(path) + CookieService.DomainAttribute(domain)
  {
    assert Escape("") == "";
    assert Entry(Escape(name), "") == Escape(name) + "=";
    assert CookieService.ExpiresAttribute(ExpiresIn(Some(-1)), now, utc) == "expires=" + UtcText(now - MsPerDay, utc) + ";";
  }

  // ---------------------------------------------------------------------------------------------
  // The readers on cookie strings in the form a browser returns them

  /** The pairs with both parts escaped: every part is a token. */
  function Escaped(pairs: seq<(string, string)>): (entries: seq<(string, string)>)
    ensures |entries| == |pairs|
  {
    seq(|pairs|, i requires 0 <= i < |pairs| => (Escape(pairs[i].0), Escape(pairs[i].1)))
  }

  /** The cookie string of section 5.4 of RFC 6265 for cookies set by setCookie. */
  function LegacyCookieString(pairs: seq<(string, string)>): string {
    Header(Escaped(pairs))
  }

  lemma EscapedTokens(pairs: seq<(string, string)>)
    ensures AreTokens(Escaped(pairs))
  {
    forall i | 0 <= i < |pairs|
      ensures IsToken(Escaped(pairs)[i].0) && IsToken(Escaped(pairs)[i].1)
    {
      EscapedHasNoSeparator(pairs[i].0);
      EscapedHasNoSeparator(pairs[i].1);
    }
  }

  /** Since escape is one-to-one, the first escaped entry with the escaped name is the escape of the first pair with the name. */
  lemma {:induction false} FirstEscaped(pairs: seq<(string, string)>, name: string)
    ensures FirstWith(Escaped(pairs), Escape(name))
            == match FirstWith(pairs, name)
               case None => None
               case Some(v) => Some(Escape(v))
    decreases |pairs|
  {
    if pairs != [] {
      assert Escaped(pairs)[1..] == Escaped(pairs[1..]);
      if Escape(pairs[0].0) == Escape(name) {
        EscapeInjective(pairs[0].0, name);
      } else {
        FirstEscaped(pairs[1..], name);
      }
    }
  }

  /** The corrected reader finds the value of the first cookie with the name, wherever it stands. */
  lemma GetCookieFixedOfCookieString(doc: Document, pairs: seq<(string, string)>, name: string)
    requires doc.defined && doc.cookie == LegacyCookieString(pairs) && IsLiteralLegacyName(name)
    ensures GetCookieFixed(doc, name) == FirstWith(pairs, name)
  {
    EscapedTokens(pairs);
    EscapedHasNoSeparator(name);
    HeaderLookup(Escaped(pairs), Escape(name));
    FirstEscaped(pairs, name);
    if FirstWith(pairs, name).Some? {
      EscapeRoundTrip(FirstWith(pairs, name).value);
    }
  }

  /** The reader as written finds a cookie only when it is the first of the cookie string. */
  lemma GetCookieOfCookieString(doc: Document, pairs: seq<(string, string)>, name: string)
    requires doc.defined && doc.cookie == LegacyCookieString(pairs) && IsLiteralLegacyName(name)
    ensures GetCookie(doc, name) == if pairs != [] && pairs[0].0 == name then Some(pairs[0].1) else None
  {
    EscapedTokens(pairs);
    EscapedHasNoSeparator(name);
    HeaderLookupLetterS(Escaped(pairs), Escape(name));
    if pairs != [] {
      if Escape(pairs[0].0) == Escape(name) {
        EscapeInjective(pairs[0].0, name);
      }
      EscapeRoundTrip(pairs[0].1);
    }
  }

  /** On the cookie string "a=1; b=2" the reader as written does not find b, which the corrected reader reads as "2". */
  lemma SecondCookieMissed(doc: Document)
    requires doc.defined && doc.cookie == "a=1; b=2"
    ensures GetCookie(doc, "b") == None
    ensures GetCookieFixed(doc, "b") == Some("2")
  {
    var pairs := [("a", "1"), ("b", "2")];
    assert Escape("a") == "a" && Escape("1") == "1" && Escape("b") == "b" && Escape("2") == "2";
    assert Escaped(pairs) == pairs;
    assert LegacyCookieString(pairs) == "a=1; b=2";
    GetCookieOfCookieString(doc, pairs, "b");
    GetCookieFixedOfCookieString(doc, pairs, "b");
  }

  /** Both readers read a value back from a cookie string whose first cookie is its escaped pair. */
  lemma GetCookieOfFirstPair(doc: Document, name: string, value: string, rest: string)
    requires doc.defined && IsLiteralLegacyName(name)
    requires doc.cookie == Entry(Escape(name), Escape(value)) + rest && (rest == "" || rest[0] == ';')
    ensures GetCookie(doc, name) == Some(value)
    ensures GetCookieFixed(doc, name) == Some(value)
  {
    EscapedHasNoSeparator(name);
    EscapedHasNoSeparator(value);
    LookupEntryFirst(doc.cookie, Escape(name), Escape(value), rest, LetterS);
    LookupEntryFirst(doc.cookie, Escape(name), Escape(value), rest, Spaces);
    EscapeRoundTrip(value);
  }

  /** Both readers read the value back from the text setCookie writes. */
  lemma GetCookieOfSetText(doc: Document, name: string, value: string, expires: Option<int>, path: string,
                           domain: string, now: int, utc: int -> string)
    requires doc.defined && IsLiteralLegacyName(name)
    requires doc.cookie == SetCookieText(name, value, expires, path, domain, now, utc)
    ensures GetCookie(doc, name) == Some(value)
    ensures GetCookieFixed(doc, name) == Some(value)
  {
    var a := CookieService.ExpiresAttribute(ExpiresIn(expires), now, utc);
    var p := CookieService.PathAttribute(path);
    var d := CookieService.DomainAttribute(domain);
    var rest := ";" + a + p + d;
    AttributesAfter(Entry(Escape(name), Escape(value)), ";", a, p, d, "");
    assert rest + "" == rest;
    assert rest[0] == ';';
    GetCookieOfFirstPair(doc, name, value, rest);
  }
}
