/**
 * CookieService, the cookie façade of src/cookie.ts. The class has no fields of its own: every
 * operation reads or assigns `document.cookie`, which is the Document passed to it here.
 * Names and values go through encodeURIComponent on the way in and decodeURIComponent on the way out.
 */
module CookieService {
  import opened JsBase
  import opened JsString
  import opened JsObject
  import opened JsDate
  import opened UriCoding
  import opened CookiePattern
  import opened CookieHeader
  import opened Browser

  /**
   * A name whose encoding holds no regular-expression operator (encodeURIComponent keeps only
   * `.`, `*`, `(` and `)` of those), so that the pattern built from it matches it literally.
   */
  predicate IsLiteralName(name: string) {
    forall i :: 0 <= i < |name| ==> name[i] != '.' && name[i] != '*' && name[i] != '(' && name[i] != ')'
  }

  // ---------------------------------------------------------------------------------------------
  // check, get and the private cookieHandler

  /** check(name): false without a document, otherwise whether the pattern for the encoded name matches. */
  function Check(doc: Document, name: string): (found: bool)
    reads doc
    requires IsLiteralName(name)
    ensures found <==> doc.defined && HasMatch(doc.cookie, EncodeURIComponent(name), Spaces)
  {
    LookupFinds(doc.cookie, EncodeURIComponent(name), Spaces);
    doc.defined && Lookup(doc.cookie, EncodeURIComponent(name), Spaces).Some?
  }

  /**
   * get(name): '' when check fails, otherwise the decoded capture of the leftmost match; a
   * malformed escape in it makes decodeURIComponent throw a URIError out of get.
   */
  function Get(doc: Document, name: string): (r: Outcome<string>)
    reads doc
    requires IsLiteralName(name)
    ensures !Check(doc, name) ==> r == Ok("")
    ensures Check(doc, name) ==>
      exists p: nat, raw :: p <= |doc.cookie| && MatchesAt(doc.cookie, p, EncodeURIComponent(name), Spaces, raw)
                            && (forall q: nat, w :: q < p ==> !MatchesAt(doc.cookie, q, EncodeURIComponent(name), Spaces, w))
                            && r == DecodeURIComponent(raw)
  {
    LookupFinds(doc.cookie, EncodeURIComponent(name), Spaces);
    if Check(doc, name) then DecodeURIComponent(Lookup(doc.cookie, EncodeURIComponent(name), Spaces).value)
    else Ok("")
  }

  // ---------------------------------------------------------------------------------------------
  // getAll

  /**
   * One `;`-separated piece: split on `=`, drop one leading space from the first part, and decode
   * it and the second part. A piece without `=` has no second part, and decodeURIComponent(undefined)
   * is the text "undefined".
   */
  function ParseSegment(segment: string): Outcome<(string, string)> {
    var parts := Split(segment, '=');
    var key := DecodeURIComponent(StripOneSpace(parts[0]));
    var value := DecodeURIComponent(if |parts| > 1 then parts[1] else "undefined");
    if key.UriError? || value.UriError? then UriError else Ok((key.value, value.value))
  }

  /** The loop of getAll from a given object on: each piece assigns one property, the first failure throws. */
  function ParseInto(acc: Dict, segments: seq<string>): Outcome<Dict>
    decreases |segments|
  {
    if segments == [] then Ok(acc)
    else match ParseSegment(segments[0])
      case UriError => UriError
      case Ok(kv) => ParseInto(Put(acc, kv.0, kv.1), segments[1..])
  }

  /** getAll on a given cookie string: `{}` for the empty string, otherwise every piece in order. */
  function ParseAll(cookie: string): Outcome<Dict> {
    if cookie == "" then Ok(Empty) else ParseInto(Empty, Split(cookie, ';'))
  }

  /** getAll(): the loop over the `;`-separated pieces, filling a fresh object. */
  method GetAll(doc: Document) returns (cookies: Outcome<Dict>)
    requires doc.defined
    ensures cookies == ParseAll(doc.cookie)
    ensures doc.cookie == "" ==> cookies == Ok(Empty)
  {
    var obj := Empty;
    if doc.cookie != "" {
      var split := Split(doc.cookie, ';');
      var i := 0;
      while i < |split|
        invariant 0 <= i <= |split|
        invariant ParseInto(obj, split[i..]) == ParseAll(doc.cookie)
      {
        var currCookie := Split(split[i], '=');
        currCookie := currCookie[0 := StripOneSpace(currCookie[0])];
        var key := DecodeURIComponent(currCookie[0]);
        var value := DecodeURIComponent(if |currCookie| > 1 then currCookie[1] else "undefined");
        ghost var rest := split[i..];
        assert rest[0] == split[i] && rest[1..] == split[i + 1..];
        if key.UriError? || value.UriError? {
          assert ParseSegment(split[i]) == UriError;
          return UriError;
        }
        assert ParseSegment(split[i]) == Ok((key.value, value.value));
        obj := Put(obj, key.value, value.value);
        i := i + 1;
      }
    }
    return Ok(obj);
  }

  // ---------------------------------------------------------------------------------------------
  // set, delete, deleteAll

  /** The `expires` argument of set: left out, a number of days from now, or a Date at a time value. */
  datatype Expires = Omitted | Days(days: int) | At(time: int)

  /** The time value of the expires attribute: none for an omitted or zero (falsy) argument. */
  function ExpiryTime(expires: Expires, now: int): Option<int> {
    match expires
    case Omitted => None
    case Days(d) => if d == 0 then None else Some(DaysFromNow(now, d))
    case At(t) => Some(t)
  }

  function ExpiresAttribute(expires: Expires, now: int, utc: int -> string): string {
    match ExpiryTime(expires, now)
    case None => ""
    case Some(t) => "expires=" + UtcText(t, utc) + ";"
  }

  /**
   * The expires attribute: none for an omitted or zero day count; otherwise the HTTP-date of the
   * expiry time, or "Invalid Date" once that time lies beyond the range of Date.
   */
  lemma ExpiresAttributeSpec(expires: Expires, now: int, utc: int -> string)
    ensures expires.Omitted? || expires == Days(0) ==> ExpiresAttribute(expires, now, utc) == ""
    ensures expires.Days? && expires.days != 0 ==>
      var t := now + expires.days * 86_400_000;
      ExpiresAttribute(expires, now, utc)
      == "expires=" + (if -8_640_000_000_000_000 <= t <= 8_640_000_000_000_000 then utc(t) else "Invalid Date") + ";"
    ensures expires.At? ==>
      var t := expires.time;
      ExpiresAttribute(expires, now, utc)
      == "expires=" + (if -8_640_000_000_000_000 <= t <= 8_640_000_000_000_000 then utc(t) else "Invalid Date") + ";"
  {
  }

  /** A path or domain that is '' is falsy, like one that was left out. */
  function PathAttribute(path: string): string {
    if path != "" then "path=" + path + ";" else ""
  }

  function DomainAttribute(domain: string): string {
    if domain != "" then "domain=" + domain + ";" else ""
  }

  function SecureAttribute(secure: bool): string {
    if secure then "secure;" else ""
  }

  /** The string set assigns to `document.cookie`. */
  function SetText(name: string, value: string, expires: Expires, path: string, domain: string,
                   secure: bool, now: int, utc: int -> string): string
  {
    Pair(name, value) + ";" + ExpiresAttribute(expires, now, utc) + PathAttribute(path)
    + DomainAttribute(domain) + SecureAttribute(secure)
  }

  /** set(name, value, expires, path, domain, secure), with `now` the time `new Date()` reads. */
  method Set(doc: Document, name: string, value: string, expires: Expires, path: string, domain: string,
             secure: bool, now: int, utc: int -> string)
    requires doc.defined
    modifies doc`writes
    ensures doc.writes == old(doc.writes) + [SetText(name, value, expires, path, domain, secure, now, utc)]
  {
    var cookieStr := EncodeURIComponent(name) + "=" + EncodeURIComponent(value) + ";";
    if expires != Omitted && expires != Days(0) {
      match expires
      case Days(d) =>
        var dtExpires := DaysFromNow(now, d);
        cookieStr := cookieStr + ("expires=" + UtcText(dtExpires, utc) + ";");
      case At(t) =>
        cookieStr := cookieStr + ("expires=" + UtcText(t, utc) + ";");
    }
    assert cookieStr == Pair(name, value) + ";" + ExpiresAttribute(expires, now, utc);
    ghost var prefix := cookieStr;
    if path != "" {
      cookieStr := cookieStr + ("path=" + path + ";");
    }
    assert cookieStr == prefix + PathAttribute(path);
    prefix := cookieStr;
    if domain != "" {
      cookieStr := cookieStr + ("domain=" + domain + ";");
    }
    assert cookieStr == prefix + DomainAttribute(domain);
    prefix := cookieStr;
    if secure {
      cookieStr := cookieStr + "secure;";
    }
    assert cookieStr == prefix + SecureAttribute(secure);
    doc.Assign(cookieStr);
  }

  /** What delete writes: the encoded name, an empty value and an expiry one day before `now`. */
  function DeleteText(name: string, path: string, domain: string, now: int, utc: int -> string): string {
    EncodeURIComponent(name) + "=" + ";" + ("expires=" + UtcText(now - MsPerDay, utc) + ";")
    + PathAttribute(path) + DomainAttribute(domain)
  }

  /** delete is set with an empty value and an expiry of minus one day, and never adds `secure`. */
  lemma DeleteIsSet(name: string, path: string, domain: string, now: int, utc: int -> string)
    ensures DeleteText(name, path, domain, now, utc) == SetText(name, "", Days(-1), path, domain, false, now, utc)
  {
    assert EncodeURIComponent("") == "";
    assert Pair(name, "") == EncodeURIComponent(name) + "=";
    assert ExpiryTime(Days(-1), now) == Some(now - MsPerDay);
    assert ExpiresAttribute(Days(-1), now, utc) == "expires=" + UtcText(now - MsPerDay, utc) + ";";
    var withoutSecure := Pair(name, "") + ";" + ExpiresAttribute(Days(-1), now, utc) + PathAttribute(path) + DomainAttribute(domain);
    assert SetText(name, "", Days(-1), path, domain, false, now, utc) == withoutSecure + "";
    assert withoutSecure + "" == withoutSecure;
  }

  /** delete(name, path, domain): set with an empty value, one day in the past, never secure. */
  method Delete(doc: Document, name: string, path: string, domain: string, now: int, utc: int -> string)
    requires doc.defined
    modifies doc`writes
    ensures doc.writes == old(doc.writes) + [DeleteText(name, path, domain, now, utc)]
  {
    DeleteIsSet(name, path, domain, now, utc);
    Set(doc, name, "", Days(-1), path, domain, false, now, utc);
  }

  /** The writes of one delete per name, the i-th reading the clock as `clock(i)`. */
  function DeleteTexts(names: seq<string>, path: string, domain: string, clock: nat -> int, utc: int -> string): (ws: seq<string>)
    ensures |ws| == |names|
  {
    seq(|names|, i requires 0 <= i < |names| => DeleteText(names[i], path, domain, clock(i), utc))
  }

  /** One more delete appends its write to those of the names before it. */
  lemma DeleteTextsSnoc(before: seq<string>, names: seq<string>, i: nat, path: string, domain: string,
                        clock: nat -> int, utc: int -> string)
    requires i < |names|
    ensures before + DeleteTexts(names[..i + 1], path, domain, clock, utc)
            == before + DeleteTexts(names[..i], path, domain, clock, utc) + [DeleteText(names[i], path, domain, clock(i), utc)]
  {
    var done := DeleteTexts(names[..i], path, domain, clock, utc);
    var next := DeleteText(names[i], path, domain, clock(i), utc);
    assert DeleteTexts(names[..i + 1], path, domain, clock, utc) == done + [next];
  }

  /** The `for ... of` loop of deleteAll: one delete per name, in order, the i-th reading the clock as `clock(i)`. */
  method DeleteEach(doc: Document, names: seq<string>, path: string, domain: string, clock: nat -> int, utc: int -> string)
    requires doc.defined
    modifies doc`writes
    ensures doc.writes == old(doc.writes) + DeleteTexts(names, path, domain, clock, utc)
  {
    ghost var before := doc.writes;
    var i := 0;
    while i < |names|
      invariant 0 <= i <= |names|
      invariant doc.writes == before + DeleteTexts(names[..i], path, domain, clock, utc)
    {
      DeleteTextsSnoc(before, names, i, path, domain, clock, utc);
      Delete(doc, names[i], path, domain, clock(i), utc);
      i := i + 1;
    }
    assert names[..i] == names;
  }

  /**
   * deleteAll(path, domain): one delete per key of getAll(), in the order Object.keys gives; a
   * URIError from getAll leaves before any write.
   */
  method DeleteAll(doc: Document, path: string, domain: string, clock: nat -> int, utc: int -> string)
    returns (outcome: Outcome<()>)
    requires doc.defined
    modifies doc`writes
    ensures ParseAll(doc.cookie).UriError? ==> outcome == UriError && doc.writes == old(doc.writes)
    ensures ParseAll(doc.cookie).Ok? ==>
      outcome == Ok(()) && doc.writes == old(doc.writes) + DeleteTexts(Keys(ParseAll(doc.cookie).value), path, domain, clock, utc)
  {
    var cookies := GetAll(doc);
    if cookies.UriError? {
      return UriError;
    }
    DeleteEach(doc, Keys(cookies.value), path, domain, clock, utc);
    return Ok(());
  }

  // ---------------------------------------------------------------------------------------------
  // Cookie strings in the form a browser returns them

  /** `name=value` with both parts encoded, as set writes them first. */
  function Pair(name: string, value: string): string {
    Entry(EncodeURIComponent(name), EncodeURIComponent(value))
  }

  /** The pairs with both parts encoded: every part is a token. */
  function Encoded(pairs: seq<(string, string)>): (entries: seq<(string, string)>)
    ensures |entries| == |pairs|
  {
    seq(|pairs|, i requires 0 <= i < |pairs| => (EncodeURIComponent(pairs[i].0), EncodeURIComponent(pairs[i].1)))
  }

  /** The cookie string of section 5.4 of RFC 6265 for cookies set by this service. */
  function CookieString(pairs: seq<(string, string)>): string {
    Header(Encoded(pairs))
  }

  function Names(pairs: seq<(string, string)>): (names: seq<string>)
    ensures |names| == |pairs|
  {
    seq(|pairs|, i requires 0 <= i < |pairs| => pairs[i].0)
  }

  lemma EncodedTokens(pairs: seq<(string, string)>)
    ensures AreTokens(Encoded(pairs))
  {
    forall i | 0 <= i < |pairs|
      ensures IsToken(Encoded(pairs)[i].0) && IsToken(Encoded(pairs)[i].1)
    {
      EncodedHasNoSeparator(pairs[i].0);
      EncodedHasNoSeparator(pairs[i].1);
    }
  }


  // ---------------------------------------------------------------------------------------------
  // getAll, stated without its loop

  /** Every piece decoded, in order, or a URIError when some piece fails to decode. */
  function DecodeAll(segments: seq<string>): Outcome<seq<(string, string)>> {
    if forall i :: 0 <= i < |segments| ==> ParseSegment(segments[i]).Ok?
    then Ok(seq(|segments|, i requires 0 <= i < |segments| => DecodedPair(segments[i])))
    else UriError
  }

  /** The pair a piece decodes to; a placeholder for a piece that throws. */
  function DecodedPair(segment: string): (string, string) {
    match ParseSegment(segment)
    case Ok(kv) => kv
    case UriError => ("", "")
  }

  /** `obj[k] = v` for each pair in turn. */
  function Assign(acc: Dict, kvs: seq<(string, string)>): Dict
    decreases |kvs|
  {
    if kvs == [] then acc
    else Put(Assign(acc, kvs[..|kvs| - 1]), kvs[|kvs| - 1].0, kvs[|kvs| - 1].1)
  }

  /** The pair at `i` is the last one with its name. */
  predicate IsLastOf(kvs: seq<(string, string)>, i: nat)
    requires i < |kvs|
  {
    forall j :: i < j < |kvs| ==> kvs[j].0 != kvs[i].0
  }

  lemma {:induction false} AssignFront(acc: Dict, kv: (string, string), kvs: seq<(string, string)>)
    ensures Assign(acc, [kv] + kvs) == Assign(Put(acc, kv.0, kv.1), kvs)
    decreases |kvs|
  {
    if kvs != [] {
      var init := kvs[..|kvs| - 1];
      AssignFront(acc, kv, init);
      assert ([kv] + kvs)[..|kvs|] == [kv] + init;
    }
  }

  /** Decoding all pieces is decoding the first and then the others. */
  lemma DecodeAllFront(segments: seq<string>)
    requires segments != []
    ensures DecodeAll(segments) == match ParseSegment(segments[0])
                                   case UriError => UriError
                                   case Ok(kv) => match DecodeAll(segments[1..])
                                                  case UriError => UriError
                                                  case Ok(kvs) => Ok([kv] + kvs)
  {
    if ParseSegment(segments[0]).Ok? && DecodeAll(segments[1..]).Ok? {
      DecodeAllFrontOk(segments);
    } else {
      DecodeAllFrontError(segments);
    }
  }

  lemma DecodeAllFrontOk(segments: seq<string>)
    requires segments != [] && ParseSegment(segments[0]).Ok? && DecodeAll(segments[1..]).Ok?
    ensures DecodeAll(segments) == Ok([DecodedPair(segments[0])] + DecodeAll(segments[1..]).value)
  {
    var rest := segments[1..];
    forall i | 0 <= i < |segments|
      ensures ParseSegment(segments[i]).Ok?
    {
      if i > 0 {
        assert segments[i] == rest[i - 1];
      }
    }
    assert DecodeAll(segments).value == [DecodedPair(segments[0])] + DecodeAll(rest).value;
  }

  lemma DecodeAllFrontError(segments: seq<string>)
    requires segments != [] && !(ParseSegment(segments[0]).Ok? && DecodeAll(segments[1..]).Ok?)
    ensures DecodeAll(segments) == UriError
  {
    var rest := segments[1..];
    if ParseSegment(segments[0]).Ok? {
      var i :| 0 <= i < |rest| && !ParseSegment(rest[i]).Ok?;
      assert segments[i + 1] == rest[i];
    }
  }

  lemma {:induction false} ParseIntoSpec(acc: Dict, segments: seq<string>)
    ensures ParseInto(acc, segments) == match DecodeAll(segments)
                                         case UriError => UriError
                                         case Ok(kvs) => Ok(Assign(acc, kvs))
    decreases |segments|
  {
    if segments != [] {
      DecodeAllFront(segments);
      var head := ParseSegment(segments[0]);
      if head.Ok? {
        ParseIntoSpec(Put(acc, head.value.0, head.value.1), segments[1..]);
        if DecodeAll(segments[1..]).Ok? {
          AssignFront(acc, head.value, DecodeAll(segments[1..]).value);
        }
      }
    }
  }

  lemma {:induction false} AssignValid(acc: Dict, kvs: seq<(string, string)>)
    requires Valid(acc)
    ensures Valid(Assign(acc, kvs))
    decreases |kvs|
  {
    if kvs != [] {
      var init := kvs[..|kvs| - 1];
      AssignValid(acc, init);
      PutValid(Assign(acc, init), kvs[|kvs| - 1].0, kvs[|kvs| - 1].1);
    }
  }

  /** Assigning pairs adds exactly their names, except `__proto__`, whose assignment creates nothing. */
  lemma {:induction false} AssignKeys(acc: Dict, kvs: seq<(string, string)>)
    ensures forall k :: k in Assign(acc, kvs).props <==> k in acc.props || (k != ProtoKey && k in Names(kvs))
    decreases |kvs|
  {
    if kvs != [] {
      var init := kvs[..|kvs| - 1];
      AssignKeys(acc, init);
      NamesSnoc(kvs);
    }
  }

  /** The last pair with a name gives that name its value. */
  lemma {:induction false} AssignLastWins(acc: Dict, kvs: seq<(string, string)>, i: nat)
    requires i < |kvs| && kvs[i].0 != ProtoKey && IsLastOf(kvs, i)
    ensures kvs[i].0 in Assign(acc, kvs).props && Assign(acc, kvs).props[kvs[i].0] == kvs[i].1
    decreases |kvs|
  {
    var n := |kvs| - 1;
    if i < n {
      var init := kvs[..n];
      assert init[i] == kvs[i];
      assert IsLastOf(init, i);
      AssignLastWins(acc, init, i);
      assert kvs[n].0 != kvs[i].0;
    }
  }

  lemma NamesSnoc(kvs: seq<(string, string)>)
    requires kvs != []
    ensures Names(kvs) == Names(kvs[..|kvs| - 1]) + [kvs[|kvs| - 1].0]
  {
  }

  /** A name that no pair has stays missing. */
  lemma AssignMissing(acc: Dict, kvs: seq<(string, string)>, k: string)
    requires k !in acc.props && forall i :: 0 <= i < |kvs| ==> kvs[i].0 != k
    ensures k !in Assign(acc, kvs).props
  {
    AssignKeys(acc, kvs);
  }

  /** Names that are all different and none `__proto__` are created in the order of the pairs. */
  lemma {:induction false} AssignOrder(acc: Dict, kvs: seq<(string, string)>)
    requires forall i :: 0 <= i < |kvs| ==> kvs[i].0 != ProtoKey && kvs[i].0 !in acc.props
    requires forall i, j :: 0 <= i < j < |kvs| ==> kvs[i].0 != kvs[j].0
    ensures Assign(acc, kvs).order == acc.order + Names(kvs)
    decreases |kvs|
  {
    if kvs != [] {
      var n := |kvs| - 1;
      var init := kvs[..n];
      var k := kvs[n].0;
      assert forall i :: 0 <= i < n ==> init[i] == kvs[i];
      AssignOrder(acc, init);
      AssignMissing(acc, init, k);
      NamesSnoc(kvs);
      var before := Assign(acc, init).order;
      assert Assign(acc, kvs).order == before + [k];
      assert (acc.order + Names(init)) + [k] == acc.order + (Names(init) + [k]);
    }
  }

  /** Whatever getAll returns is a valid object: each property once in the order, no `__proto__`. */
  lemma ParseAllValid(cookie: string)
    ensures ParseAll(cookie).Ok? ==> Valid(ParseAll(cookie).value)
  {
    EmptyValid();
    if cookie != "" {
      ParseIntoSpec(Empty, Split(cookie, ';'));
      if DecodeAll(Split(cookie, ';')).Ok? {
        AssignValid(Empty, DecodeAll(Split(cookie, ';')).value);
      }
    }
  }

  /** deleteAll deletes each property of getAll's object exactly once. */
  lemma DeleteAllOnce(cookie: string)
    requires ParseAll(cookie).Ok?
    ensures forall k :: multiset(Keys(ParseAll(cookie).value))[k] == if k in ParseAll(cookie).value.props then 1 else 0
  {
    ParseAllValid(cookie);
    KeysOnce(ParseAll(cookie).value);
  }

  // ---------------------------------------------------------------------------------------------
  // getAll on cookie strings in the form a browser returns them

  /** getAll reads an encoded pair back, with or without the space that follows a `;`. */
  lemma ParsePair(segment: string, n: string, v: string, lead: string)
    requires lead == "" || lead == " "
    requires segment == lead + Pair(n, v)
    ensures ParseSegment(segment) == Ok((n, v))
  {
    var en := EncodeURIComponent(n);
    var ev := EncodeURIComponent(v);
    EncodedHasNoSeparator(n);
    EncodedHasNoSeparator(v);
    assert '=' !in lead + en;
    SegmentSplit(lead, en, ev);
    if en != [] {
      assert en[0] in en;
    }
    assert StripOneSpace(lead + en) == en;
    UriRoundTrip(n);
    UriRoundTrip(v);
  }

  /** Pieces that each decode to a pair decode to those pairs. */
  lemma DecodeAllOk(segments: seq<string>, kvs: seq<(string, string)>)
    requires |segments| == |kvs|
    requires forall i :: 0 <= i < |segments| ==> ParseSegment(segments[i]) == Ok(kvs[i])
    ensures DecodeAll(segments) == Ok(kvs)
  {
    assert forall i :: 0 <= i < |segments| ==> DecodedPair(segments[i]) == kvs[i];
    assert DecodeAll(segments).Ok?;
    assert DecodeAll(segments).value == kvs;
  }

  /** Piece `i` of a cookie string decodes to pair `i`. */
  lemma SegmentDecodes(pairs: seq<(string, string)>, i: nat)
    requires i < |pairs|
    ensures ParseSegment(HeaderSegments(Encoded(pairs))[i]) == Ok(pairs[i])
  {
    var segment := HeaderSegments(Encoded(pairs))[i];
    HeaderSegmentAt(Encoded(pairs), i);
    ParsePair(segment, pairs[i].0, pairs[i].1, if i == 0 then "" else " ");
  }

  /** Every piece of a cookie string decodes to its pair. */
  lemma CookieStringDecodes(pairs: seq<(string, string)>)
    requires |pairs| >= 1
    ensures DecodeAll(HeaderSegments(Encoded(pairs))) == Ok(pairs)
  {
    forall i | 0 <= i < |pairs|
      ensures ParseSegment(HeaderSegments(Encoded(pairs))[i]) == Ok(pairs[i])
    {
      SegmentDecodes(pairs, i);
    }
    DecodeAllOk(HeaderSegments(Encoded(pairs)), pairs);
  }

  /** getAll on a cookie string of encoded pairs assigns the pairs, in order, to `{}`. */
  lemma ParseAllOfCookieString(pairs: seq<(string, string)>)
    ensures ParseAll(CookieString(pairs)) == Ok(Assign(Empty, pairs))
  {
    if pairs != [] {
      EncodedTokens(pairs);
      HeaderSplit(Encoded(pairs));
      CookieStringDecodes(pairs);
      ParseIntoSpec(Empty, HeaderSegments(Encoded(pairs)));
    } else {
      assert Encoded(pairs) == [];
    }
  }

  /**
   * getAll on a cookie string: every name is a property except `__proto__`, each with the value of
   * its last pair; when the names are all different and none is `__proto__`, they keep their order.
   */
  lemma GetAllOfCookieString(pairs: seq<(string, string)>)
    ensures ParseAll(CookieString(pairs)).Ok?
    ensures var d := ParseAll(CookieString(pairs)).value;
      Valid(d)
      && (forall k :: k in d.props <==> k != ProtoKey && k in Names(pairs))
      && (forall i: nat :: i < |pairs| && pairs[i].0 != ProtoKey && IsLastOf(pairs, i) ==>
          pairs[i].0 in d.props && d.props[pairs[i].0] == pairs[i].1)
    ensures (forall i :: 0 <= i < |pairs| ==> pairs[i].0 != ProtoKey)
            && (forall i, j :: 0 <= i < j < |pairs| ==> pairs[i].0 != pairs[j].0)
            ==> ParseAll(CookieString(pairs)).value.order == Names(pairs)
  {
    EmptyValid();
    ParseAllOfCookieString(pairs);
    AssignValid(Empty, pairs);
    AssignKeys(Empty, pairs);
    forall i: nat | i < |pairs| && pairs[i].0 != ProtoKey && IsLastOf(pairs, i)
      ensures pairs[i].0 in Assign(Empty, pairs).props && Assign(Empty, pairs).props[pairs[i].0] == pairs[i].1
    {
      AssignLastWins(Empty, pairs, i);
    }
    if (forall i :: 0 <= i < |pairs| ==> pairs[i].0 != ProtoKey)
       && (forall i, j :: 0 <= i < j < |pairs| ==> pairs[i].0 != pairs[j].0) {
      AssignOrder(Empty, pairs);
    }
  }

  // ---------------------------------------------------------------------------------------------
  // get and check on cookie strings in the form a browser returns them

  /** Since encoding is one-to-one, the first encoded entry with the encoded name is the encoding of the first pair with the name. */
  lemma {:induction false} FirstEncoded(pairs: seq<(string, string)>, name: string)
    ensures FirstWith(Encoded(pairs), EncodeURIComponent(name))
            == match FirstWith(pairs, name)
               case None => None
               case Some(v) => Some(EncodeURIComponent(v))
    decreases |pairs|
  {
    if pairs != [] {
      assert Encoded(pairs)[1..] == Encoded(pairs[1..]);
      if EncodeURIComponent(pairs[0].0) == EncodeURIComponent(name) {
        EncodeInjective(pairs[0].0, name);
      } else {
        FirstEncoded(pairs[1..], name);
      }
    }
  }

  /**
   * The pattern get and check build finds, in a cookie string, the encoded value of the FIRST
   * pair with the name, and nothing when no pair has it.
   */
  lemma CookieStringLookup(pairs: seq<(string, string)>, name: string)
    ensures Lookup(CookieString(pairs), EncodeURIComponent(name), Spaces)
            == match FirstWith(pairs, name)
               case None => None
               case Some(v) => Some(EncodeURIComponent(v))
  {
    EncodedTokens(pairs);
    EncodedHasNoSeparator(name);
    HeaderLookup(Encoded(pairs), EncodeURIComponent(name));
    FirstEncoded(pairs, name);
  }

  /** get and check on a cookie string: the value of the first pair with the name, or '' and false. */
  lemma GetOfCookieString(doc: Document, pairs: seq<(string, string)>, name: string)
    requires doc.defined && doc.cookie == CookieString(pairs) && IsLiteralName(name)
    ensures Check(doc, name) <==> FirstWith(pairs, name).Some?
    ensures Get(doc, name) == Ok(match FirstWith(pairs, name) case None => "" case Some(v) => v)
  {
    CookieStringLookup(pairs, name);
    if FirstWith(pairs, name).Some? {
      UriRoundTrip(FirstWith(pairs, name).value);
    }
  }

  /** get and check read a value back from a cookie string whose first cookie is its encoded pair. */
  lemma GetOfFirstPair(doc: Document, name: string, value: string, rest: string)
    requires doc.defined && IsLiteralName(name)
    requires doc.cookie == Pair(name, value) + rest && (rest == "" || rest[0] == ';')
    ensures Check(doc, name)
    ensures Get(doc, name) == Ok(value)
  {
    EncodedHasNoSeparator(name);
    EncodedHasNoSeparator(value);
    LookupEntryFirst(doc.cookie, EncodeURIComponent(name), EncodeURIComponent(value), rest, Spaces);
    UriRoundTrip(value);
  }

  /** The text set writes is the encoded pair, then `;` and the attributes. */
  lemma SetTextStartsWithPair(name: string, value: string, expires: Expires, path: string, domain: string,
                              secure: bool, now: int, utc: int -> string)
    ensures SetText(name, value, expires, path, domain, secure, now, utc)
            == Pair(name, value) + (";" + ExpiresAttribute(expires, now, utc) + PathAttribute(path)
                                    + DomainAttribute(domain) + SecureAttribute(secure))
  {
    AttributesAfter(Pair(name, value), ";", ExpiresAttribute(expires, now, utc), PathAttribute(path),
                    DomainAttribute(domain), SecureAttribute(secure));
  }

  /** get reads the value back from the text set writes. */
  lemma GetOfSetText(doc: Document, name: string, value: string, expires: Expires, path: string, domain: string,
                     secure: bool, now: int, utc: int -> string)
    requires doc.defined && IsLiteralName(name)
    requires doc.cookie == SetText(name, value, expires, path, domain, secure, now, utc)
    ensures Check(doc, name)
    ensures Get(doc, name) == Ok(value)
  {
    var rest := ";" + ExpiresAttribute(expires, now, utc) + PathAttribute(path) + DomainAttribute(domain)
                + SecureAttribute(secure);
    SetTextStartsWithPair(name, value, expires, path, domain, secure, now, utc);
    assert rest[0] == ';';
    GetOfFirstPair(doc, name, value, rest);
  }

  /** get reads '' from the text delete writes, which expires the cookie. */
  lemma GetOfDeleteText(doc: Document, name: string, path: string, domain: string, now: int, utc: int -> string)
    requires doc.defined && IsLiteralName(name)
    requires doc.cookie == DeleteText(name, path, domain, now, utc)
    ensures Check(doc, name)
    ensures Get(doc, name) == Ok("")
  {
    DeleteIsSet(name, path, domain, now, utc);
    GetOfSetText(doc, name, "", Days(-1), path, domain, false, now, utc);
  }
}
