# ng2-cookies: the cookie façade, modelled in Dafny

ng2-cookies wraps `document.cookie` in two façades:

- `CookieService` (src/cookie.ts) offers `check`, `get`, `getAll`, `set`, `delete` and `deleteAll`. It encodes names and values with `encodeURIComponent` and reads them back with a regular expression and `decodeURIComponent`.
- The older static class `Cookie` (src/services/cookie.ts) offers `getCookie`, `setCookie` and `deleteCookie`. It uses `escape` and `unescape` instead.

The model keeps the source's own shape:

- The page's document is a class, `Browser.Document`. It has a flag for whether a document exists, the cookie string that reads see, and `writes`, a log of every assignment to `document.cookie`.
- The readers (`check`, `get`, the private `cookieHandler`, `getCookie`) are functions that read the document.
- `getAll`, `set`, `delete`, `deleteAll`, `setCookie` and `deleteCookie` are methods. `getAll` and `deleteAll` keep their loops, and the writers build `cookieStr` step by step, as the source does.
- Each method is proved against a specification function: `ParseAll`, `SetText`, `DeleteText`, `DeleteTexts` or `SetCookieText`.

The modules, each in its own file:

| module | file | what it holds |
|---|---|---|
| `JsBase` | js_base.dfy | Option and Outcome (a value or a thrown URIError), hexadecimal digits, the white-space and line-terminator classes of ECMA-262 |
| `JsString` | js_string.dfy | `String.prototype.split` on one character, its inverse `Join`, and the `replace(/^ /, '')` of getAll |
| `UriCoding` | uri_coding.dfy | encodeURIComponent and decodeURIComponent (section 19.2.6 of ECMA-262) over UTF-8 (RFC 3629) and `%XY` octets (section 2.1 of RFC 3986) |
| `EscapeCoding` | escape_coding.dfy | escape and unescape (sections B.2.1.1 and B.2.1.2 of ECMA-262), with `%XY`, `%uWXYZ` and surrogate pairs |
| `JsObject` | js_object.dfy | the plain object getAll fills: assignment, the ignored `__proto__` key, and the order of `Object.keys` |
| `JsDate` | js_date.dfy | TimeClip, the "Invalid Date" text, and `now + days * 86400000` |
| `Browser` | browser.dfy | the `Document` class |
| `CookiePattern` | cookie_pattern.dfy | the pattern `(?:^N\|;G*N)=(.*?)(?:;\|$)` of both readers, where the gap G is `\s` or the letter `s`; leftmost match, backtracking gap, lazy value; where a line terminator comes before the next `;` or the end, the match at that index fails |
| `CookieHeader` | cookie_header.dfy | cookie strings as a browser returns them (`n=v` entries joined by "; ", section 5.4 of RFC 6265) and what the pattern finds in them |
| `CookieService` | cookie_service.dfy | src/cookie.ts |
| `LegacyCookie` | legacy_cookie.dfy | src/services/cookie.ts |

## Model

| member | source | states |
|---|---|---|
| CookieService.Check | src/cookie.ts:13-17 | false when there is no document; otherwise true exactly when some index of the cookie string starts a match of the pattern for the encoded name |
| CookieService.Get | src/cookie.ts:25-30 | '' when check is false; otherwise decodeURIComponent of the value captured by the leftmost match (no earlier index matches), a URIError if that value is malformed |
| CookiePattern.LookupFinds | src/cookie.ts:117-121 | the regular-expression scan finds a value exactly when some index starts a match, and the value it finds is the one captured at the least such index |
| CookiePattern.LookupWithoutLineBreaks | src/cookie.ts:119 | on a string without line terminators, the pattern matches exactly when `name=` stands at the start or after a `;` and a gap |
| CookiePattern.FirstFromLeftmost | src/cookie.ts:119-120 | the scan returns a match at the least index from its start on |
| CookieService.GetAll | src/cookie.ts:37-51 | the object filled by the loop over the `;` pieces is ParseAll of the cookie string, or the URIError of the first piece that fails to decode; an empty cookie string gives the empty object |
| CookieService.ParseIntoSpec | src/cookie.ts:42-47 | the loop is: decode every piece (a URIError in any piece is the result), then assign the decoded pairs in order |
| CookieService.ParsePair | src/cookie.ts:44-46 | a piece `enc(n)=enc(v)`, with or without the space after a `;`, is read as the pair (n, v): split at `=`, one leading space stripped, both parts decoded |
| CookieService.ParseAllValid | src/cookie.ts:38-50 | whatever getAll returns holds each property once in its creation order and has no own `__proto__` |
| CookieService.AssignKeys | src/cookie.ts:46 | the properties after the assignments are the earlier ones plus every assigned name except `__proto__` |
| CookieService.AssignLastWins | src/cookie.ts:46 | the last pair with a name gives that property its value |
| CookieService.AssignOrder | src/cookie.ts:46 | new, distinct names other than `__proto__` are created in the order of their pairs |
| CookieService.GetAllOfCookieString | src/cookie.ts:37-51 | on a cookie string of encoded pairs joined by "; ", getAll succeeds; its keys are the names except `__proto__`, each with the value of its last pair; distinct names keep their order |
| CookieService.CookieStringLookup | src/cookie.ts:117-121 | in a cookie string of encoded pairs, the pattern finds the encoded value of the first pair with the name, and nothing when no pair has it |
| CookieService.GetOfCookieString | src/cookie.ts:13-30 | on such a cookie string, check is true exactly when some pair has the name, and get returns the value of the first such pair, or '' |
| CookieService.FirstEncoded | src/cookie.ts:118 | because encoding is one-to-one, the first encoded entry with the encoded name is the encoding of the first pair with the name |
| CookieService.Set | src/cookie.ts:63-86 | appends exactly one write, SetText: `enc(name)=enc(value);`, then `expires=…;`, `path=…;`, `domain=…;` and `secure;`, in that order, each only when its argument is truthy |
| CookieService.GetOfSetText | src/cookie.ts:63-86 | read back from the text set writes, check is true and get returns the value that was set |
| CookieService.GetOfFirstPair | src/cookie.ts:25-30 | get returns v from any cookie string that starts with `enc(name)=enc(v)` followed by `;` or nothing |
| CookieService.DeleteIsSet | src/cookie.ts:95-97 | delete's text is set's text for the value '', expires -1 and no secure: the encoded name, `=;`, and an expiry one day before now |
| CookieService.Delete | src/cookie.ts:95-97 | appends exactly one write, DeleteText |
| CookieService.GetOfDeleteText | src/cookie.ts:95-97 | read back from the text delete writes, check is true and get returns '' |
| CookieService.DeleteEach | src/cookie.ts:105-107 | the loop appends one delete text per key, in the order of the keys, with the time of its own `new Date()` |
| CookieService.DeleteAll | src/cookie.ts:102-108 | when getAll throws, nothing is written and the URIError propagates; otherwise exactly one delete per key of Object.keys of getAll's result, in that order, and no other write |
| CookieService.DeleteAllOnce | src/cookie.ts:103-107 | deleteAll deletes every property of getAll's result exactly once |
| JsObject.PutKeys | src/cookie.ts:46 | `obj[k] = v` as Object.keys shows it: the keys of the object plus k (never `__proto__`), each once; k holds v and every other property keeps its value |
| JsObject.PutKeysOrder | src/cookie.ts:46 | an existing key keeps its place in Object.keys; a new key that is no array index is listed last |
| JsObject.PutValid | src/cookie.ts:46 | an assignment keeps every property once in the order and never creates `__proto__` |
| JsObject.SortIndicesSpec | src/cookie.ts:105 | the array-index keys are put in ascending numeric order, keeping every key |
| JsObject.KeysOrder | src/cookie.ts:105 | Object.keys lists the array-index keys first, in ascending numeric order, then the other keys in creation order |
| JsObject.KeysOnce | src/cookie.ts:105 | Object.keys lists every own property exactly once and nothing else |
| JsObject.PartitionKeys | src/cookie.ts:105 | the array-index keys and the other keys together are the keys of the object |
| JsString.Split | src/cookie.ts:42 | split gives at least one piece and no piece contains the separator |
| JsString.JoinSplit | src/cookie.ts:42 | joining the pieces of a split with the separator gives the string back |
| JsString.SplitJoin | src/cookie.ts:42 | splitting pieces without the separator, joined with it, gives the pieces back |
| JsString.SplitFirst | src/cookie.ts:44 | a string cut at its first separator splits into the part before it and the split of the rest |
| CookieService.ExpiresAttributeSpec | src/cookie.ts:66-73 | no expires attribute for an omitted or zero day count; otherwise `expires=` and the HTTP-date of now + days · 86400000 ms (or of the given time), which is "Invalid Date" exactly when that time lies more than 8.64e15 ms from the epoch |
| JsDate.DaysFromNow | src/cookie.ts:68 | a positive day count gives a later time, a negative one an earlier time, and -1 exactly one day before now |
| UriCoding.UriRoundTrip | src/cookie.ts:27 | decodeURIComponent returns every encodeURIComponent result to the original string |
| UriCoding.EncodeInjective | src/cookie.ts:118 | distinct names have distinct encodings |
| UriCoding.EncodedHasNoSeparator | src/cookie.ts:64 | an encoding contains no `;`, no `=`, no white space and no line terminator |
| UriCoding.EncodeKeepsUnreserved | src/cookie.ts:64 | a string is its own encoding exactly when all its characters are unreserved, and an encoding is never shorter than its string |
| UriCoding.Utf8RoundTrip | src/cookie.ts:27 | decoding the UTF-8 octets of a code point gives the code point |
| UriCoding.Utf8DecodeOnlyEncodings | src/cookie.ts:27 | the only octet sequences the decoder accepts are UTF-8 encodings of code points |
| CookieHeader.HeaderSplit | src/cookie.ts:42 | splitting a cookie string at `;` gives its first entry, then each other entry after its space |
| CookieHeader.HeaderLookup | src/cookie.ts:119 | with `\s*` as the gap, the pattern finds in a cookie string the value of the first entry with the name, and nothing when none has it |
| CookieHeader.HeaderLookupLetterS | src/services/cookie.ts:15 | with the letter `s` as the gap, the pattern finds in a cookie string only the first entry, and only under its own name |
| CookieHeader.LookupEntryFirst | src/cookie.ts:119 | a string that starts with `n=v` followed by `;` or nothing yields v under n, whatever the gap |
| CookieHeader.MatchAtEntry | src/cookie.ts:119 | at the start of an entry the pattern captures its value exactly when the names agree |
| CookieHeader.MatchAtJoin | src/cookie.ts:119 | across the "; " between two entries, `;\s*` reaches the next entry and the pattern cannot start at the space |
| LegacyCookie.GetCookie | src/services/cookie.ts:12-18 | as written: null when no index starts a match of the pattern with the letter `s` as the gap; otherwise unescape of the value captured by the leftmost match |
| LegacyCookie.GetCookieFixed | src/services/cookie.ts:15 | corrected: the same reader with `\s*` as the gap |
| LegacyCookie.GetCookieOfCookieString | src/services/cookie.ts:15-17 | as written, on a cookie string of escaped pairs, getCookie finds a cookie only when it is the first one |
| LegacyCookie.SecondCookieMissed | src/services/cookie.ts:15 | on "a=1; b=2", getCookie("b") as written is null, and the corrected reader returns "2" |
| LegacyCookie.GetCookieFixedOfCookieString | src/services/cookie.ts:15-17 | corrected, on a cookie string of escaped pairs, the reader returns the value of the first cookie with the name, or null |
| LegacyCookie.FirstEscaped | src/services/cookie.ts:14 | because escape is one-to-one, the first escaped entry with the escaped name is the escape of the first pair with the name |
| LegacyCookie.GetCookieOfFirstPair | src/services/cookie.ts:14-17 | both readers return v from any cookie string that starts with `escape(name)=escape(v)` followed by `;` or nothing |
| LegacyCookie.SetCookie | src/services/cookie.ts:29-46 | appends exactly one write: `escape(name)=escape(value);`, then `expires=…;`, `path=…;` and `domain=…;`, in that order, each only when truthy, and never `secure` |
| LegacyCookie.GetCookieOfSetText | src/services/cookie.ts:29-46 | both readers read the value back from the text setCookie writes |
| LegacyCookie.DeleteCookie | src/services/cookie.ts:55-60 | writes setCookie(name, '', -1, path, domain) when getCookie reads a non-empty value, and nothing when it reads null or '' |
| LegacyCookie.DeleteCookieText | src/services/cookie.ts:58 | that write is the escaped name, `=;` and an expiry one day before now, then the path and domain |
| EscapeCoding.EscapeRoundTrip | src/services/cookie.ts:17 | unescape returns every escape result to the original string |
| EscapeCoding.EscapeInjective | src/services/cookie.ts:14 | distinct names have distinct escapes |
| EscapeCoding.EscapedHasNoSeparator | src/services/cookie.ts:31 | an escape contains no `;`, no `=`, no white space and no line terminator |

Where the code and the doc comments disagree, the model follows the code:

- No default path `/` is written. `set` and `setCookie` add `path=` only for a non-empty path, whatever the doc comments say.
- Reads do not always degrade gracefully. A malformed `%` escape makes `decodeURIComponent` throw, and that URIError propagates out of `get`, `getAll` and `deleteAll`; the model returns it as an Outcome.
- `getAll` reads `document.cookie` without checking that a document exists. So it, `set`, `delete`, `deleteAll` and the whole legacy class require a document. Only `check` and `get` test for one.
- A piece without `=` gets the value `"undefined"`, which is `decodeURIComponent(undefined)`.

## Left out

- The browser's handling of a write (overwriting, expiry, path and domain matching) is not in the code. Writes are a log, and the cookie string that reads see is state that the writes leave unchanged.
- The HTTP-date text of `toUTCString` is a parameter `utc`. The time `new Date()` reads is a parameter `now`; in deleteAll it is `clock(i)` for the i-th delete.
- Day counts are integers. Fractional days, NaN and the rounding of a float product are not modelled.
- Names are limited to those whose encoded form has no regular-expression operator. That excludes `.`, `*`, `(` and `)` for CookieService and `*`, `+` and `.` for the legacy class. The source does not escape them; with them the pattern is no longer a literal match.
- Strings are sequences of Unicode scalar values, so the lone surrogates that make encodeURIComponent throw cannot occur.
- EscapeCoding.Unescape: a `%uD800`–`%uDFFF` escape without its partner is kept as its six characters of text; JavaScript yields a lone surrogate code unit, which a Dafny `char` cannot hold.
- The `typeof window` and `typeof document` probing is a `defined` flag on the document.
- The exported singleton at src/cookie.ts:124 and the Angular packaging are not modelled.

## Findings

| source | as written | input that shows it | evidently intended | confidence | as-written member | corrected member |
|---|---|---|---|---|---|---|
| src/services/cookie.ts:15 | the pattern is built from the plain string literal `';\s*'`, in which `\s` is not an escape sequence and stands for the letter `s`, so the pattern is `;s*name=` | `document.cookie` is "a=1; b=2" and the call is getCookie("b"): the result is null | `';\\s*'`, white space after the `;`, as src/cookie.ts:119 writes it; the result is "2" | high, not executed | LegacyCookie.GetCookie, LegacyCookie.SecondCookieMissed, LegacyCookie.GetCookieOfCookieString | LegacyCookie.GetCookieFixed, LegacyCookie.GetCookieFixedOfCookieString |

`LegacyCookie.DeleteCookie` keeps the reader as written, as the source calls it. So on a browser cookie string it deletes only the first cookie. With `GetCookieFixed` it would delete any cookie with a non-empty value.
