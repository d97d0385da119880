/**
 * Cookie strings in the form a browser returns them from `document.cookie` (section 5.4 of
 * RFC 6265): `name=value` entries joined with "; ". The names and values here are tokens, as
 * both encoders (encodeURIComponent and escape) produce them: no `;`, no `=`, no white space and
 * no line terminator. The lemmas say what the pattern of the cookie readers finds in such a string.
 */
module CookieHeader {
  import opened JsBase
  import opened JsString
  import opened CookiePattern

  predicate IsToken(t: string) {
    ';' !in t && '=' !in t && forall c :: c in t ==> !IsRegexSpace(c)
  }

  predicate AreTokens(entries: seq<(string, string)>) {
    forall i :: 0 <= i < |entries| ==> IsToken(entries[i].0) && IsToken(entries[i].1)
  }

  /** `name=value`. */
  function Entry(name: string, value: string): string {
    name + "=" + value
  }

  /** The entries joined with "; ". */
  function Header(entries: seq<(string, string)>): string {
    if |entries| == 0 then ""
    else if |entries| == 1 then Entry(entries[0].0, entries[0].1)
    else Entry(entries[0].0, entries[0].1) + "; " + Header(entries[1..])
  }

  /** The value of the first entry called `name`. */
  function FirstWith(entries: seq<(string, string)>, name: string): Option<string> {
    if entries == [] then None
    else if entries[0].0 == name then Some(entries[0].1)
    else FirstWith(entries[1..], name)
  }

  /** The pieces after the first: each entry after the space that follows its `;`. */
  function SpacedSegments(entries: seq<(string, string)>): (segments: seq<string>)
    ensures |segments| == |entries|
  {
    seq(|entries|, i requires 0 <= i < |entries| => " " + Entry(entries[i].0, entries[i].1))
  }

  /** The pieces of a header between its `;`s: the first entry, then each other entry after its space. */
  function HeaderSegments(entries: seq<(string, string)>): (segments: seq<string>)
    requires |entries| >= 1
    ensures |segments| == |entries|
  {
    [Entry(entries[0].0, entries[0].1)] + SpacedSegments(entries[1..])
  }

  /** Piece `i` of a header is entry `i`, after a space unless it is the first. */
  lemma HeaderSegmentAt(entries: seq<(string, string)>, i: nat)
    requires i < |entries|
    ensures HeaderSegments(entries)[i] == (if i == 0 then "" else " ") + Entry(entries[i].0, entries[i].1)
  {
    if i == 0 {
      assert "" + Entry(entries[0].0, entries[0].1) == Entry(entries[0].0, entries[0].1);
    } else {
      assert HeaderSegments(entries)[i] == SpacedSegments(entries[1..])[i - 1];
    }
  }

  // ---------------------------------------------------------------------------------------------
  // Splitting a header

  /** An entry has no `;` and starts with neither `;` nor white space. */
  lemma EntryShape(n: string, v: string)
    requires IsToken(n) && IsToken(v)
    ensures ';' !in Entry(n, v) && |Entry(n, v)| >= 1
    ensures Entry(n, v)[0] != ';' && !IsRegexSpace(Entry(n, v)[0])
  {
    assert Entry(n, v) == n + ['='] + v;
    if n != [] {
      assert Entry(n, v)[0] == n[0] && n[0] in n;
    } else {
      assert Entry(n, v)[0] == '=';
    }
  }

  /** A piece `lead key=value` whose key and value hold no `=` splits into the two. */
  lemma SegmentSplit(lead: string, key: string, value: string)
    requires '=' !in lead + key && '=' !in value
    ensures lead + Entry(key, value) == (lead + key) + ['='] + value
    ensures Split(lead + Entry(key, value), '=') == [lead + key, value]
  {
    SplitNoSeparator(value, '=');
    SplitFirst(lead + key, value, '=');
  }

  /** The text of a cookie written as an entry and its attributes, read as the entry and what follows it. */
  lemma AttributesAfter(entry: string, a: string, b: string, c: string, d: string, e: string)
    ensures entry + a + b + c + d + e == entry + (a + b + c + d + e)
  {
  }

  /** `first; rest`, read as `first`, the separator, and the rest after its space. */
  lemma JoinedAfterSpace(lead: string, first: string, rest: string)
    ensures lead + (first + "; " + rest) == (lead + first) + [';'] + (" " + rest)
  {
  }

  lemma SpacedSegmentsFront(entries: seq<(string, string)>)
    requires |entries| >= 1
    ensures SpacedSegments(entries) == [" " + Entry(entries[0].0, entries[0].1)] + SpacedSegments(entries[1..])
  {
  }

  lemma {:induction false} SplitSpaced(entries: seq<(string, string)>)
    requires |entries| >= 1 && AreTokens(entries)
    ensures Split(" " + Header(entries), ';') == SpacedSegments(entries)
    decreases |entries|
  {
    var entry := Entry(entries[0].0, entries[0].1);
    var first := " " + entry;
    EntryShape(entries[0].0, entries[0].1);
    assert ';' !in first;
    SpacedSegmentsFront(entries);
    if |entries| == 1 {
      SplitNoSeparator(first, ';');
    } else {
      var rest := entries[1..];
      var r := Header(rest);
      assert Header(entries) == entry + "; " + r;
      SplitSpaced(rest);
      JoinedAfterSpace(" ", entry, r);
      SplitFirst(first, " " + r, ';');
    }
  }

  /** Splitting a header at `;` gives its pieces. */
  lemma HeaderSplit(entries: seq<(string, string)>)
    requires |entries| >= 1 && AreTokens(entries)
    ensures Header(entries) != ""
    ensures Split(Header(entries), ';') == HeaderSegments(entries)
  {
    var first := Entry(entries[0].0, entries[0].1);
    EntryShape(entries[0].0, entries[0].1);
    if |entries| == 1 {
      SplitNoSeparator(first, ';');
    } else {
      var rest := entries[1..];
      SplitSpaced(rest);
      JoinedAfterSpace("", first, Header(rest));
      assert "" + Header(entries) == Header(entries) && "" + first == first;
      SplitFirst(first, " " + Header(rest), ';');
    }
  }

  // ---------------------------------------------------------------------------------------------
  // What the pattern finds in a header

  /** A non-empty header is its first entry, then nothing or `; ` and the others. */
  lemma HeaderStart(entries: seq<(string, string)>)
    requires |entries| >= 1 && AreTokens(entries)
    ensures Header(entries) == Entry(entries[0].0, entries[0].1) + (if |entries| == 1 then "" else "; " + Header(entries[1..]))
    ensures Header(entries)[0] == Entry(entries[0].0, entries[0].1)[0]
  {
    EntryShape(entries[0].0, entries[0].1);
    if |entries| == 1 {
      assert Entry(entries[0].0, entries[0].1) + "" == Entry(entries[0].0, entries[0].1);
    }
  }

  /** `name=` is not at the start of a text that starts with another name and `=`. */
  lemma OtherNameAt(s: string, e: string, n: string)
    requires |n| < |s| && s[..|n|] == n && s[|n|] == '='
    requires '=' !in e && '=' !in n && e != n
    ensures !NameAt(s, 0, e)
  {
    if |e| < |n| {
      assert s[|e|] == n[|e|] && n[|e|] in n;
    } else if |e| > |n| && |e| < |s| {
      assert s[..|e|][|n|] == '=';
    } else if |e| == |n| {
      assert s[..|e|] == n;
    }
  }

  /** At the start of an entry followed by `;` or the end, the pattern captures the value exactly when the names agree. */
  lemma MatchAtEntry(s: string, n: string, v: string, rest: string, e: string, gap: Gap)
    requires IsToken(n) && IsToken(v) && '=' !in e
    requires s == Entry(n, v) + rest && (rest == "" || rest[0] == ';')
    ensures MatchAt(s, 0, e, gap) == if e == n then Some(v) else None
  {
    var end := |n| + 1 + |v|;
    EntryShape(n, v);
    assert s[..|n|] == n && s[|n|] == '=' && s[|n| + 1..end] == v;
    assert end == |s| || s[end] == ';';
    if e == n {
      forall k | |n| + 1 <= k < end
        ensures s[k] != ';' && !IsLineTerminator(s[k])
      {
        assert s[k] == v[k - |n| - 1] && v[k - |n| - 1] in v;
      }
      ValueEndAt(s, |n| + 1, end);
    } else {
      OtherNameAt(s, e, n);
    }
  }

  /** A text that starts with an entry, followed by `;` or nothing, yields that entry's value under its name, whatever the gap. */
  lemma LookupEntryFirst(s: string, n: string, v: string, rest: string, gap: Gap)
    requires IsToken(n) && IsToken(v)
    requires s == Entry(n, v) + rest && (rest == "" || rest[0] == ';')
    ensures Lookup(s, n, gap) == Some(v)
  {
    MatchAtEntry(s, n, v, rest, n, gap);
    LookupAtStart(s, n, gap);
  }

  /** Inside an entry, away from its start, the pattern cannot start: there is no `;` there. */
  lemma NoMatchInsideEntry(s: string, first: string, rest: string, e: string, gap: Gap, p: nat)
    requires s == first + rest && ';' !in first && 0 < p < |first|
    ensures MatchAt(s, p, e, gap) == None
  {
    assert s[p] == first[p] && first[p] in first;
  }

  /**
   * Around the `; ` between two entries, with `\s*` as the gap: at the `;` the pattern matches as
   * it would at the start of the following text, and it cannot start at the space or the name after it.
   */
  lemma MatchAtJoin(s: string, first: string, rest: string, e: string)
    requires s == first + "; " + rest && |first| >= 1 && |rest| >= 1
    requires rest[0] != ';' && !IsRegexSpace(rest[0])
    requires e == "" || e[0] != ' '
    ensures MatchAt(s, |first|, e, Spaces) == MatchAt(rest, 0, e, Spaces)
    ensures MatchAt(s, |first| + 1, e, Spaces) == None
    ensures MatchAt(s, |first| + 2, e, Spaces) == None
  {
    var a := first + "; ";
    var j := |first| + 2;
    assert s == a + rest;
    assert s[|first|] == ';' && s[|first| + 1] == ' ' && s[j] == rest[0];
    assert GapEnd(s, j, Spaces) == j;
    assert GapEnd(s, |first| + 1, Spaces) == j;
    NameAtShift(a, rest, 0, e);
    if NameAt(rest, 0, e) {
      CaptureShift(a, rest, |e| + 1);
    }
    if |e| > 0 && |first| + 1 + |e| < |s| {
      assert s[|first| + 1..|first| + 1 + |e|][0] == ' ';
    }
    assert !NameAt(s, |first| + 1, e);
    assert AfterSemicolon(s, |first|, |first| + 1, e) == None;
    assert MatchAt(s, |first|, e, Spaces) == AfterSemicolon(s, |first|, j, e);
  }

  /** When nothing matches at the start, the scan of a text that starts with a `;`-free piece resumes after that piece. */
  lemma LookupPastFirst(s: string, first: string, rest: string, e: string, gap: Gap)
    requires s == first + rest && ';' !in first && |first| >= 1
    requires MatchAt(s, 0, e, gap) == None
    ensures Lookup(s, e, gap) == FirstFrom(MatchesFrom(s, e, gap), |first|)
  {
    var ms := MatchesFrom(s, e, gap);
    forall k | 0 < k < |first|
      ensures ms[k].None?
    {
      NoMatchInsideEntry(s, first, rest, e, gap, k);
    }
    FirstFromSkips(ms, 0, |first|);
  }

  /** From the `; ` between two entries on, the scan with `\s*` finds what it finds in the text that follows. */
  lemma LookupAcrossJoin(s: string, first: string, rest: string, e: string)
    requires s == first + "; " + rest && |first| >= 1 && |rest| >= 1
    requires rest[0] != ';' && !IsRegexSpace(rest[0])
    requires e == "" || e[0] != ' '
    ensures FirstFrom(MatchesFrom(s, e, Spaces), |first|) == Lookup(rest, e, Spaces)
  {
    var ms := MatchesFrom(s, e, Spaces);
    var ns := MatchesFrom(rest, e, Spaces);
    var a := first + "; ";
    MatchAtJoin(s, first, rest, e);
    assert s == a + rest;
    var p := |first|;
    assert ms[p] == ns[0] && ms[p + 1].None? && ms[p + 2].None?;
    if ns[0].None? {
      assert FirstFrom(ms, p) == FirstFrom(ms, p + 1) == FirstFrom(ms, p + 2) == FirstFrom(ms, |a| + 1);
      ScanShift(a, rest, e, Spaces, 1);
    }
  }

  /** With `\s*` as the gap, the pattern finds in a header the value of the FIRST entry with the name, and nothing when none has it. */
  lemma {:induction false} HeaderLookup(entries: seq<(string, string)>, e: string)
    requires AreTokens(entries) && IsToken(e)
    ensures Lookup(Header(entries), e, Spaces) == FirstWith(entries, e)
    decreases |entries|
  {
    var s := Header(entries);
    if e != [] {
      assert e[0] in e;
    }
    if entries == [] {
      var ms := MatchesFrom(s, e, Spaces);
      assert ms[0].None? && FirstFrom(ms, 1) == None;
    } else {
      var n, v := entries[0].0, entries[0].1;
      var first := Entry(n, v);
      var rest := if |entries| == 1 then "" else "; " + Header(entries[1..]);
      HeaderStart(entries);
      EntryShape(n, v);
      MatchAtEntry(s, n, v, rest, e, Spaces);
      if e != n {
        LookupPastFirst(s, first, rest, e, Spaces);
        if |entries| == 1 {
          assert MatchesFrom(s, e, Spaces)[|s|].None?;
        } else {
          var r := Header(entries[1..]);
          HeaderLookup(entries[1..], e);
          HeaderStart(entries[1..]);
          EntryShape(entries[1].0, entries[1].1);
          LookupAcrossJoin(s, first, r, e);
        }
      }
    }
  }

  // ---------------------------------------------------------------------------------------------
  // The pattern whose gap is the letter `s`

  /** In a header every `;` is followed by a space. */
  lemma {:induction false} SemicolonThenSpace(entries: seq<(string, string)>, p: nat)
    requires AreTokens(entries) && p < |Header(entries)| && Header(entries)[p] == ';'
    ensures p + 1 < |Header(entries)| && Header(entries)[p + 1] == ' '
    decreases |entries|
  {
    var first := Entry(entries[0].0, entries[0].1);
    EntryShape(entries[0].0, entries[0].1);
    HeaderStart(entries);
    if p >= |first| + 2 {
      var r := Header(entries[1..]);
      assert Header(entries) == (first + "; ") + r;
      assert r[p - |first| - 2] == ';';
      SemicolonThenSpace(entries[1..], p - |first| - 2);
    }
  }

  /** With the letter `s` as the gap, the pattern cannot start after the first entry of a header. */
  lemma NoLetterSMatchAfterStart(entries: seq<(string, string)>, e: string, p: nat)
    requires AreTokens(entries) && IsToken(e) && 0 < p <= |Header(entries)|
    ensures MatchAt(Header(entries), p, e, LetterS) == None
  {
    var s := Header(entries);
    if p < |s| && s[p] == ';' {
      SemicolonThenSpace(entries, p);
      assert GapEnd(s, p + 1, LetterS) == p + 1;
      if e != [] {
        assert e[0] in e;
        if p + 1 + |e| < |s| {
          assert s[p + 1..p + 1 + |e|][0] == ' ';
        }
      }
      assert !NameAt(s, p + 1, e);
    }
  }

  /** With the letter `s` as the gap, the pattern finds in a header only the FIRST entry, and only under its own name. */
  lemma HeaderLookupLetterS(entries: seq<(string, string)>, e: string)
    requires AreTokens(entries) && IsToken(e)
    ensures Lookup(Header(entries), e, LetterS) == if entries != [] && entries[0].0 == e then Some(entries[0].1) else None
  {
    var s := Header(entries);
    var ms := MatchesFrom(s, e, LetterS);
    forall p | 1 <= p < |ms|
      ensures ms[p].None?
    {
      NoLetterSMatchAfterStart(entries, e, p);
    }
    FirstFromSkips(ms, 1, |ms|);
    if entries != [] {
      var rest := if |entries| == 1 then "" else "; " + Header(entries[1..]);
      HeaderStart(entries);
      MatchAtEntry(s, entries[0].0, entries[0].1, rest, e, LetterS);
    } else {
      assert ms[0].None?;
    }
  }
}
