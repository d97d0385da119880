/**
 * The regular expression both classes build to find one cookie,
 *   (?:^NAME|;GAP*NAME)=(.*?)(?:;|$)
 * with NAME the encoded name taken literally, and GAP the class `\s` in the service but the
 * letter `s` in the legacy class, whose pattern is a plain string literal in which `\s` is just `s`.
 * The matcher below follows the JavaScript semantics: the leftmost starting index wins, the
 * alternative with `^` is tried first, GAP* is greedy and gives back characters one at a time,
 * the lazy group stops at the first `;` or at the end of input, and `.` does not match a line
 * terminator.
 */
module CookiePattern {
  import opened JsBase

  /** What may stand between `;` and the name. */
  datatype Gap = Spaces | LetterS

  predicate InGap(gap: Gap, c: char) {
    match gap
    case Spaces => IsRegexSpace(c)
    case LetterS => c == 's'
  }

  /** `name=` occurs at index `i`. */
  predicate NameAt(s: string, i: nat, name: string) {
    i + |name| < |s| && s[i..i + |name|] == name && s[i + |name|] == '='
  }

  /** Where `(.*?)(?:;|$)` started at `i` stops: at the first `;` or the end, unless a line terminator comes first. */
  function ValueEnd(s: string, i: nat): (e: Option<nat>)
    requires i <= |s|
    ensures e.Some? ==> i <= e.value <= |s|
    decreases |s| - i
  {
    if i == |s| || s[i] == ';' then Some(i)
    else if IsLineTerminator(s[i]) then None
    else ValueEnd(s, i + 1)
  }

  /** The lazy group stops at a `;` or the end, and crosses neither a `;` nor a line terminator. */
  lemma {:induction false} ValueEndStops(s: string, i: nat)
    requires i <= |s|
    ensures var e := ValueEnd(s, i);
      e.Some? ==> (e.value == |s| || s[e.value] == ';')
                  && forall k :: i <= k < e.value ==> s[k] != ';' && !IsLineTerminator(s[k])
    decreases |s| - i
  {
    if i < |s| && s[i] != ';' && !IsLineTerminator(s[i]) {
      ValueEndStops(s, i + 1);
    }
  }

  /** The text `(.*?)` captures when the value starts at `i`. */
  function Capture(s: string, i: nat): Option<string>
    requires i <= |s|
  {
    match ValueEnd(s, i)
    case Some(e) => Some(s[i..e])
    case None => None
  }

  /** The end of the run of gap characters that starts at `i`. */
  function GapEnd(s: string, i: nat, gap: Gap): (j: nat)
    requires i <= |s|
    ensures i <= j <= |s|
    decreases |s| - i
  {
    if i < |s| && InGap(gap, s[i]) then GapEnd(s, i + 1, gap) else i
  }

  /**
   * The second alternative `;GAP*NAME=` for the `;` at `p`, with GAP* giving back from the
   * name starting at `j` towards the name starting right after the `;`.
   */
  function AfterSemicolon(s: string, p: nat, j: nat, name: string): Option<string>
    requires p < j <= |s|
    decreases j
  {
    var here := if NameAt(s, j, name) then Capture(s, j + |name| + 1) else None;
    if here.Some? || j == p + 1 then here else AfterSemicolon(s, p, j - 1, name)
  }

  /** The second alternative captures what follows some name between the `;` and `j`, and only fails when every such name fails. */
  lemma {:induction false} AfterSemicolonSpec(s: string, p: nat, j: nat, name: string)
    requires p < j <= |s|
    ensures var r := AfterSemicolon(s, p, j, name);
      (r.Some? ==> exists m :: p < m <= j && NameAt(s, m, name) && Capture(s, m + |name| + 1) == r)
      && (r.None? ==> forall m :: p < m <= j && NameAt(s, m, name) ==> Capture(s, m + |name| + 1).None?)
    decreases j
  {
    if j > p + 1 {
      AfterSemicolonSpec(s, p, j - 1, name);
    }
  }

  /** What the pattern captures when matching starts at index `p`, if it matches there. */
  function MatchAt(s: string, p: nat, name: string, gap: Gap): Option<string>
    requires p <= |s|
  {
    var first := if p == 0 && NameAt(s, 0, name) then Capture(s, |name| + 1) else None;
    if first.Some? then first
    else if p < |s| && s[p] == ';' then AfterSemicolon(s, p, GapEnd(s, p + 1, gap), name)
    else None
  }

  /** For every starting index of `s`, what the pattern captures there. */
  function MatchesFrom(s: string, name: string, gap: Gap): (ms: seq<Option<string>>)
    ensures |ms| == |s| + 1
  {
    seq(|s| + 1, q requires 0 <= q <= |s| => MatchAt(s, q, name, gap))
  }

  /** The engine's scan: the first entry from `p` on that is a match. */
  function FirstFrom(ms: seq<Option<string>>, p: nat): Option<string>
    requires p <= |ms|
    decreases |ms| - p
  {
    if p == |ms| then None
    else if ms[p].Some? then ms[p]
    else FirstFrom(ms, p + 1)
  }

  /** A fresh pattern run over the whole string: `test` asks whether this is Some, `exec(...)[1]` is its value. */
  function Lookup(s: string, name: string, gap: Gap): Option<string> {
    FirstFrom(MatchesFrom(s, name, gap), 0)
  }

  /** A match at the start of the text is the one the scan returns. */
  lemma LookupAtStart(s: string, name: string, gap: Gap)
    requires MatchAt(s, 0, name, gap).Some?
    ensures Lookup(s, name, gap) == MatchAt(s, 0, name, gap)
  {
    assert MatchesFrom(s, name, gap)[0] == MatchAt(s, 0, name, gap);
  }

  /** The scan returns the entry at the least index from `p` on that is a match. */
  lemma {:induction false} FirstFromLeftmost(ms: seq<Option<string>>, p: nat)
    requires p <= |ms|
    ensures FirstFrom(ms, p).Some? ==>
      exists q :: p <= q < |ms| && ms[q] == FirstFrom(ms, p) && forall q' :: p <= q' < q ==> ms[q'].None?
    ensures FirstFrom(ms, p).None? ==> forall q :: p <= q < |ms| ==> ms[q].None?
    decreases |ms| - p
  {
    if p < |ms| && ms[p].None? {
      FirstFromLeftmost(ms, p + 1);
    }
  }

  // ---------------------------------------------------------------------------------------------
  // A declarative description of a match, and the proof that the matcher finds exactly that.

  /** `v` is what the lazy group captures from `i`: text free of `;` and line terminators, then `;` or the end. */
  ghost predicate ValueSpan(s: string, i: nat, v: string) {
    i + |v| <= |s| && s[i..i + |v|] == v && (i + |v| == |s| || s[i + |v|] == ';')
    && forall k :: 0 <= k < |v| ==> v[k] != ';' && !IsLineTerminator(v[k])
  }

  ghost predicate GapOnly(s: string, i: nat, j: nat, gap: Gap)
    requires i <= j <= |s|
  {
    forall k :: i <= k < j ==> InGap(gap, s[k])
  }

  /** `name=` stands at `j` and the value after it is `v`. */
  ghost predicate NameThenValue(s: string, j: nat, name: string, v: string) {
    NameAt(s, j, name) && ValueSpan(s, j + |name| + 1, v)
  }

  /** The pattern matches at `p` and captures `v`. */
  ghost predicate MatchesAt(s: string, p: nat, name: string, gap: Gap, v: string) {
    (p == 0 && NameThenValue(s, 0, name, v))
    || (p < |s| && s[p] == ';'
        && exists j: nat :: p < j <= |s| && GapOnly(s, p + 1, j, gap) && NameThenValue(s, j, name, v))
  }

  /** Some index of `s` starts a match of the pattern. */
  ghost predicate HasMatch(s: string, name: string, gap: Gap) {
    exists p: nat, v :: p <= |s| && MatchesAt(s, p, name, gap, v)
  }

  lemma {:induction false} ValueEndAt(s: string, i: nat, e: nat)
    requires i <= e <= |s| && (e == |s| || s[e] == ';')
    requires forall k :: i <= k < e ==> s[k] != ';' && !IsLineTerminator(s[k])
    ensures ValueEnd(s, i) == Some(e)
    decreases e - i
  {
    if i < e {
      ValueEndAt(s, i + 1, e);
    }
  }

  /** Capture finds exactly the span the lazy group can match. */
  lemma CaptureSpan(s: string, i: nat, v: string)
    requires i <= |s|
    ensures Capture(s, i) == Some(v) <==> ValueSpan(s, i, v)
  {
    if ValueSpan(s, i, v) {
      forall k | i <= k < i + |v|
        ensures s[k] != ';' && !IsLineTerminator(s[k])
      {
        assert s[k] == v[k - i];
      }
      ValueEndAt(s, i, i + |v|);
    }
    if Capture(s, i) == Some(v) {
      ValueEndStops(s, i);
      var e := ValueEnd(s, i).value;
      assert e == i + |v|;
      forall k | 0 <= k < |v|
        ensures v[k] != ';' && !IsLineTerminator(v[k])
      {
        assert v[k] == s[i + k];
      }
    }
  }

  /** Without a line terminator ahead, the lazy group always ends. */
  lemma {:induction false} CaptureWithoutLineBreak(s: string, i: nat)
    requires i <= |s|
    requires forall k :: i <= k < |s| ==> !IsLineTerminator(s[k])
    ensures Capture(s, i).Some?
    decreases |s| - i
  {
    if i < |s| && s[i] != ';' {
      CaptureWithoutLineBreak(s, i + 1);
    }
  }

  /** The gap characters from `i` on end exactly at GapEnd. */
  lemma {:induction false} GapOnlyUpToGapEnd(s: string, i: nat, j: nat, gap: Gap)
    requires i <= j <= |s|
    ensures GapOnly(s, i, j, gap) <==> j <= GapEnd(s, i, gap)
    decreases |s| - i
  {
    if i < j {
      if InGap(gap, s[i]) {
        GapOnlyUpToGapEnd(s, i + 1, j, gap);
      }
    } else if i < |s| && InGap(gap, s[i]) {
      GapOnlyUpToGapEnd(s, i + 1, i + 1, gap);
    }
  }

  lemma FirstAlternativeSpec(s: string, name: string, gap: Gap)
    requires NameAt(s, 0, name)
    ensures Capture(s, |name| + 1).Some? ==> NameThenValue(s, 0, name, Capture(s, |name| + 1).value)
    ensures Capture(s, |name| + 1).None? ==> forall v :: !NameThenValue(s, 0, name, v)
  {
    var start := |name| + 1;
    var c := Capture(s, start);
    if c.Some? {
      CaptureSpan(s, start, c.value);
    }
    forall v | NameThenValue(s, 0, name, v)
      ensures c.Some?
    {
      CaptureSpan(s, start, v);
    }
  }

  lemma AfterSemicolonSound(s: string, p: nat, g: nat, name: string, gap: Gap, v: string)
    requires p < |s| && s[p] == ';' && g == GapEnd(s, p + 1, gap)
    requires AfterSemicolon(s, p, g, name) == Some(v)
    ensures exists j: nat :: p < j <= |s| && GapOnly(s, p + 1, j, gap) && NameThenValue(s, j, name, v)
  {
    AfterSemicolonSpec(s, p, g, name);
    var m :| p < m <= g && NameAt(s, m, name) && Capture(s, m + |name| + 1) == Some(v);
    NameThenCapture(s, m, name, v);
    GapOnlyUpToGapEnd(s, p + 1, m, gap);
    assert GapOnly(s, p + 1, m, gap);
  }

  lemma NameThenCapture(s: string, m: nat, name: string, v: string)
    requires NameAt(s, m, name) && Capture(s, m + |name| + 1) == Some(v)
    ensures NameThenValue(s, m, name, v)
  {
    var start := m + |name| + 1;
    CaptureSpan(s, start, v);
  }

  lemma AfterSemicolonComplete(s: string, p: nat, name: string, gap: Gap, j: nat, v: string)
    requires p < |s| && s[p] == ';'
    requires p < j <= |s| && GapOnly(s, p + 1, j, gap) && NameThenValue(s, j, name, v)
    ensures AfterSemicolon(s, p, GapEnd(s, p + 1, gap), name).Some?
  {
    var q := p + 1;
    GapOnlyUpToGapEnd(s, q, j, gap);
    var start := j + |name| + 1;
    CaptureSpan(s, start, v);
    AfterSemicolonSpec(s, p, GapEnd(s, q, gap), name);
  }

  lemma SecondAlternativeSpec(s: string, p: nat, name: string, gap: Gap)
    requires p < |s| && s[p] == ';'
    ensures var a := AfterSemicolon(s, p, GapEnd(s, p + 1, gap), name);
      (a.Some? ==> exists j: nat :: p < j <= |s| && GapOnly(s, p + 1, j, gap) && NameThenValue(s, j, name, a.value))
      && (a.None? ==> forall v, j: nat :: p < j <= |s| && GapOnly(s, p + 1, j, gap) ==> !NameThenValue(s, j, name, v))
  {
    var a := AfterSemicolon(s, p, GapEnd(s, p + 1, gap), name);
    if a.Some? {
      AfterSemicolonSound(s, p, GapEnd(s, p + 1, gap), name, gap, a.value);
    }
    forall v, j: nat | p < j <= |s| && GapOnly(s, p + 1, j, gap) && NameThenValue(s, j, name, v)
      ensures a.Some?
    {
      AfterSemicolonComplete(s, p, name, gap, j, v);
    }
  }

  /** MatchAt is sound and complete for the declarative match. */
  lemma MatchAtSpec(s: string, p: nat, name: string, gap: Gap)
    requires p <= |s|
    ensures MatchAt(s, p, name, gap).Some? ==> MatchesAt(s, p, name, gap, MatchAt(s, p, name, gap).value)
    ensures MatchAt(s, p, name, gap).None? ==> forall v :: !MatchesAt(s, p, name, gap, v)
  {
    if p == 0 && NameAt(s, 0, name) {
      FirstAlternativeSpec(s, name, gap);
    }
    if p < |s| && s[p] == ';' {
      SecondAlternativeSpec(s, p, name, gap);
    }
  }

  /** The pattern is found somewhere in `s` exactly when it matches at some index. */
  lemma LookupFinds(s: string, name: string, gap: Gap)
    ensures Lookup(s, name, gap).Some? <==> exists p: nat, v :: p <= |s| && MatchesAt(s, p, name, gap, v)
    ensures Lookup(s, name, gap).Some? ==>
      exists p: nat :: p <= |s| && MatchesAt(s, p, name, gap, Lookup(s, name, gap).value)
                       && forall q: nat, v :: q < p ==> !MatchesAt(s, q, name, gap, v)
  {
    var r := Lookup(s, name, gap);
    var ms := MatchesFrom(s, name, gap);
    FirstFromLeftmost(ms, 0);
    if r.Some? {
      var p :| 0 <= p < |ms| && ms[p] == r && forall q' :: 0 <= q' < p ==> ms[q'].None?;
      assert ms[p] == MatchAt(s, p, name, gap);
      MatchAtSpec(s, p, name, gap);
      forall q: nat, v | q < p
        ensures !MatchesAt(s, q, name, gap, v)
      {
        assert ms[q] == MatchAt(s, q, name, gap);
        MatchAtSpec(s, q, name, gap);
      }
    } else {
      forall p: nat, v | p <= |s|
        ensures !MatchesAt(s, p, name, gap, v)
      {
        assert ms[p] == MatchAt(s, p, name, gap);
        MatchAtSpec(s, p, name, gap);
      }
    }
  }

  /**
   * For a cookie string without line terminators the lookup succeeds exactly when `name=` stands at
   * the start, or after a `;` followed only by gap characters.
   */
  lemma LookupWithoutLineBreaks(s: string, name: string, gap: Gap)
    requires forall k :: 0 <= k < |s| ==> !IsLineTerminator(s[k])
    ensures Lookup(s, name, gap).Some? <==>
      NameAt(s, 0, name)
      || exists p: nat, j: nat :: p < j <= |s| && s[p] == ';' && GapOnly(s, p + 1, j, gap) && NameAt(s, j, name)
  {
    LookupFinds(s, name, gap);
    if NameAt(s, 0, name) {
      var v := NameWithoutLineBreak(s, 0, name);
      assert MatchesAt(s, 0, name, gap, v);
    }
    if p: nat, j: nat :| p < j <= |s| && s[p] == ';' && GapOnly(s, p + 1, j, gap) && NameAt(s, j, name) {
      var v := NameWithoutLineBreak(s, j, name);
      assert MatchesAt(s, p, name, gap, v);
    }
  }

  lemma NameWithoutLineBreak(s: string, j: nat, name: string) returns (v: string)
    requires forall k :: 0 <= k < |s| ==> !IsLineTerminator(s[k])
    requires NameAt(s, j, name)
    ensures NameThenValue(s, j, name, v)
  {
    var start := j + |name| + 1;
    CaptureWithoutLineBreak(s, start);
    v := Capture(s, start).value;
    NameThenCapture(s, j, name, v);
  }

  // ---------------------------------------------------------------------------------------------
  // Matching at an index depends only on the text from that index on, except for the `^` alternative.

  lemma NameAtShift(a: string, b: string, q: nat, name: string)
    ensures NameAt(a + b, |a| + q, name) <==> NameAt(b, q, name)
  {
    var s := a + b;
    if q + |name| < |b| {
      assert s[|a| + q..|a| + q + |name|] == b[q..q + |name|];
      assert s[|a| + q + |name|] == b[q + |name|];
    }
  }

  lemma {:induction false} ValueEndShift(a: string, b: string, q: nat)
    requires q <= |b|
    ensures ValueEnd(a + b, |a| + q).Some? <==> ValueEnd(b, q).Some?
    ensures ValueEnd(b, q).Some? ==> ValueEnd(a + b, |a| + q).value == |a| + ValueEnd(b, q).value
    decreases |b| - q
  {
    var s := a + b;
    if q < |b| {
      assert s[|a| + q] == b[q];
      if b[q] != ';' && !IsLineTerminator(b[q]) {
        ValueEndShift(a, b, q + 1);
      }
    }
  }

  lemma CaptureShift(a: string, b: string, q: nat)
    requires q <= |b|
    ensures Capture(a + b, |a| + q) == Capture(b, q)
  {
    ValueEndShift(a, b, q);
    var e := ValueEnd(b, q);
    if e.Some? {
      assert (a + b)[|a| + q..|a| + e.value] == b[q..e.value];
    }
  }

  lemma {:induction false} GapEndShift(a: string, b: string, q: nat, gap: Gap)
    requires q <= |b|
    ensures GapEnd(a + b, |a| + q, gap) == |a| + GapEnd(b, q, gap)
    decreases |b| - q
  {
    if q < |b| {
      assert (a + b)[|a| + q] == b[q];
      if InGap(gap, b[q]) {
        GapEndShift(a, b, q + 1, gap);
      }
    }
  }

  lemma {:induction false} AfterSemicolonShift(a: string, b: string, p: nat, j: nat, name: string)
    requires p < j <= |b|
    ensures AfterSemicolon(a + b, |a| + p, |a| + j, name) == AfterSemicolon(b, p, j, name)
    decreases j
  {
    NameAtShift(a, b, j, name);
    if NameAt(b, j, name) {
      CaptureShift(a, b, j + |name| + 1);
    }
    if j > p + 1 {
      AfterSemicolonShift(a, b, p, j - 1, name);
    }
  }

  lemma SemicolonShift(a: string, b: string, q: nat, name: string, gap: Gap)
    requires 1 <= q < |b| && b[q] == ';'
    ensures MatchAt(a + b, |a| + q, name, gap) == MatchAt(b, q, name, gap)
  {
    assert (a + b)[|a| + q] == ';';
    GapEndShift(a, b, q + 1, gap);
    AfterSemicolonShift(a, b, q, GapEnd(b, q + 1, gap), name);
  }

  /** Away from the start, what matches at an index of `b` matches at the same place after any prefix. */
  lemma MatchAtShift(a: string, b: string, q: nat, name: string, gap: Gap)
    requires 1 <= q <= |b|
    ensures MatchAt(a + b, |a| + q, name, gap) == MatchAt(b, q, name, gap)
  {
    if q < |b| && b[q] == ';' {
      SemicolonShift(a, b, q, name, gap);
    } else if q < |b| {
      assert (a + b)[|a| + q] == b[q];
    }
  }

  // ---------------------------------------------------------------------------------------------
  // The engine's scan over entries that are known to miss.

  lemma {:induction false} FirstFromSkips(ms: seq<Option<string>>, i: nat, j: nat)
    requires i <= j <= |ms|
    requires forall k :: i <= k < j ==> ms[k].None?
    ensures FirstFrom(ms, i) == FirstFrom(ms, j)
    decreases j - i
  {
    if i < j {
      FirstFromSkips(ms, i + 1, j);
    }
  }

  /** Away from the start, the scan over `a + b` from an index in `b` on finds what the scan over `b` finds. */
  lemma {:induction false} ScanShift(a: string, b: string, name: string, gap: Gap, q: nat)
    requires 1 <= q <= |b| + 1
    ensures FirstFrom(MatchesFrom(a + b, name, gap), |a| + q) == FirstFrom(MatchesFrom(b, name, gap), q)
    decreases |b| + 1 - q
  {
    if q <= |b| {
      MatchAtShift(a, b, q, name, gap);
      ScanShift(a, b, name, gap, q + 1);
    }
  }
}
