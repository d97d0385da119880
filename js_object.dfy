/**
 * The plain object `{}` that getAll fills: a dictionary from string keys to string values that
 * remembers the order in which keys were created, with the enumeration order of Object.keys.
 */
module JsObject {

  datatype Dict = Dict(order: seq<string>, props: map<string, string>)

  /** Assigning to this key reaches the inherited `__proto__` setter, which ignores a string. */
  const ProtoKey: string := "__proto__"

  const Empty: Dict := Dict([], map[])

  /** Every property occurs once in the creation order, and `__proto__` is never an own property. */
  ghost predicate Valid(d: Dict) {
    ProtoKey !in d.props
    && forall k :: multiset(d.order)[k] == if k in d.props then 1 else 0
  }

  lemma EmptyValid()
    ensures Valid(Empty)
  {
  }

  /** `d[k] = v`: a new key is created at the end of the order, an existing one keeps its place. */
  function Put(d: Dict, k: string, v: string): Dict {
    if k == ProtoKey then d
    else if k in d.props then Dict(d.order, d.props[k := v])
    else Dict(d.order + [k], d.props[k := v])
  }

  /** An assignment keeps every property once in the order and never creates `__proto__`. */
  lemma PutValid(d: Dict, k: string, v: string)
    requires Valid(d)
    ensures Valid(Put(d, k, v))
  {
    var r := Put(d, k, v);
    if k != ProtoKey && k !in d.props {
      assert multiset(r.order) == multiset(d.order) + multiset{k};
    }
  }

  predicate IsDigit(c: char) { '0' <= c <= '9' }

  predicate AllDigits(k: string) {
    forall i :: 0 <= i < |k| ==> IsDigit(k[i])
  }

  /** The number a string of decimal digits denotes. */
  function DecimalValue(k: string): nat
    requires AllDigits(k)
  {
    if k == [] then 0
    else
      var last := k[|k| - 1];
      assert IsDigit(last);
      DecimalValue(k[..|k| - 1]) * 10 + (last as int - '0' as int)
  }

  /** An array index: the canonical decimal form of an integer from 0 to 2^32 - 2. */
  predicate IsArrayIndex(k: string) {
    |k| >= 1 && AllDigits(k) && (k[0] != '0' || k == "0") && DecimalValue(k) < 0xFFFF_FFFF
  }

  function IndexKeys(s: seq<string>): (r: seq<string>)
    ensures forall i :: 0 <= i < |r| ==> IsArrayIndex(r[i])
  {
    if s == [] then []
    else if IsArrayIndex(s[0]) then [s[0]] + IndexKeys(s[1..])
    else IndexKeys(s[1..])
  }

  function OtherKeys(s: seq<string>): (r: seq<string>)
    ensures forall i :: 0 <= i < |r| ==> !IsArrayIndex(r[i])
  {
    if s == [] then []
    else if IsArrayIndex(s[0]) then OtherKeys(s[1..])
    else [s[0]] + OtherKeys(s[1..])
  }

  lemma {:induction false} PartitionKeys(s: seq<string>)
    ensures multiset(IndexKeys(s)) + multiset(OtherKeys(s)) == multiset(s)
  {
    if s != [] {
      PartitionKeys(s[1..]);
      assert s == [s[0]] + s[1..];
    }
  }

  /** The number an array-index key denotes (0 for any other key). */
  function IndexValue(k: string): nat {
    if AllDigits(k) then DecimalValue(k) else 0
  }

  ghost predicate Ascending(s: seq<string>) {
    forall i, j :: 0 <= i < j < |s| ==> IndexValue(s[i]) <= IndexValue(s[j])
  }

  /** Inserts `k` before the first key of `sorted` that is not below it. */
  function InsertIndex(k: string, sorted: seq<string>): seq<string> {
    if sorted == [] then [k]
    else if IndexValue(k) <= IndexValue(sorted[0]) then [k] + sorted
    else [sorted[0]] + InsertIndex(k, sorted[1..])
  }

  /** Inserting keeps every key of `sorted` and adds `k` once. */
  lemma {:induction false} InsertIndexCount(k: string, sorted: seq<string>)
    ensures multiset(InsertIndex(k, sorted)) == multiset(sorted) + multiset{k}
  {
    if sorted != [] && IndexValue(k) > IndexValue(sorted[0]) {
      InsertIndexCount(k, sorted[1..]);
      assert sorted == [sorted[0]] + sorted[1..];
    }
  }

  /** Every key of the insertion into `rest` is `k` or a key of `rest`. */
  lemma InsertIndexFrom(k: string, rest: seq<string>, x: string)
    requires x in InsertIndex(k, rest)
    ensures x == k || x in rest
  {
    InsertIndexCount(k, rest);
    assert x in multiset(InsertIndex(k, rest));
  }

  /** Inserting into an ascending sequence keeps it ascending. */
  lemma {:induction false} InsertIndexAscending(k: string, sorted: seq<string>)
    requires Ascending(sorted)
    ensures Ascending(InsertIndex(k, sorted))
  {
    if sorted != [] && IndexValue(k) > IndexValue(sorted[0]) {
      var rest := sorted[1..];
      InsertIndexAscending(k, rest);
      var t := InsertIndex(k, rest);
      forall i | 0 <= i < |t|
        ensures IndexValue(sorted[0]) <= IndexValue(t[i])
      {
        InsertIndexFrom(k, rest, t[i]);
        if t[i] != k {
          var j :| 0 <= j < |rest| && rest[j] == t[i];
          assert sorted[j + 1] == t[i];
        }
      }
      assert InsertIndex(k, sorted) == [sorted[0]] + t;
    }
  }

  /** The array-index keys in ascending numeric order (insertion sort on their values). */
  function SortIndices(s: seq<string>): seq<string> {
    if s == [] then [] else InsertIndex(s[0], SortIndices(s[1..]))
  }

  /** The sort keeps every key and puts them in ascending numeric order. */
  lemma {:induction false} SortIndicesSpec(s: seq<string>)
    ensures multiset(SortIndices(s)) == multiset(s)
    ensures Ascending(SortIndices(s))
  {
    if s != [] {
      SortIndicesSpec(s[1..]);
      InsertIndexCount(s[0], SortIndices(s[1..]));
      InsertIndexAscending(s[0], SortIndices(s[1..]));
      assert s == [s[0]] + s[1..];
    }
  }

  /** Object.keys: the array-index keys in ascending numeric order, then the others in creation order. */
  function Keys(d: Dict): seq<string> {
    SortIndices(IndexKeys(d.order)) + OtherKeys(d.order)
  }

  /** Object.keys puts every array-index key, in ascending numeric order, before the other keys, which keep their creation order. */
  lemma KeysOrder(d: Dict)
    ensures var m := |IndexKeys(d.order)|;
      m <= |Keys(d)|
      && (forall i :: 0 <= i < m ==> IsArrayIndex(Keys(d)[i]))
      && Ascending(Keys(d)[..m])
      && Keys(d)[m..] == OtherKeys(d.order)
  {
    var ix := IndexKeys(d.order);
    var sorted := SortIndices(ix);
    SortIndicesSpec(ix);
    assert |sorted| == |multiset(sorted)| == |multiset(ix)| == |ix|;
    forall i | 0 <= i < |sorted|
      ensures IsArrayIndex(sorted[i])
    {
      assert sorted[i] in multiset(ix);
      var j :| 0 <= j < |ix| && ix[j] == sorted[i];
    }
    assert Keys(d)[..|ix|] == sorted;
  }

  /** The index keys and the other keys of a creation order with one more key at its end. */
  lemma {:induction false} KeysSnoc(s: seq<string>, k: string)
    ensures IndexKeys(s + [k]) == IndexKeys(s) + (if IsArrayIndex(k) then [k] else [])
    ensures OtherKeys(s + [k]) == OtherKeys(s) + (if IsArrayIndex(k) then [] else [k])
  {
    if s != [] {
      KeysSnoc(s[1..], k);
      assert (s + [k])[1..] == s[1..] + [k];
    }
  }

  /**
   * `d[k] = v` as Object.keys shows it: the keys are those of `d` plus `k` (unless it is
   * `__proto__`), each once; `k` holds `v` and every other property keeps its value.
   */
  lemma PutKeys(d: Dict, k: string, v: string)
    requires Valid(d)
    ensures forall x :: multiset(Keys(Put(d, k, v)))[x] == if x in d.props || (x == k && k != ProtoKey) then 1 else 0
    ensures k != ProtoKey ==> k in Put(d, k, v).props && Put(d, k, v).props[k] == v
    ensures forall x :: x in d.props && x != k ==> x in Put(d, k, v).props && Put(d, k, v).props[x] == d.props[x]
  {
    PutValid(d, k, v);
    KeysOnce(Put(d, k, v));
  }

  /** An existing key keeps its place in Object.keys; a new key that is no array index is listed last. */
  lemma PutKeysOrder(d: Dict, k: string, v: string)
    ensures k in d.props ==> Keys(Put(d, k, v)) == Keys(d)
    ensures k != ProtoKey && k !in d.props && !IsArrayIndex(k) ==> Keys(Put(d, k, v)) == Keys(d) + [k]
  {
    if k != ProtoKey && k !in d.props && !IsArrayIndex(k) {
      KeysSnoc(d.order, k);
      assert Put(d, k, v).order == d.order + [k];
      assert IndexKeys(d.order + [k]) == IndexKeys(d.order) + [] == IndexKeys(d.order);
      var ix := SortIndices(IndexKeys(d.order));
      assert Keys(Put(d, k, v)) == ix + (OtherKeys(d.order) + [k]);
      assert ix + (OtherKeys(d.order) + [k]) == ix + OtherKeys(d.order) + [k];
    }
  }

  /** Object.keys lists every own property exactly once. */
  lemma KeysOnce(d: Dict)
    requires Valid(d)
    ensures forall k :: multiset(Keys(d))[k] == if k in d.props then 1 else 0
  {
    PartitionKeys(d.order);
    SortIndicesSpec(IndexKeys(d.order));
  }
}
