/** Plain JavaScript objects used as string-keyed dictionaries, with the key
    order `Object.keys` reports: array-index keys first in ascending numeric
    order, then every other key in insertion order. */
module JsObjects {
  import opened Chars
  import opened Seqs
  import opened Options

  /** An object's own properties: the keys in insertion order and their values. */
  datatype Obj<V> = Obj(order: seq<string>, vals: map<string, V>)

  type JsObject<V> = o: Obj<V> | Distinct(o.order) && (forall k :: k in o.vals <==> k in o.order)
    witness Obj([], map[])

  function Empty<V>(): (r: JsObject<V>)
    ensures r.order == [] && r.vals == map[]
  {
    Obj([], map[])
  }

  /** `o[k] = v`: a new key is appended to the insertion order, an existing
      key keeps its place and takes the new value. */
  function Put<V>(o: JsObject<V>, k: string, v: V): (r: JsObject<V>)
    ensures r.vals == o.vals[k := v]
    ensures k in o.vals ==> r.order == o.order
    ensures k !in o.vals ==> r.order == o.order + [k]
  {
    if k in o.vals then Obj(o.order, o.vals[k := v]) else Obj(o.order + [k], o.vals[k := v])
  }

  /** `o[k]`, with `undefined` as `None`. */
  function Get<V>(o: JsObject<V>, k: string): Option<V> {
    if k in o.vals then Some(o.vals[k]) else None
  }

  predicate AllDigits(s: string) {
    forall i :: 0 <= i < |s| ==> IsDigit(s[i])
  }

  /** The value of `s` read as a string of decimal digits. */
  function DecimalValue(s: string): int {
    if |s| == 0 then 0 else 10 * DecimalValue(s[..|s| - 1]) + (s[|s| - 1] as int - '0' as int)
  }

  /** An array index: the canonical decimal form of an integer in [0, 2^32 - 1). */
  predicate IsArrayIndex(k: string) {
    && |k| > 0
    && AllDigits(k)
    && (k[0] != '0' || |k| == 1)
    && DecimalValue(k) < 0xFFFF_FFFF
  }

  predicate IsNamedKey(k: string) {
    !IsArrayIndex(k)
  }

  predicate AscendingIndices(s: seq<string>) {
    && (forall i :: 0 <= i < |s| ==> IsArrayIndex(s[i]))
    && (forall i, j :: 0 <= i < j < |s| ==> DecimalValue(s[i]) <= DecimalValue(s[j]))
  }

  function InsertIndex(k: string, sorted: seq<string>): (r: seq<string>)
    ensures |r| == |sorted| + 1
    ensures multiset(r) == multiset(sorted) + multiset{k}
  {
    if |sorted| == 0 then [k]
    else if DecimalValue(k) <= DecimalValue(sorted[0]) then [k] + sorted
    else
      assert sorted == [sorted[0]] + sorted[1..];
      [sorted[0]] + InsertIndex(k, sorted[1..])
  }

  /** A lower bound of `k` and of every element of `sorted` bounds the result too. */
  lemma {:induction false} InsertIndexBound(k: string, sorted: seq<string>, b: int)
    requires b <= DecimalValue(k)
    requires forall i :: 0 <= i < |sorted| ==> b <= DecimalValue(sorted[i])
    ensures forall i :: 0 <= i < |InsertIndex(k, sorted)| ==> b <= DecimalValue(InsertIndex(k, sorted)[i])
  {
    if |sorted| > 0 && DecimalValue(k) > DecimalValue(sorted[0]) {
      InsertIndexBound(k, sorted[1..], b);
    }
  }

  lemma {:induction false} InsertIndexAscending(k: string, sorted: seq<string>)
    requires IsArrayIndex(k) && AscendingIndices(sorted)
    ensures AscendingIndices(InsertIndex(k, sorted))
  {
    if |sorted| > 0 && DecimalValue(k) > DecimalValue(sorted[0]) {
      var tail := sorted[1..];
      TailAscending(sorted);
      InsertIndexAscending(k, tail);
      InsertIndexBound(k, tail, DecimalValue(sorted[0]));
      ConsAscending(sorted[0], InsertIndex(k, tail));
    }
  }

  lemma TailAscending(s: seq<string>)
    requires |s| > 0 && AscendingIndices(s)
    ensures AscendingIndices(s[1..])
    ensures forall i :: 0 <= i < |s| - 1 ==> DecimalValue(s[0]) <= DecimalValue(s[1..][i])
  {
    assert forall i :: 0 <= i < |s| - 1 ==> s[1..][i] == s[i + 1];
  }

  lemma ConsAscending(x: string, s: seq<string>)
    requires IsArrayIndex(x) && AscendingIndices(s)
    requires forall i :: 0 <= i < |s| ==> DecimalValue(x) <= DecimalValue(s[i])
    ensures AscendingIndices([x] + s)
  {
    var r := [x] + s;
    assert forall i :: 1 <= i < |r| ==> r[i] == s[i - 1];
    forall i, j | 0 <= i < j < |r|
      ensures DecimalValue(r[i]) <= DecimalValue(r[j])
    {
      if i > 0 {
        assert DecimalValue(s[i - 1]) <= DecimalValue(s[j - 1]);
      }
    }
  }

  function SortIndices(ks: seq<string>): (r: seq<string>)
    ensures |r| == |ks|
    ensures multiset(r) == multiset(ks)
  {
    if |ks| == 0 then []
    else
      assert ks == [ks[0]] + ks[1..];
      InsertIndex(ks[0], SortIndices(ks[1..]))
  }

  lemma {:induction false} SortIndicesAscending(ks: seq<string>)
    requires forall i :: 0 <= i < |ks| ==> IsArrayIndex(ks[i])
    ensures AscendingIndices(SortIndices(ks))
  {
    if |ks| > 0 {
      SortIndicesAscending(ks[1..]);
      InsertIndexAscending(ks[0], SortIndices(ks[1..]));
    }
  }

  lemma DistinctByMultiset(a: seq<string>, b: seq<string>)
    requires multiset(a) == multiset(b) && Distinct(b)
    ensures Distinct(a)
  {
    forall i, j | 0 <= i < j < |a|
      ensures a[i] != a[j]
    {
      if a[i] == a[j] {
        assert multiset(a)[a[i]] >= 2 by {
          assert a == a[..i] + [a[i]] + a[i + 1..j] + [a[j]] + a[j + 1..];
        }
        MultiplicityOfDistinct(b, a[i]);
      }
    }
  }

  lemma MultiplicityOfDistinct(b: seq<string>, x: string)
    requires Distinct(b)
    ensures multiset(b)[x] <= 1
  {
    if |b| > 0 {
      assert b == [b[0]] + b[1..];
      MultiplicityOfDistinct(b[1..], x);
      if x == b[0] {
        assert x !in b[1..];
      }
    }
  }

  /** The key order of an object whose insertion order is `order`. */
  function KeyOrder(order: seq<string>): seq<string> {
    SortIndices(Filter(IsArrayIndex, order)) + Filter(IsNamedKey, order)
  }

  lemma KeyOrderMembers(order: seq<string>)
    requires Distinct(order)
    ensures Distinct(KeyOrder(order))
    ensures |KeyOrder(order)| == |order|
    ensures forall k :: k in KeyOrder(order) <==> k in order
  {
    var indices := Filter(IsArrayIndex, order);
    var named := Filter(IsNamedKey, order);
    FilterDistinct(IsArrayIndex, order);
    FilterDistinct(IsNamedKey, order);
    var sorted := SortIndices(indices);
    DistinctByMultiset(sorted, indices);
    assert forall k :: k in sorted <==> k in indices by {
      forall k ensures k in sorted <==> k in indices {
        assert k in sorted <==> k in multiset(sorted);
        assert k in indices <==> k in multiset(indices);
      }
    }
    FilterLength(order);
    DistinctAppend(sorted, named);
  }

  /** The array-index keys of `order`, in ascending numeric order. */
  lemma SortedIndexKeys(order: seq<string>)
    ensures AscendingIndices(SortIndices(Filter(IsArrayIndex, order)))
  {
    var indices := Filter(IsArrayIndex, order);
    assert forall i :: 0 <= i < |indices| ==> IsArrayIndex(indices[i]) by {
      forall i | 0 <= i < |indices| ensures IsArrayIndex(indices[i]) {
        assert indices[i] in indices;
      }
    }
    SortIndicesAscending(indices);
  }

  lemma NamedKeysOnly(order: seq<string>)
    ensures forall i :: 0 <= i < |Filter(IsNamedKey, order)| ==> IsNamedKey(Filter(IsNamedKey, order)[i])
  {
    var named := Filter(IsNamedKey, order);
    forall i | 0 <= i < |named| ensures IsNamedKey(named[i]) {
      assert named[i] in named;
    }
  }

  /** Ascending indices followed by named keys: every index precedes, in order,
      and the named keys are kept as they are. */
  lemma IndicesThenNamed(sorted: seq<string>, named: seq<string>)
    requires AscendingIndices(sorted)
    requires forall i :: 0 <= i < |named| ==> IsNamedKey(named[i])
    ensures forall i, j :: 0 <= i < j < |sorted + named| && IsArrayIndex((sorted + named)[j]) ==>
              IsArrayIndex((sorted + named)[i]) && DecimalValue((sorted + named)[i]) <= DecimalValue((sorted + named)[j])
    ensures Filter(IsNamedKey, sorted + named) == named
  {
    FilterAppend(IsNamedKey, sorted, named);
    FilterNone(IsNamedKey, sorted);
    FilterAll(IsNamedKey, named);
  }

  lemma KeyOrderRanks(order: seq<string>)
    ensures forall i, j :: 0 <= i < j < |KeyOrder(order)| && IsArrayIndex(KeyOrder(order)[j]) ==>
              IsArrayIndex(KeyOrder(order)[i]) && DecimalValue(KeyOrder(order)[i]) <= DecimalValue(KeyOrder(order)[j])
    ensures Filter(IsNamedKey, KeyOrder(order)) == Filter(IsNamedKey, order)
  {
    SortedIndexKeys(order);
    NamedKeysOnly(order);
    IndicesThenNamed(SortIndices(Filter(IsArrayIndex, order)), Filter(IsNamedKey, order));
  }

  /** `Object.keys(o)`: every own key once. */
  function Keys<V>(o: JsObject<V>): (r: seq<string>)
    ensures Distinct(r)
    ensures |r| == |o.order|
    ensures forall k :: k in r <==> k in o.vals
  {
    KeyOrderMembers(o.order);
    KeyOrder(o.order)
  }

  /** The order `Object.keys` reports: array indices first, ascending, then
      the other keys in insertion order. */
  lemma KeyListed<V>(o: JsObject<V>, k: string)
    requires k in o.vals
    ensures k in Keys(o)
  {
  }

  lemma KeysOrdered<V>(o: JsObject<V>)
    ensures forall i, j :: 0 <= i < j < |Keys(o)| && IsArrayIndex(Keys(o)[j]) ==>
              IsArrayIndex(Keys(o)[i]) && DecimalValue(Keys(o)[i]) <= DecimalValue(Keys(o)[j])
    ensures Filter(IsNamedKey, Keys(o)) == Filter(IsNamedKey, o.order)
  {
    KeyOrderRanks(o.order);
  }

  lemma FilterLength(s: seq<string>)
    ensures |Filter(IsArrayIndex, s)| + |Filter(IsNamedKey, s)| == |s|
  {
    if |s| > 0 {
      FilterLength(s[1..]);
    }
  }

  /** An object none of whose keys is an array index lists its keys in insertion order. */
  lemma KeysOfNamedObject<V>(o: JsObject<V>)
    requires forall i :: 0 <= i < |o.order| ==> IsNamedKey(o.order[i])
    ensures Keys(o) == o.order
  {
    KeysOrdered(o);
    FilterNone(IsArrayIndex, o.order);
    FilterAll(IsNamedKey, o.order);
  }
}
