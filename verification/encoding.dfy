/** Sparse-to-dense conversion between feature and label objects and the
    network's vectors. Vectors are modelled as sequences of reals; a write
    outside a typed array is ignored, as JavaScript does. */
module Encoding {
  import opened Options
  import opened Seqs
  import opened JsObjects

  /** The reserved feature that collects the weight of unknown features. */
  const NoneFeature := "nonefeature"

  // ---------------------------------------------------------------------------
  // arrToFeatures

  function PutOnes(o: JsObject<real>, words: seq<string>): JsObject<real>
    decreases |words|
  {
    if |words| == 0 then o else PutOnes(Put(o, words[0], 1.0), words[1..])
  }

  /** `arrToFeatures(words)`: each word becomes a key of weight 1. */
  function ArrToFeatures(words: seq<string>): JsObject<real> {
    PutOnes(Empty(), words)
  }

  lemma {:induction false} PutOnesSpec(o: JsObject<real>, words: seq<string>)
    ensures PutOnes(o, words).order == PushNew(o.order, words)
    ensures forall k :: k in PutOnes(o, words).vals <==> k in o.vals || k in words
    ensures forall k :: k in words ==> PutOnes(o, words).vals[k] == 1.0
    ensures forall k :: k in o.vals && k !in words ==> PutOnes(o, words).vals[k] == o.vals[k]
    decreases |words|
  {
    if |words| > 0 {
      var o' := Put(o, words[0], 1.0);
      PutOnesSpec(o', words[1..]);
      assert forall k :: k in words <==> k == words[0] || k in words[1..];
    }
  }

  /** The feature set of a word list holds each word once, in first-seen
      order, with weight 1, and nothing else. */
  lemma ArrToFeaturesSpec(words: seq<string>)
    ensures ArrToFeatures(words).order == Dedup(words)
    ensures forall k :: k in ArrToFeatures(words).vals <==> k in words
    ensures forall k :: k in ArrToFeatures(words).vals ==> ArrToFeatures(words).vals[k] == 1.0
  {
    PutOnesSpec(Empty(), words);
    PushNewDedup([], words);
    NilAppend(words);
  }

  // ---------------------------------------------------------------------------
  // Typed arrays

  function Zeros(n: nat): (r: seq<real>)
    ensures |r| == n && forall i :: 0 <= i < n ==> r[i] == 0.0
  {
    seq(n, _ => 0.0)
  }

  /** `v[i] = x` on a typed array: a write past the end is dropped. */
  function SetAt(v: seq<real>, i: nat, x: real): (r: seq<real>)
    ensures |r| == |v|
    ensures i < |v| ==> r[i] == x
    ensures forall j :: 0 <= j < |v| && j != i ==> r[j] == v[j]
  {
    if i < |v| then v[i := x] else v
  }

  /** `v[i] || 0` on a typed array: a read past the end gives 0. */
  function ReadAt(v: seq<real>, i: nat): real {
    if i < |v| then v[i] else 0.0
  }

  /** `features` numbers its names injectively, below `n`. */
  ghost predicate IsIndex(features: JsObject<nat>, n: nat) {
    && (forall f :: f in features.vals ==> features.vals[f] < n)
    && (forall f, g :: f in features.vals && g in features.vals && f != g ==> features.vals[f] != features.vals[g])
  }

  // ---------------------------------------------------------------------------
  // inputToVector

  /** The reduce of `inputToVector` over the keys still to visit. */
  function EncodeKeys(v: seq<real>, keys: seq<string>, input: JsObject<real>, features: JsObject<nat>,
                      none: Option<nat>, delta: real): (r: seq<real>)
    requires forall k :: k in keys ==> k in input.vals
    ensures |r| == |v|
    decreases |keys|
  {
    if |keys| == 0 then v
    else
      var k := keys[0];
      var v' := if k in features.vals then SetAt(v, features.vals[k], input.vals[k])
                else if none.Some? then SetAt(v, none.value, ReadAt(v, none.value) + delta)
                else v;
      EncodeKeys(v', keys[1..], input, features, none, delta)
  }

  /** The weight each unknown feature adds at the `nonefeature` index:
      a quarter of the reciprocal of the number of features. */
  function NoneDelta(input: JsObject<real>): real {
    if |Keys(input)| == 0 then 0.0 else 1.0 / (4 * |Keys(input)|) as real
  }

  /** `inputToVector(input, features, numFeatures)`. With no keys the delta
      is never used, so its JavaScript value (`Infinity`) does not matter. */
  function InputToVector(input: JsObject<real>, features: JsObject<nat>, numFeatures: nat): (r: seq<real>)
    ensures |r| == numFeatures
  {
    EncodeKeys(Zeros(numFeatures), Keys(input), input, features, Get(features, NoneFeature), NoneDelta(input))
  }

  /** The number of keys of `keys` that `features` does not know. */
  function UnknownCount(features: JsObject<nat>, keys: seq<string>): nat
    decreases |keys|
  {
    if |keys| == 0 then 0 else (if keys[0] in features.vals then 0 else 1) + UnknownCount(features, keys[1..])
  }

  /** An entry no known key is written to, and that unknown keys do not
      reach, keeps its value through the fold. */
  lemma {:induction false} EncodeUntouched(v: seq<real>, keys: seq<string>, input: JsObject<real>,
                                           features: JsObject<nat>, none: Option<nat>, delta: real, i: nat)
    requires forall k :: k in keys ==> k in input.vals
    requires i < |v|
    requires forall k :: k in keys && k in features.vals ==> features.vals[k] != i
    requires none.None? || none.value != i || UnknownCount(features, keys) == 0
    ensures EncodeKeys(v, keys, input, features, none, delta)[i] == v[i]
    decreases |keys|
  {
    if |keys| > 0 {
      var k := keys[0];
      var v' := if k in features.vals then SetAt(v, features.vals[k], input.vals[k])
                else if none.Some? then SetAt(v, none.value, ReadAt(v, none.value) + delta)
                else v;
      assert v'[i] == v[i];
      assert forall x :: x in keys[1..] ==> x in keys;
      EncodeUntouched(v', keys[1..], input, features, none, delta, i);
    }
  }

  /** A known key's weight ends up at its index, unless an unknown key later
      adds to the same entry. */
  lemma {:induction false} EncodeKnownAt(v: seq<real>, keys: seq<string>, input: JsObject<real>,
                                         features: JsObject<nat>, none: Option<nat>, delta: real, k: string)
    requires Distinct(keys)
    requires forall x :: x in keys ==> x in input.vals
    requires IsIndex(features, |v|)
    requires k in keys && k in features.vals
    requires none.Some? && none.value == features.vals[k] ==> UnknownCount(features, keys) == 0
    ensures EncodeKeys(v, keys, input, features, none, delta)[features.vals[k]] == input.vals[k]
    decreases |keys|
  {
    var x := keys[0];
    var rest := keys[1..];
    DistinctTail(keys);
    assert forall y :: y in rest ==> y in keys;
    var v' := if x in features.vals then SetAt(v, features.vals[x], input.vals[x])
              else if none.Some? then SetAt(v, none.value, ReadAt(v, none.value) + delta)
              else v;
    if x == k {
      EncodeUntouched(v', rest, input, features, none, delta, features.vals[k]);
    } else {
      assert k in rest;
      EncodeKnownAt(v', rest, input, features, none, delta, k);
    }
  }

  /** `delta` added `n` times. */
  function Repeat(n: nat, delta: real): real {
    if n == 0 then 0.0 else Repeat(n - 1, delta) + delta
  }

  lemma {:induction false} RepeatIsProduct(n: nat, delta: real)
    ensures Repeat(n, delta) == (n as real) * delta
  {
    if n > 0 {
      RepeatIsProduct(n - 1, delta);
    }
  }

  /** The `none` entry gains `delta` once per unknown key, when no known key
      is written there. */
  lemma {:induction false} EncodeNoneAt(v: seq<real>, keys: seq<string>, input: JsObject<real>,
                                        features: JsObject<nat>, j: nat, delta: real)
    requires forall x :: x in keys ==> x in input.vals
    requires j < |v|
    requires forall x :: x in keys && x in features.vals ==> features.vals[x] != j
    ensures EncodeKeys(v, keys, input, features, Some(j), delta)[j] == v[j] + Repeat(UnknownCount(features, keys), delta)
    decreases |keys|
  {
    if |keys| > 0 {
      var x := keys[0];
      var rest := keys[1..];
      assert forall y :: y in rest ==> y in keys;
      var v' := if x in features.vals then SetAt(v, features.vals[x], input.vals[x])
                else SetAt(v, j, ReadAt(v, j) + delta);
      EncodeNoneAt(v', rest, input, features, j, delta);
    }
  }

  lemma DistinctTail<T>(s: seq<T>)
    requires |s| > 0 && Distinct(s)
    ensures Distinct(s[1..]) && s[0] !in s[1..]
  {
  }

  /** `inputToVector` writes the weight of each known feature at its index.
      The one exception is `nonefeature` itself in a query that also holds
      unknown features, which share its slot: a delta written before it is
      overwritten, and one written after it is added. */
  lemma InputToVectorKnown(input: JsObject<real>, features: JsObject<nat>, n: nat)
    requires IsIndex(features, n)
    ensures forall f :: f in input.vals && f in features.vals
                        && (f != NoneFeature || UnknownCount(features, Keys(input)) == 0) ==>
              InputToVector(input, features, n)[features.vals[f]] == input.vals[f]
  {
    var keys := Keys(input);
    var none := Get(features, NoneFeature);
    forall f | f in input.vals && f in features.vals && (f != NoneFeature || UnknownCount(features, keys) == 0)
      ensures EncodeKeys(Zeros(n), keys, input, features, none, NoneDelta(input))[features.vals[f]] == input.vals[f]
    {
      EncodeKnownAt(Zeros(n), keys, input, features, none, NoneDelta(input), f);
    }
  }

  /** The `nonefeature` entry holds the delta once per unknown feature,
      that is, `UnknownCount * NoneDelta` (see `RepeatIsProduct`). */
  lemma InputToVectorNone(input: JsObject<real>, features: JsObject<nat>, n: nat)
    requires IsIndex(features, n)
    requires NoneFeature in features.vals && NoneFeature !in input.vals
    ensures InputToVector(input, features, n)[features.vals[NoneFeature]]
              == Repeat(UnknownCount(features, Keys(input)), NoneDelta(input))
  {
    var keys := Keys(input);
    var j := features.vals[NoneFeature];
    assert forall x :: x in keys && x in features.vals ==> features.vals[x] != j;
    EncodeNoneAt(Zeros(n), keys, input, features, j, NoneDelta(input));
  }

  /** Every entry that is neither a known feature's index nor the
      `nonefeature` index is 0. */
  lemma InputToVectorZeros(input: JsObject<real>, features: JsObject<nat>, n: nat)
    ensures forall i :: 0 <= i < n && (forall f :: f in input.vals && f in features.vals ==> features.vals[f] != i)
                        && (NoneFeature !in features.vals || features.vals[NoneFeature] != i) ==>
              InputToVector(input, features, n)[i] == 0.0
  {
    var keys := Keys(input);
    var none := Get(features, NoneFeature);
    forall i | 0 <= i < n && (forall f :: f in input.vals && f in features.vals ==> features.vals[f] != i)
               && (NoneFeature !in features.vals || features.vals[NoneFeature] != i)
      ensures EncodeKeys(Zeros(n), keys, input, features, none, NoneDelta(input))[i] == 0.0
    {
      EncodeUntouched(Zeros(n), keys, input, features, none, NoneDelta(input), i);
    }
  }

  // ---------------------------------------------------------------------------
  // outputToVector and vectorToOutput

  /** The reduce of `outputToVector`: a known label sets its entry to 1. */
  function MarkLabels(v: seq<real>, ls: seq<string>, labels: JsObject<nat>): (r: seq<real>)
    ensures |r| == |v|
    decreases |ls|
  {
    if |ls| == 0 then v
    else MarkLabels(if ls[0] in labels.vals then SetAt(v, labels.vals[ls[0]], 1.0) else v, ls[1..], labels)
  }

  /** `outputToVector(output, labels, numLabels)`. */
  function OutputToVector(output: JsObject<real>, labels: JsObject<nat>, numLabels: nat): (r: seq<real>)
    ensures |r| == numLabels
  {
    MarkLabels(Zeros(numLabels), Keys(output), labels)
  }

  lemma {:induction false} MarkAt(v: seq<real>, ls: seq<string>, labels: JsObject<nat>, i: nat)
    requires i < |v|
    ensures (exists l :: l in ls && l in labels.vals && labels.vals[l] == i) ==> MarkLabels(v, ls, labels)[i] == 1.0
    ensures !(exists l :: l in ls && l in labels.vals && labels.vals[l] == i) ==> MarkLabels(v, ls, labels)[i] == v[i]
    decreases |ls|
  {
    if |ls| > 0 {
      var l := ls[0];
      var v' := if l in labels.vals then SetAt(v, labels.vals[l], 1.0) else v;
      MarkAt(v', ls[1..], labels, i);
      assert forall x :: x in ls <==> x == l || x in ls[1..];
      if l in labels.vals && labels.vals[l] == i {
        if !(exists x :: x in ls[1..] && x in labels.vals && labels.vals[x] == i) {
          assert v'[i] == 1.0;
        }
      }
    }
  }

  /** The label vector has a 1 exactly at the indices of the known labels of
      `output`, and 0 everywhere else. */
  lemma OutputToVectorSpec(output: JsObject<real>, labels: JsObject<nat>, n: nat)
    ensures forall i :: 0 <= i < n ==>
              OutputToVector(output, labels, n)[i]
                == if exists l :: l in output.vals && l in labels.vals && labels.vals[l] == i then 1.0 else 0.0
  {
    forall i | 0 <= i < n
      ensures OutputToVector(output, labels, n)[i]
                == if exists l :: l in output.vals && l in labels.vals && labels.vals[l] == i then 1.0 else 0.0
    {
      MarkAt(Zeros(n), Keys(output), labels, i);
    }
  }

  /** `vectorToOutput(vector, labelList)`: label `labelList[i]` takes the
      score `vector[i]`. A vector shorter than the label list would give
      `undefined` scores, which the model does not represent. */
  function VectorToOutput(vector: seq<real>, labelList: seq<string>): (r: JsObject<real>)
    requires |labelList| <= |vector|
  {
    if |labelList| == 0 then Empty()
    else
      var i := |labelList| - 1;
      Put(VectorToOutput(vector, labelList[..i]), labelList[i], vector[i])
  }

  /** Over a duplicate-free label list, the decoded object lists the labels
      in order and gives each the score at its position. */
  lemma {:induction false} VectorToOutputSpec(vector: seq<real>, labelList: seq<string>)
    requires |labelList| <= |vector| && Distinct(labelList)
    ensures VectorToOutput(vector, labelList).order == labelList
    ensures forall l :: l in VectorToOutput(vector, labelList).vals <==> l in labelList
    ensures forall i :: 0 <= i < |labelList| ==> VectorToOutput(vector, labelList).vals[labelList[i]] == vector[i]
  {
    if |labelList| > 0 {
      var n := |labelList| - 1;
      var p := labelList[..n];
      var last := labelList[n];
      DistinctPrefix(labelList, n);
      VectorToOutputSpec(vector, p);
      var prev := VectorToOutput(vector, p);
      var r := VectorToOutput(vector, labelList);
      assert r == Put(prev, last, vector[n]);
      assert last !in p by { DistinctSnoc(labelList); }
      SnocPrefix(labelList);
      forall i | 0 <= i < |labelList|
        ensures r.vals[labelList[i]] == vector[i]
      {
        if i < n {
          assert labelList[i] == p[i];
          assert p[i] in p;
        }
      }
    }
  }

  /** One entry of the label vector, over label indices that invert the
      label list. */
  lemma LabelVectorAt(output: JsObject<real>, labels: JsObject<nat>, labelList: seq<string>, i: nat)
    requires Distinct(labelList)
    requires forall l :: l in labels.vals ==> l in labelList
    requires forall k :: 0 <= k < |labelList| ==> labelList[k] in labels.vals && labels.vals[labelList[k]] == k
    requires i < |labelList|
    ensures OutputToVector(output, labels, |labelList|)[i] == if labelList[i] in output.vals then 1.0 else 0.0
  {
    var l := labelList[i];
    MarkAt(Zeros(|labelList|), Keys(output), labels, i);
    if l in output.vals {
      assert l in Keys(output) && l in labels.vals && labels.vals[l] == i;
    } else {
      forall x | x in Keys(output) && x in labels.vals
        ensures labels.vals[x] != i
      {
        var k :| 0 <= k < |labelList| && labelList[k] == x;
        assert k != i;
      }
    }
  }

  /** Decoding the encoding of a label set: over label indices that invert
      the label list, every listed label comes back with 1 when it is in the
      set and 0 when it is not. */
  lemma LabelsRoundTrip(output: JsObject<real>, labels: JsObject<nat>, labelList: seq<string>)
    requires Distinct(labelList)
    requires forall l :: l in labels.vals ==> l in labelList
    requires forall i :: 0 <= i < |labelList| ==> labelList[i] in labels.vals && labels.vals[labelList[i]] == i
    ensures VectorToOutput(OutputToVector(output, labels, |labelList|), labelList).order == labelList
    ensures forall i :: 0 <= i < |labelList| ==>
              VectorToOutput(OutputToVector(output, labels, |labelList|), labelList).vals[labelList[i]]
                == if labelList[i] in output.vals then 1.0 else 0.0
  {
    var v := OutputToVector(output, labels, |labelList|);
    VectorToOutputSpec(v, labelList);
    forall i | 0 <= i < |labelList|
      ensures v[i] == if labelList[i] in output.vals then 1.0 else 0.0
    {
      LabelVectorAt(output, labels, labelList, i);
    }
  }
}
