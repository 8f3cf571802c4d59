/** The classifier's dictionaries, built in one pass over the training
    examples: a first-seen index for every feature and every label, the
    ordered label list, and for each label the features seen with it. */
module Vocabulary {
  import opened Seqs
  import opened JsObjects

  /** A training example: a feature set and a label set, both objects of weights. */
  datatype Example = Example(input: JsObject<real>, output: JsObject<real>)

  datatype Dictionaries = Dictionaries(
    features: JsObject<nat>,
    numFeatures: nat,
    labels: JsObject<nat>,
    numLabels: nat,
    labelList: seq<string>,
    labelFeatures: JsObject<seq<string>>)

  function Initial(): Dictionaries {
    Dictionaries(Empty(), 0, Empty(), 0, [], Empty())
  }

  // ---------------------------------------------------------------------------
  // buildDictionaries, step by step as the code runs

  /** One feature of the feature loop: a name not yet indexed takes the next index. */
  function AddFeature(d: Dictionaries, f: string): (r: Dictionaries)
    ensures r.labels == d.labels && r.numLabels == d.numLabels
    ensures r.labelList == d.labelList && r.labelFeatures == d.labelFeatures
  {
    if f in d.features.vals then d
    else d.(features := Put(d.features, f, d.numFeatures), numFeatures := d.numFeatures + 1)
  }

  function AddFeatures(d: Dictionaries, fs: seq<string>): (r: Dictionaries)
    ensures r.labels == d.labels && r.numLabels == d.numLabels
    ensures r.labelList == d.labelList && r.labelFeatures == d.labelFeatures
    decreases |fs|
  {
    if |fs| == 0 then d else AddFeatures(AddFeature(d, fs[0]), fs[1..])
  }

  /** One label of the label loop: a new label takes the next index and joins
      the label list, and the example's features `fs` join the label's feature list. */
  function AddLabel(d: Dictionaries, l: string, fs: seq<string>): (r: Dictionaries)
    ensures r.features == d.features && r.numFeatures == d.numFeatures
  {
    var d1 := if l in d.labels.vals then d
              else d.(labels := Put(d.labels, l, d.numLabels), labelList := d.labelList + [l],
                      numLabels := d.numLabels + 1);
    var lf := if l in d1.labelFeatures.vals then d1.labelFeatures else Put(d1.labelFeatures, l, []);
    d1.(labelFeatures := Put(lf, l, PushNew(lf.vals[l], fs)))
  }

  function AddLabels(d: Dictionaries, ls: seq<string>, fs: seq<string>): (r: Dictionaries)
    ensures r.features == d.features && r.numFeatures == d.numFeatures
    decreases |ls|
  {
    if |ls| == 0 then d else AddLabels(AddLabel(d, ls[0], fs), ls[1..], fs)
  }

  function AddExample(d: Dictionaries, ex: Example): Dictionaries {
    AddLabels(AddFeatures(d, Keys(ex.input)), Keys(ex.output), Keys(ex.input))
  }

  /** `buildDictionaries(corpus)`: the examples in order, from empty dictionaries. */
  function BuildDictionaries(corpus: seq<Example>): Dictionaries {
    if |corpus| == 0 then Initial()
    else AddExample(BuildDictionaries(corpus[..|corpus| - 1]), corpus[|corpus| - 1])
  }

  // ---------------------------------------------------------------------------
  // Reference definitions: what the pass has seen

  /** Every feature name of the corpus, with repetitions, in the order visited. */
  function FeatureSeq(corpus: seq<Example>): seq<string> {
    if |corpus| == 0 then []
    else FeatureSeq(corpus[..|corpus| - 1]) + Keys(corpus[|corpus| - 1].input)
  }

  /** Every label name of the corpus, with repetitions, in the order visited. */
  function LabelSeq(corpus: seq<Example>): seq<string> {
    if |corpus| == 0 then []
    else LabelSeq(corpus[..|corpus| - 1]) + Keys(corpus[|corpus| - 1].output)
  }

  /** The feature names of the examples labelled `l`, in the order visited. */
  function LabelFeatureSeq(corpus: seq<Example>, l: string): seq<string> {
    if |corpus| == 0 then []
    else
      var ex := corpus[|corpus| - 1];
      var before := LabelFeatureSeq(corpus[..|corpus| - 1], l);
      if l in ex.output.vals then before + Keys(ex.input) else before
  }

  // ---------------------------------------------------------------------------
  // Invariants of the pass

  /** `vals` gives every name of `seen` its position in `seen`'s first-seen order, and `n` counts them. */
  ghost predicate IndexInv(vals: map<string, nat>, n: nat, seen: seq<string>) {
    && n == |Dedup(seen)|
    && (forall f :: f in vals <==> f in seen)
    && (forall f :: f in vals ==> f in Dedup(seen) && vals[f] == IndexOf(Dedup(seen), f))
  }

  ghost predicate FeatureInv(d: Dictionaries, seen: seq<string>) {
    IndexInv(d.features.vals, d.numFeatures, seen)
  }

  ghost predicate LabelInv(d: Dictionaries, seen: seq<string>) {
    IndexInv(d.labels.vals, d.numLabels, seen) && d.labelList == Dedup(seen)
  }

  /** The label feature lists after the examples `done`, and after the labels
      `extra` of the current example have taken the features `fs`. */
  ghost predicate ListsInv(lf: map<string, seq<string>>, done: seq<Example>, extra: seq<string>, fs: seq<string>) {
    && (forall l :: l in lf <==> l in LabelSeq(done) || l in extra)
    && (forall l :: l in lf ==>
          lf[l] == if l in extra then Dedup(LabelFeatureSeq(done, l) + fs) else Dedup(LabelFeatureSeq(done, l)))
  }

  lemma IndexOfSnocNew<T>(s: seq<T>, x: T)
    requires x !in s
    ensures x in s + [x] && IndexOf(s + [x], x) == |s|
  {
    assert (s + [x])[|s|] == x;
  }

  /** The index step shared by the feature and the label loop: a name not yet
      indexed takes the next index. */
  lemma IndexStep(vals: map<string, nat>, n: nat, seen: seq<string>, f: string)
    requires IndexInv(vals, n, seen)
    ensures IndexInv(if f in vals then vals else vals[f := n], if f in vals then n else n + 1, seen + [f])
  {
    DedupMembers(seen);
    DedupSnoc(seen, f);
    if f !in vals {
      IndexFresh(vals, n, seen, f);
    }
  }

  lemma IndexFresh(vals: map<string, nat>, n: nat, seen: seq<string>, f: string)
    requires IndexInv(vals, n, seen) && f !in seen
    requires Dedup(seen + [f]) == Dedup(seen) + [f]
    ensures IndexInv(vals[f := n], n + 1, seen + [f])
  {
    var s := Dedup(seen);
    IndexOfSnocNew(s, f);
    forall g | g in vals
      ensures g in s + [f] && IndexOf(s + [f], g) == IndexOf(s, g)
    {
      IndexOfPrefix(s, [f], g);
    }
  }

  lemma {:induction false} AddFeaturesKeeps(d: Dictionaries, seen: seq<string>, fs: seq<string>)
    requires FeatureInv(d, seen)
    ensures FeatureInv(AddFeatures(d, fs), seen + fs)
    decreases |fs|
  {
    if |fs| == 0 {
      AppendNil(seen);
    } else {
      var f := fs[0];
      var d' := AddFeature(d, f);
      IndexStep(d.features.vals, d.numFeatures, seen, f);
      AddFeaturesKeeps(d', seen + [f], fs[1..]);
      ShiftHead(seen, fs);
    }
  }

  /** A label never seen has no features recorded. */
  lemma {:induction false} UnseenLabelNoFeatures(corpus: seq<Example>, l: string)
    requires l !in LabelSeq(corpus)
    ensures LabelFeatureSeq(corpus, l) == []
  {
    if |corpus| > 0 {
      UnseenLabelNoFeatures(corpus[..|corpus| - 1], l);
    }
  }

  /** One label: its index, and its feature list taking the example's features. */
  lemma AddLabelKeeps(d: Dictionaries, seen: seq<string>, done: seq<Example>, extra: seq<string>, fs: seq<string>, l: string)
    requires LabelInv(d, seen) && ListsInv(d.labelFeatures.vals, done, extra, fs)
    requires l !in extra
    ensures LabelInv(AddLabel(d, l, fs), seen + [l])
    ensures ListsInv(AddLabel(d, l, fs).labelFeatures.vals, done, extra + [l], fs)
  {
    AddLabelFields(d, l, fs);
    IndexStep(d.labels.vals, d.numLabels, seen, l);
    DedupMembers(seen);
    DedupSnoc(seen, l);
    ListsStep(d.labelFeatures.vals, done, extra, fs, l);
  }

  /** `AddLabel` field by field, on the underlying maps. */
  lemma AddLabelFields(d: Dictionaries, l: string, fs: seq<string>)
    ensures var r := AddLabel(d, l, fs);
            var m := d.labelFeatures.vals;
            var m' := if l in m then m else m[l := []];
            && r.labels.vals == (if l in d.labels.vals then d.labels.vals else d.labels.vals[l := d.numLabels])
            && r.numLabels == (if l in d.labels.vals then d.numLabels else d.numLabels + 1)
            && r.labelList == (if l in d.labels.vals then d.labelList else d.labelList + [l])
            && r.labelFeatures.vals == m'[l := PushNew(m'[l], fs)]
  {
  }

  /** A label's feature list takes the example's features it does not hold yet. */
  lemma ListsStep(m: map<string, seq<string>>, done: seq<Example>, extra: seq<string>, fs: seq<string>, l: string)
    requires ListsInv(m, done, extra, fs) && l !in extra
    ensures var m' := if l in m then m else m[l := []];
            ListsInv(m'[l := PushNew(m'[l], fs)], done, extra + [l], fs)
  {
    var m' := if l in m then m else m[l := []];
    if l !in m {
      UnseenLabelNoFeatures(done, l);
    }
    assert m'[l] == Dedup(LabelFeatureSeq(done, l));
    PushNewDedup(LabelFeatureSeq(done, l), fs);
    var m2 := m'[l := PushNew(m'[l], fs)];
    forall k
      ensures k in m2 <==> k in LabelSeq(done) || k in extra + [l]
    {
    }
    forall k | k in m2
      ensures m2[k] == if k in extra + [l] then Dedup(LabelFeatureSeq(done, k) + fs) else Dedup(LabelFeatureSeq(done, k))
    {
      if k != l {
        assert k in extra + [l] <==> k in extra;
      }
    }
  }

  /** One pass of the label loop. */
  lemma {:induction false} AddLabelsKeeps(d: Dictionaries, seen: seq<string>, done: seq<Example>, extra: seq<string>, ls: seq<string>, fs: seq<string>)
    requires LabelInv(d, seen) && ListsInv(d.labelFeatures.vals, done, extra, fs)
    requires Distinct(extra + ls)
    ensures LabelInv(AddLabels(d, ls, fs), seen + ls)
    ensures ListsInv(AddLabels(d, ls, fs).labelFeatures.vals, done, extra + ls, fs)
    decreases |ls|
  {
    if |ls| == 0 {
      AppendNil(seen);
      AppendNil(extra);
    } else {
      var l := ls[0];
      DistinctHead(extra, ls);
      var d2 := AddLabel(d, l, fs);
      AddLabelKeeps(d, seen, done, extra, fs, l);
      ShiftHead(seen, ls);
      ShiftHead(extra, ls);
      AddLabelsKeeps(d2, seen + [l], done, extra + [l], ls[1..], fs);
    }
  }

  lemma FeaturesSnoc(corpus: seq<Example>, ex: Example)
    ensures FeatureSeq(corpus + [ex]) == FeatureSeq(corpus) + Keys(ex.input)
  {
    assert (corpus + [ex])[..|corpus|] == corpus;
  }

  lemma LabelsSnoc(corpus: seq<Example>, ex: Example)
    ensures LabelSeq(corpus + [ex]) == LabelSeq(corpus) + Keys(ex.output)
  {
    assert (corpus + [ex])[..|corpus|] == corpus;
  }

  lemma LabelFeaturesSnoc(corpus: seq<Example>, ex: Example)
    ensures forall l :: LabelFeatureSeq(corpus + [ex], l) ==
              if l in ex.output.vals then LabelFeatureSeq(corpus, l) + Keys(ex.input) else LabelFeatureSeq(corpus, l)
  {
    assert (corpus + [ex])[..|corpus|] == corpus;
  }

  lemma ListsStart(lf: map<string, seq<string>>, done: seq<Example>, fs: seq<string>)
    requires ListsInv(lf, done, [], [])
    ensures ListsInv(lf, done, [], fs)
  {
  }

  lemma ListsFinish(lf: map<string, seq<string>>, done: seq<Example>, ex: Example)
    requires ListsInv(lf, done, Keys(ex.output), Keys(ex.input))
    ensures ListsInv(lf, done + [ex], [], [])
  {
    LabelsSnoc(done, ex);
    LabelFeaturesSnoc(done, ex);
  }

  lemma AddExampleKeeps(d: Dictionaries, done: seq<Example>, ex: Example)
    requires FeatureInv(d, FeatureSeq(done)) && LabelInv(d, LabelSeq(done))
    requires ListsInv(d.labelFeatures.vals, done, [], [])
    ensures FeatureInv(AddExample(d, ex), FeatureSeq(done + [ex]))
    ensures LabelInv(AddExample(d, ex), LabelSeq(done + [ex]))
    ensures ListsInv(AddExample(d, ex).labelFeatures.vals, done + [ex], [], [])
  {
    var fs := Keys(ex.input);
    var ls := Keys(ex.output);
    var d1 := AddFeatures(d, fs);
    FeaturesSnoc(done, ex);
    AddFeaturesKeeps(d, FeatureSeq(done), fs);
    LabelsSnoc(done, ex);
    ListsStart(d1.labelFeatures.vals, done, fs);
    NilAppend(ls);
    AddLabelsKeeps(d1, LabelSeq(done), done, [], ls, fs);
    ListsFinish(AddExample(d, ex).labelFeatures.vals, done, ex);
  }

  lemma {:induction false} BuildInvariants(corpus: seq<Example>)
    ensures FeatureInv(BuildDictionaries(corpus), FeatureSeq(corpus))
    ensures LabelInv(BuildDictionaries(corpus), LabelSeq(corpus))
    ensures ListsInv(BuildDictionaries(corpus).labelFeatures.vals, corpus, [], [])
  {
    if |corpus| > 0 {
      var p := corpus[..|corpus| - 1];
      var ex := corpus[|corpus| - 1];
      assert corpus == p + [ex];
      assert BuildDictionaries(corpus) == AddExample(BuildDictionaries(p), ex);
      BuildInvariants(p);
      AddExampleKeeps(BuildDictionaries(p), p, ex);
    }
  }

  // ---------------------------------------------------------------------------
  // What the dictionaries hold

  /** The example of `corpus` where a name of `FeatureSeq` comes from. */
  lemma {:induction false} FeatureSource(corpus: seq<Example>, f: string) returns (i: nat)
    requires f in FeatureSeq(corpus)
    ensures i < |corpus| && f in corpus[i].input.vals
  {
    var p := corpus[..|corpus| - 1];
    if f in FeatureSeq(p) {
      i := FeatureSource(p, f);
      assert p[i] == corpus[i];
    } else {
      i := |corpus| - 1;
    }
  }

  lemma {:induction false} FeatureSeqHas(corpus: seq<Example>, i: nat, f: string)
    requires i < |corpus| && f in corpus[i].input.vals
    ensures f in FeatureSeq(corpus)
  {
    var p := corpus[..|corpus| - 1];
    var ks := Keys(corpus[|corpus| - 1].input);
    assert FeatureSeq(corpus) == FeatureSeq(p) + ks;
    if i < |p| {
      assert p[i] == corpus[i];
      FeatureSeqHas(p, i, f);
    } else {
      assert i == |corpus| - 1;
      KeyListed(corpus[i].input, f);
    }
  }

  lemma {:induction false} LabelSource(corpus: seq<Example>, l: string) returns (i: nat)
    requires l in LabelSeq(corpus)
    ensures i < |corpus| && l in corpus[i].output.vals
  {
    var p := corpus[..|corpus| - 1];
    if l in LabelSeq(p) {
      i := LabelSource(p, l);
      assert p[i] == corpus[i];
    } else {
      i := |corpus| - 1;
    }
  }

  lemma {:induction false} LabelSeqHas(corpus: seq<Example>, i: nat, l: string)
    requires i < |corpus| && l in corpus[i].output.vals
    ensures l in LabelSeq(corpus)
  {
    var p := corpus[..|corpus| - 1];
    var ks := Keys(corpus[|corpus| - 1].output);
    assert LabelSeq(corpus) == LabelSeq(p) + ks;
    if i < |p| {
      assert p[i] == corpus[i];
      LabelSeqHas(p, i, l);
    } else {
      assert i == |corpus| - 1;
      KeyListed(corpus[i].output, l);
    }
  }

  lemma {:induction false} LabelFeatureSource(corpus: seq<Example>, l: string, f: string) returns (i: nat)
    requires f in LabelFeatureSeq(corpus, l)
    ensures i < |corpus| && l in corpus[i].output.vals && f in corpus[i].input.vals
  {
    var p := corpus[..|corpus| - 1];
    if f in LabelFeatureSeq(p, l) {
      i := LabelFeatureSource(p, l, f);
      assert p[i] == corpus[i];
    } else {
      i := |corpus| - 1;
    }
  }

  lemma {:induction false} LabelFeatureSeqHas(corpus: seq<Example>, i: nat, l: string, f: string)
    requires i < |corpus| && l in corpus[i].output.vals && f in corpus[i].input.vals
    ensures f in LabelFeatureSeq(corpus, l)
  {
    var p := corpus[..|corpus| - 1];
    if i < |p| {
      assert p[i] == corpus[i];
      LabelFeatureSeqHas(p, i, l, f);
    }
  }

  lemma FeatureSeqMembers(corpus: seq<Example>, f: string)
    ensures f in FeatureSeq(corpus) <==> exists i :: 0 <= i < |corpus| && f in corpus[i].input.vals
  {
    if f in FeatureSeq(corpus) {
      var i := FeatureSource(corpus, f);
    }
    if exists i :: 0 <= i < |corpus| && f in corpus[i].input.vals {
      var i :| 0 <= i < |corpus| && f in corpus[i].input.vals;
      FeatureSeqHas(corpus, i, f);
    }
  }

  lemma LabelSeqMembers(corpus: seq<Example>, l: string)
    ensures l in LabelSeq(corpus) <==> exists i :: 0 <= i < |corpus| && l in corpus[i].output.vals
  {
    if l in LabelSeq(corpus) {
      var i := LabelSource(corpus, l);
    }
    if exists i :: 0 <= i < |corpus| && l in corpus[i].output.vals {
      var i :| 0 <= i < |corpus| && l in corpus[i].output.vals;
      LabelSeqHas(corpus, i, l);
    }
  }

  lemma LabelFeatureSeqMembers(corpus: seq<Example>, l: string, f: string)
    ensures f in LabelFeatureSeq(corpus, l) <==>
              exists i :: 0 <= i < |corpus| && l in corpus[i].output.vals && f in corpus[i].input.vals
  {
    if f in LabelFeatureSeq(corpus, l) {
      var i := LabelFeatureSource(corpus, l, f);
    }
    if exists i :: 0 <= i < |corpus| && l in corpus[i].output.vals && f in corpus[i].input.vals {
      var i :| 0 <= i < |corpus| && l in corpus[i].output.vals && f in corpus[i].input.vals;
      LabelFeatureSeqHas(corpus, i, l, f);
    }
  }

  /** `features` indexes exactly the feature names of the corpus, each by a
      distinct number below `numFeatures`, which counts the distinct names. */
  lemma FeatureIndex(corpus: seq<Example>) returns (d: Dictionaries)
    ensures d == BuildDictionaries(corpus)
    ensures d.numFeatures == |Dedup(FeatureSeq(corpus))|
    ensures forall f :: f in d.features.vals <==> exists i :: 0 <= i < |corpus| && f in corpus[i].input.vals
    ensures forall f :: f in d.features.vals ==> d.features.vals[f] < d.numFeatures
    ensures forall f, g :: f in d.features.vals && g in d.features.vals && f != g ==>
              d.features.vals[f] != d.features.vals[g]
  {
    d := BuildDictionaries(corpus);
    BuildInvariants(corpus);
    forall f ensures f in d.features.vals <==> exists i :: 0 <= i < |corpus| && f in corpus[i].input.vals {
      FeatureSeqMembers(corpus, f);
    }
  }

  /** Feature indices follow the order in which the names are first seen. */
  lemma FeatureOrder(corpus: seq<Example>) returns (d: Dictionaries)
    ensures d == BuildDictionaries(corpus)
    ensures forall f :: f in d.features.vals <==> f in FeatureSeq(corpus)
    ensures forall f, g :: f in d.features.vals && g in d.features.vals ==>
              (d.features.vals[f] < d.features.vals[g] <==> IndexOf(FeatureSeq(corpus), f) < IndexOf(FeatureSeq(corpus), g))
  {
    d := BuildDictionaries(corpus);
    var s := FeatureSeq(corpus);
    BuildInvariants(corpus);
    forall f, g | f in d.features.vals && g in d.features.vals
      ensures d.features.vals[f] < d.features.vals[g] <==> IndexOf(s, f) < IndexOf(s, g)
    {
      DedupFirstSeenOrder(s, f, g);
    }
  }

  /** `labelList` holds every label of the corpus once, in first-seen order,
      and `numLabels` counts them. */
  lemma LabelList(corpus: seq<Example>) returns (d: Dictionaries)
    ensures d == BuildDictionaries(corpus)
    ensures d.labelList == Dedup(LabelSeq(corpus)) && Distinct(d.labelList)
    ensures d.numLabels == |d.labelList|
    ensures forall l :: l in d.labelList <==> exists i :: 0 <= i < |corpus| && l in corpus[i].output.vals
  {
    d := BuildDictionaries(corpus);
    BuildInvariants(corpus);
    DedupMembers(LabelSeq(corpus));
    DedupDistinct(LabelSeq(corpus));
    forall l ensures l in d.labelList <==> exists i :: 0 <= i < |corpus| && l in corpus[i].output.vals {
      LabelSeqMembers(corpus, l);
    }
  }

  /** `labels` and `labelList` are inverse to each other. */
  lemma LabelInverse(corpus: seq<Example>) returns (d: Dictionaries)
    ensures d == BuildDictionaries(corpus)
    ensures d.numLabels == |d.labelList|
    ensures forall l :: l in d.labels.vals <==> l in d.labelList
    ensures forall l :: l in d.labels.vals ==> d.labels.vals[l] < d.numLabels && d.labelList[d.labels.vals[l]] == l
    ensures forall i :: 0 <= i < |d.labelList| ==> d.labelList[i] in d.labels.vals && d.labels.vals[d.labelList[i]] == i
  {
    d := BuildDictionaries(corpus);
    BuildInvariants(corpus);
    DedupMembers(LabelSeq(corpus));
    DedupDistinct(LabelSeq(corpus));
    forall i | 0 <= i < |d.labelList|
      ensures d.labelList[i] in d.labels.vals && d.labels.vals[d.labelList[i]] == i
    {
      IndexOfDistinct(d.labelList, i);
    }
  }

  /** A label has a feature list exactly when it is indexed, and the list
      holds the features of that label's examples in first-seen order. */
  lemma LabelFeatureKeys(corpus: seq<Example>) returns (d: Dictionaries)
    ensures d == BuildDictionaries(corpus)
    ensures forall l :: l in d.labelFeatures.vals <==> l in d.labels.vals
    ensures forall l :: l in d.labelFeatures.vals ==> d.labelFeatures.vals[l] == Dedup(LabelFeatureSeq(corpus, l))
  {
    d := BuildDictionaries(corpus);
    BuildInvariants(corpus);
  }

  /** Each label's feature list holds, once each, exactly the features of the
      examples carrying that label. */
  lemma LabelFeatureContents(corpus: seq<Example>) returns (d: Dictionaries)
    ensures d == BuildDictionaries(corpus)
    ensures forall l :: l in d.labelFeatures.vals ==> Distinct(d.labelFeatures.vals[l])
    ensures forall l, f :: l in d.labelFeatures.vals ==>
              (f in d.labelFeatures.vals[l] <==>
                 exists i :: 0 <= i < |corpus| && l in corpus[i].output.vals && f in corpus[i].input.vals)
  {
    d := LabelFeatureKeys(corpus);
    forall l | l in d.labelFeatures.vals
      ensures Distinct(d.labelFeatures.vals[l])
      ensures forall f :: f in d.labelFeatures.vals[l] <==>
                exists i :: 0 <= i < |corpus| && l in corpus[i].output.vals && f in corpus[i].input.vals
    {
      FeaturesOfLabel(corpus, l, d.labelFeatures.vals[l]);
    }
  }

  lemma FeaturesOfLabel(corpus: seq<Example>, l: string, fs: seq<string>)
    requires fs == Dedup(LabelFeatureSeq(corpus, l))
    ensures Distinct(fs)
    ensures forall f :: f in fs <==>
              exists i :: 0 <= i < |corpus| && l in corpus[i].output.vals && f in corpus[i].input.vals
  {
    DedupDistinct(LabelFeatureSeq(corpus, l));
    DedupMembers(LabelFeatureSeq(corpus, l));
    forall f
      ensures f in fs <==> exists i :: 0 <= i < |corpus| && l in corpus[i].output.vals && f in corpus[i].input.vals
    {
      LabelFeatureSeqMembers(corpus, l, f);
    }
  }

  /** A feature of any example is indexed. */
  lemma FeatureKnown(corpus: seq<Example>, i: nat, f: string)
    requires i < |corpus| && f in corpus[i].input.vals
    ensures f in BuildDictionaries(corpus).features.vals
  {
    BuildInvariants(corpus);
    FeatureSeqHas(corpus, i, f);
  }

  /** A label of any example is indexed and listed. */
  lemma LabelKnown(corpus: seq<Example>, i: nat, l: string)
    requires i < |corpus| && l in corpus[i].output.vals
    ensures l in BuildDictionaries(corpus).labels.vals
    ensures l in BuildDictionaries(corpus).labelList
  {
    BuildInvariants(corpus);
    LabelSeqHas(corpus, i, l);
    DedupMembers(LabelSeq(corpus));
  }

  /** A feature of an example carrying label `l` is in `l`'s feature list. */
  lemma LabelFeatureKnown(corpus: seq<Example>, i: nat, l: string, f: string)
    requires i < |corpus| && l in corpus[i].output.vals && f in corpus[i].input.vals
    ensures l in BuildDictionaries(corpus).labelFeatures.vals
    ensures f in BuildDictionaries(corpus).labelFeatures.vals[l]
  {
    var d := LabelFeatureKeys(corpus);
    LabelKnown(corpus, i, l);
    LabelFeatureSeqHas(corpus, i, l, f);
    DedupMembers(LabelFeatureSeq(corpus, l));
  }

  /** A feature listed for a label comes from an example with that label. */
  lemma LabelFeatureFrom(corpus: seq<Example>, l: string, f: string) returns (i: nat)
    requires l in BuildDictionaries(corpus).labelFeatures.vals
    requires f in BuildDictionaries(corpus).labelFeatures.vals[l]
    ensures i < |corpus| && l in corpus[i].output.vals && f in corpus[i].input.vals
  {
    var d := LabelFeatureKeys(corpus);
    DedupMembers(LabelFeatureSeq(corpus, l));
    i := LabelFeatureSource(corpus, l, f);
  }
}
