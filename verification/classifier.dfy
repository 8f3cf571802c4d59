/** The intent classifier around its network: assembly of the training set,
    and the ranked classification of a query. The trained network is a
    parameter, a function from feature vector to score vector, and so is the
    feature extraction of an utterance (`Features.ExtractFeatures` in the
    classifier as written). */
module Classifier {
  import opened Options
  import opened Seqs
  import opened JsObjects
  import opened Vocabulary
  import opened Encoding
  import opened Gate
  import opened Ranking

  // ---------------------------------------------------------------------------
  // train: the data handed to the network

  /** One entry of the training corpus: an intent and its utterances. */
  datatype IntentData = IntentData(intent: string, utterances: seq<string>)

  function UtteranceExamples(extract: string -> JsObject<real>, item: IntentData): (r: seq<Example>)
    ensures |r| == |item.utterances|
  {
    seq(|item.utterances|, j requires 0 <= j < |item.utterances| =>
      Example(extract(item.utterances[j]), ArrToFeatures([item.intent])))
  }

  function CorpusExamples(extract: string -> JsObject<real>, corpus: seq<IntentData>): seq<Example>
  {
    if |corpus| == 0 then [] else UtteranceExamples(extract, corpus[0]) + CorpusExamples(extract, corpus[1..])
  }

  /** The example `train` appends: `{ nonefeature: 1 }` for `{ None: 1 }`. */
  function NoneExample(): Example {
    Example(Put(Empty(), NoneFeature, 1.0), Put(Empty(), "None", 1.0))
  }

  /** The data `train` assembles before building its dictionaries. */
  function TrainData(extract: string -> JsObject<real>, corpus: seq<IntentData>): seq<Example>
  {
    CorpusExamples(extract, corpus) + [NoneExample()]
  }

  /** The number of utterances of the first `i` intents. */
  function Offset(corpus: seq<IntentData>, i: nat): nat
    requires i <= |corpus|
  {
    if i == 0 then 0 else |corpus[0].utterances| + Offset(corpus[1..], i - 1)
  }

  lemma {:induction false} CorpusExampleAt(extract: string -> JsObject<real>, corpus: seq<IntentData>, i: nat, j: nat)
    requires i < |corpus| && j < |corpus[i].utterances|
    ensures |CorpusExamples(extract, corpus)| == Offset(corpus, |corpus|)
    ensures Offset(corpus, i) + j < Offset(corpus, |corpus|)
    ensures CorpusExamples(extract, corpus)[Offset(corpus, i) + j]
              == Example(extract(corpus[i].utterances[j]), ArrToFeatures([corpus[i].intent]))
  {
    var rest := corpus[1..];
    CorpusLength(extract, rest);
    if i > 0 {
      CorpusExampleAt(extract, rest, i - 1, j);
      assert rest[i - 1] == corpus[i];
    }
  }

  lemma {:induction false} CorpusLength(extract: string -> JsObject<real>, corpus: seq<IntentData>)
    ensures |CorpusExamples(extract, corpus)| == Offset(corpus, |corpus|)
  {
    if |corpus| > 0 {
      CorpusLength(extract, corpus[1..]);
    }
  }

  /** The training data holds one example per utterance followed by the
      `None` example. */
  lemma TrainDataShape(extract: string -> JsObject<real>, corpus: seq<IntentData>)
    ensures |TrainData(extract, corpus)| == Offset(corpus, |corpus|) + 1
    ensures TrainData(extract, corpus)[|TrainData(extract, corpus)| - 1] == NoneExample()
  {
    CorpusLength(extract, corpus);
    assert TrainData(extract, corpus)[|CorpusExamples(extract, corpus)|] == NoneExample();
  }

  /** The `j`-th utterance of the `i`-th intent gives the training example at
      position `Offset(corpus, i) + j`: its features, labelled with its intent. */
  lemma TrainExampleAt(extract: string -> JsObject<real>, corpus: seq<IntentData>, i: nat, j: nat)
    requires i < |corpus| && j < |corpus[i].utterances|
    ensures Offset(corpus, i) + j < |TrainData(extract, corpus)| - 1
    ensures TrainData(extract, corpus)[Offset(corpus, i) + j]
              == Example(extract(corpus[i].utterances[j]), ArrToFeatures([corpus[i].intent]))
  {
    CorpusExampleAt(extract, corpus, i, j);
    assert TrainData(extract, corpus)[Offset(corpus, i) + j] == CorpusExamples(extract, corpus)[Offset(corpus, i) + j];
  }

  /** The dictionaries built from the training data always know the
      `nonefeature` feature and the `None` label, list `nonefeature` among
      the features of `None`, and know every intent that has an utterance. */
  lemma TrainVocabulary(extract: string -> JsObject<real>, corpus: seq<IntentData>) returns (d: Dictionaries)
    ensures d == BuildDictionaries(TrainData(extract, corpus))
    ensures NoneFeature in d.features.vals
    ensures "None" in d.labels.vals && "None" in d.labelList
    ensures "None" in d.labelFeatures.vals && NoneFeature in d.labelFeatures.vals["None"]
    ensures forall i :: 0 <= i < |corpus| && |corpus[i].utterances| > 0 ==> corpus[i].intent in d.labels.vals
  {
    var data := TrainData(extract, corpus);
    d := BuildDictionaries(data);
    var last := |data| - 1;
    TrainNoneLast(extract, corpus);
    FeatureKnown(data, last, NoneFeature);
    LabelKnown(data, last, "None");
    LabelFeatureKnown(data, last, "None", NoneFeature);
    forall i | 0 <= i < |corpus| && |corpus[i].utterances| > 0
      ensures corpus[i].intent in d.labels.vals
    {
      IntentKnown(extract, corpus, i);
    }
  }

  lemma TrainNoneLast(extract: string -> JsObject<real>, corpus: seq<IntentData>)
    ensures |TrainData(extract, corpus)| > 0
    ensures NoneFeature in TrainData(extract, corpus)[|TrainData(extract, corpus)| - 1].input.vals
    ensures "None" in TrainData(extract, corpus)[|TrainData(extract, corpus)| - 1].output.vals
  {
  }

  lemma IntentKnown(extract: string -> JsObject<real>, corpus: seq<IntentData>, i: nat)
    requires i < |corpus| && |corpus[i].utterances| > 0
    ensures corpus[i].intent in BuildDictionaries(TrainData(extract, corpus)).labels.vals
  {
    var data := TrainData(extract, corpus);
    var k := Offset(corpus, i);
    TrainExampleAt(extract, corpus, i, 0);
    ArrToFeaturesSpec([corpus[i].intent]);
    assert corpus[i].intent in data[k].output.vals;
    LabelKnown(data, k, corpus[i].intent);
  }

  /** Every example built from the corpus carries the label set of one of
      its intents. */
  lemma {:induction false} CorpusLabel(extract: string -> JsObject<real>, corpus: seq<IntentData>, n: nat)
    returns (i: nat)
    requires n < |CorpusExamples(extract, corpus)|
    ensures i < |corpus| && CorpusExamples(extract, corpus)[n].output == ArrToFeatures([corpus[i].intent])
  {
    var head := UtteranceExamples(extract, corpus[0]);
    var rest := CorpusExamples(extract, corpus[1..]);
    assert CorpusExamples(extract, corpus) == head + rest;
    if n < |head| {
      i := 0;
      assert CorpusExamples(extract, corpus)[n] == head[n];
    } else {
      var i' := CorpusLabel(extract, corpus[1..], n - |head|);
      i := i' + 1;
      assert CorpusExamples(extract, corpus)[n] == rest[n - |head|];
    }
  }

  /** With no intent called `None`, only the appended example is labelled
      `None`. */
  lemma NoneExampleOnly(extract: string -> JsObject<real>, corpus: seq<IntentData>, n: nat)
    requires forall i :: 0 <= i < |corpus| ==> corpus[i].intent != "None"
    requires n < |TrainData(extract, corpus)| && "None" in TrainData(extract, corpus)[n].output.vals
    ensures TrainData(extract, corpus)[n] == NoneExample()
  {
    var data := TrainData(extract, corpus);
    if n < |CorpusExamples(extract, corpus)| {
      assert data[n] == CorpusExamples(extract, corpus)[n];
      var i := CorpusLabel(extract, corpus, n);
      ArrToFeaturesSpec([corpus[i].intent]);
      assert false;
    }
  }

  /** With no intent called `None`, `nonefeature` is the one feature listed
      for `None`. */
  lemma NoneFeatureOnly(extract: string -> JsObject<real>, corpus: seq<IntentData>, f: string)
    requires forall i :: 0 <= i < |corpus| ==> corpus[i].intent != "None"
    requires "None" in BuildDictionaries(TrainData(extract, corpus)).labelFeatures.vals
    requires f in BuildDictionaries(TrainData(extract, corpus)).labelFeatures.vals["None"]
    ensures f == NoneFeature
  {
    var n := LabelFeatureFrom(TrainData(extract, corpus), "None", f);
    NoneExampleOnly(extract, corpus, n);
  }

  /** The gate on `None`: `train` always lists `nonefeature` for `None`, so
      `getWhitelist` overwrites the initial `None: true` and `None` passes
      when the query has a truthy `nonefeature`; when no intent of the
      corpus is called `None`, it passes only then. */
  lemma NoneGate(extract: string -> JsObject<real>, corpus: seq<IntentData>, d: Dictionaries, q: JsObject<real>)
    requires d == BuildDictionaries(TrainData(extract, corpus))
    ensures Truthy(q, NoneFeature) ==> Passes(GetWhitelist(q, d.labelFeatures), "None")
    ensures (forall i :: 0 <= i < |corpus| ==> corpus[i].intent != "None") ==>
              (Passes(GetWhitelist(q, d.labelFeatures), "None") <==> Truthy(q, NoneFeature))
  {
    var d' := TrainVocabulary(extract, corpus);
    if Truthy(q, NoneFeature) {
      PassesOnListed(q, d.labelFeatures, "None", NoneFeature);
    }
    if Passes(GetWhitelist(q, d.labelFeatures), "None") && forall i :: 0 <= i < |corpus| ==> corpus[i].intent != "None" {
      var f := PassesFromListed(q, d.labelFeatures, "None");
      NoneFeatureOnly(extract, corpus, f);
    }
  }

  /** A training pair for the network. */
  datatype VectorPair = VectorPair(input: seq<real>, output: seq<real>)

  /** The vectors `train` hands to the network. */
  function TrainVectors(d: Dictionaries, data: seq<Example>): (r: seq<VectorPair>)
    ensures |r| == |data|
    ensures forall k :: 0 <= k < |r| ==> |r[k].input| == d.numFeatures && |r[k].output| == d.numLabels
  {
    seq(|data|, k requires 0 <= k < |data| =>
      VectorPair(InputToVector(data[k].input, d.features, d.numFeatures),
                 OutputToVector(data[k].output, d.labels, d.numLabels)))
  }

  /** The training target of the `j`-th utterance of intent `i`, at position
      `n` of the data, is one-hot at the index of that intent, under any label
      table that holds the intent (the built one does, by `TrainVocabulary`). */
  lemma TrainTarget(extract: string -> JsObject<real>, corpus: seq<IntentData>, labels: JsObject<nat>, numLabels: nat,
                    i: nat, j: nat)
    returns (n: nat)
    requires i < |corpus| && j < |corpus[i].utterances| && corpus[i].intent in labels.vals
    ensures n == Offset(corpus, i) + j && n < |TrainData(extract, corpus)| - 1
    ensures forall k :: 0 <= k < numLabels ==>
              OutputToVector(TrainData(extract, corpus)[n].output, labels, numLabels)[k]
                == if k == labels.vals[corpus[i].intent] then 1.0 else 0.0
  {
    n := Offset(corpus, i) + j;
    TrainExampleAt(extract, corpus, i, j);
    TargetOneHot(TrainData(extract, corpus)[n].output, labels, numLabels, corpus[i].intent);
  }

  /** The label vector of the label set `{ l: 1 }` of one known label has a
      1 exactly at `l`'s index. */
  lemma TargetOneHot(output: JsObject<real>, labels: JsObject<nat>, n: nat, l: string)
    requires output == ArrToFeatures([l]) && l in labels.vals
    ensures forall k :: 0 <= k < n ==> OutputToVector(output, labels, n)[k] == if k == labels.vals[l] then 1.0 else 0.0
  {
    ArrToFeaturesSpec([l]);
    OutputToVectorSpec(output, labels, n);
  }

  // ---------------------------------------------------------------------------
  // run

  /** The network's scores for a query, keyed by label. */
  function NetScores(net: seq<real> -> seq<real>, d: Dictionaries, input: JsObject<real>): JsObject<real>
    requires |net(InputToVector(input, d.features, d.numFeatures))| >= |d.labelList|
  {
    VectorToOutput(net(InputToVector(input, d.features, d.numFeatures)), d.labelList)
  }

  /** The classification list before rescaling: a label that fails the gate
      scores 0. */
  function GateScores(scores: JsObject<real>, whitelist: JsObject<bool>): (r: seq<Classification>)
    ensures |r| == |Keys(scores)|
  {
    var ks := Keys(scores);
    seq(|ks|, k requires 0 <= k < |ks| =>
      Classification(ks[k], if Passes(whitelist, ks[k]) then scores.vals[ks[k]] else 0.0))
  }

  function Gated(net: seq<real> -> seq<real>, d: Dictionaries, input: JsObject<real>): seq<Classification>
    requires |net(InputToVector(input, d.features, d.numFeatures))| >= |d.labelList|
  {
    GateScores(NetScores(net, d, input), GetWhitelist(input, d.labelFeatures))
  }

  /** The ranking `run` builds from the network's scores and the whitelist:
      gate, rescale, sort. */
  function Rank(scores: JsObject<real>, whitelist: JsObject<bool>): seq<Classification> {
    SortByScore(NormalizeNeural(GateScores(scores, whitelist)))
  }

  /** `run(input)`. */
  function Run(net: seq<real> -> seq<real>, d: Dictionaries, input: JsObject<real>): seq<Classification>
    requires |net(InputToVector(input, d.features, d.numFeatures))| >= |d.labelList|
  {
    Rank(NetScores(net, d, input), GetWhitelist(input, d.labelFeatures))
  }

  /** A label that fails the gate scores 0 before rescaling. */
  lemma GateRejects(scores: JsObject<real>, whitelist: JsObject<bool>, k: nat)
    requires k < |GateScores(scores, whitelist)| && !Passes(whitelist, GateScores(scores, whitelist)[k].intent)
    ensures GateScores(scores, whitelist)[k].score == 0.0
  {
  }

  /** The ranking has one entry per key of the scores. */
  lemma RankLength(scores: JsObject<real>, whitelist: JsObject<bool>)
    ensures |Rank(scores, whitelist)| == |scores.order|
  {
  }

  /** Every key of the scores is ranked. */
  lemma RankHas(scores: JsObject<real>, whitelist: JsObject<bool>, l: string) returns (i: nat)
    requires l in scores.vals
    ensures i < |Rank(scores, whitelist)| && Rank(scores, whitelist)[i].intent == l
  {
    var ks := Keys(scores);
    var k :| 0 <= k < |ks| && ks[k] == l;
    i := SortedHas(NormalizeNeural(GateScores(scores, whitelist)), k);
  }

  /** Every ranked entry is a key of the scores. */
  lemma RankFrom(scores: JsObject<real>, whitelist: JsObject<bool>, i: nat)
    requires i < |Rank(scores, whitelist)|
    ensures Rank(scores, whitelist)[i].intent in scores.vals
  {
    var k := SortedFrom(NormalizeNeural(GateScores(scores, whitelist)), i);
    assert GateScores(scores, whitelist)[k].intent == Keys(scores)[k];
  }

  /** A ranked entry that fails the gate has score 0. */
  lemma RankGate(scores: JsObject<real>, whitelist: JsObject<bool>, i: nat)
    requires i < |Rank(scores, whitelist)| && !Passes(whitelist, Rank(scores, whitelist)[i].intent)
    ensures Rank(scores, whitelist)[i].score == 0.0
  {
    var g := GateScores(scores, whitelist);
    var k := SortedFrom(NormalizeNeural(g), i);
    GateRejects(scores, whitelist, k);
    NormalizeKeepsZero(g, k);
  }

  /** The network's scores are keyed by exactly the labels of a duplicate-free
      label list. */
  lemma NetScoresKeys(net: seq<real> -> seq<real>, d: Dictionaries, input: JsObject<real>)
    requires Answers(net, d, input) && Distinct(d.labelList)
    ensures NetScores(net, d, input).order == d.labelList
    ensures forall l :: l in NetScores(net, d, input).vals <==> l in d.labelList
  {
    VectorToOutputSpec(net(InputToVector(input, d.features, d.numFeatures)), d.labelList);
  }

  /** Before rescaling, each label of a duplicate-free label list carries the
      network's score at the label's position when it passes the gate, and 0
      when it does not. */
  lemma GatedScores(net: seq<real> -> seq<real>, d: Dictionaries, input: JsObject<real>)
    requires Answers(net, d, input) && Distinct(d.labelList)
    ensures |Gated(net, d, input)| == |d.labelList|
    ensures forall k, i :: (0 <= k < |Gated(net, d, input)| && 0 <= i < |d.labelList| &&
                            Gated(net, d, input)[k].intent == d.labelList[i]) ==>
              Gated(net, d, input)[k].score
                == if Passes(GetWhitelist(input, d.labelFeatures), d.labelList[i])
                   then net(InputToVector(input, d.features, d.numFeatures))[i] else 0.0
  {
    var v := net(InputToVector(input, d.features, d.numFeatures));
    VectorToOutputSpec(v, d.labelList);
  }

  /** Every label the gate rejects ends with score 0. */
  lemma RunGate(net: seq<real> -> seq<real>, d: Dictionaries, input: JsObject<real>)
    requires Answers(net, d, input)
    ensures forall i :: (0 <= i < |Run(net, d, input)| &&
                         !Passes(GetWhitelist(input, d.labelFeatures), Run(net, d, input)[i].intent)) ==>
              Run(net, d, input)[i].score == 0.0
  {
    var scores := NetScores(net, d, input);
    var whitelist := GetWhitelist(input, d.labelFeatures);
    forall i | 0 <= i < |Rank(scores, whitelist)| && !Passes(whitelist, Rank(scores, whitelist)[i].intent)
      ensures Rank(scores, whitelist)[i].score == 0.0
    {
      RankGate(scores, whitelist, i);
    }
  }

  /** The result has one entry per label of a duplicate-free label list. */
  lemma RunLength(net: seq<real> -> seq<real>, d: Dictionaries, input: JsObject<real>)
    requires Answers(net, d, input) && Distinct(d.labelList)
    ensures |Run(net, d, input)| == |d.labelList|
    ensures |Gated(net, d, input)| == |d.labelList|
  {
    NetScoresKeys(net, d, input);
    RankLength(NetScores(net, d, input), GetWhitelist(input, d.labelFeatures));
  }

  /** Every label of a duplicate-free label list is ranked. */
  lemma RunHasLabel(net: seq<real> -> seq<real>, d: Dictionaries, input: JsObject<real>, l: string)
    returns (i: nat)
    requires Answers(net, d, input) && Distinct(d.labelList) && l in d.labelList
    ensures i < |Run(net, d, input)| && Run(net, d, input)[i].intent == l
  {
    NetScoresKeys(net, d, input);
    i := RankHas(NetScores(net, d, input), GetWhitelist(input, d.labelFeatures), l);
  }

  /** Every ranked entry is a label of a duplicate-free label list. */
  lemma RunEntryIsLabel(net: seq<real> -> seq<real>, d: Dictionaries, input: JsObject<real>, i: nat)
    requires Answers(net, d, input) && Distinct(d.labelList) && i < |Run(net, d, input)|
    ensures Run(net, d, input)[i].intent in d.labelList
  {
    NetScoresKeys(net, d, input);
    RankFrom(NetScores(net, d, input), GetWhitelist(input, d.labelFeatures), i);
  }

  /** The result ranks every label of a duplicate-free label list exactly
      once, by non-increasing score, keeping equal scores in key order. */
  lemma RunRanking(net: seq<real> -> seq<real>, d: Dictionaries, input: JsObject<real>)
    requires Answers(net, d, input) && Distinct(d.labelList)
    ensures |Run(net, d, input)| == |d.labelList|
    ensures forall l :: l in d.labelList <==> exists i :: 0 <= i < |Run(net, d, input)| && Run(net, d, input)[i].intent == l
    ensures multiset(Run(net, d, input)) == multiset(NormalizeNeural(Gated(net, d, input)))
    ensures NonIncreasing(Run(net, d, input))
    ensures forall s :: WithScore(Run(net, d, input), s) == WithScore(NormalizeNeural(Gated(net, d, input)), s)
  {
    RunLength(net, d, input);
    SortSpec(NormalizeNeural(Gated(net, d, input)));
    forall l
      ensures l in d.labelList <==> exists i :: 0 <= i < |Run(net, d, input)| && Run(net, d, input)[i].intent == l
    {
      if l in d.labelList {
        var i := RunHasLabel(net, d, input, l);
      }
      if exists i :: 0 <= i < |Run(net, d, input)| && Run(net, d, input)[i].intent == l {
        var i :| 0 <= i < |Run(net, d, input)| && Run(net, d, input)[i].intent == l;
        RunEntryIsLabel(net, d, input, i);
      }
    }
  }

  /** What `classify` accepts: an utterance, or a ready feature object. */
  datatype Query = Utterance(text: string) | Features(features: JsObject<real>)

  function QueryFeatures(extract: string -> JsObject<real>, q: Query): JsObject<real>
  {
    match q
    case Utterance(text) => extract(text)
    case Features(features) => features
  }

  /** The network yields at least one score per label for this query. */
  predicate Answers(net: seq<real> -> seq<real>, d: Dictionaries, input: JsObject<real>) {
    |net(InputToVector(input, d.features, d.numFeatures))| >= |d.labelList|
  }

  /** `classify(input)`. */
  function Classify(net: seq<real> -> seq<real>, d: Dictionaries, extract: string -> JsObject<real>, q: Query): seq<Classification>
    requires Answers(net, d, QueryFeatures(extract, q))
  {
    Run(net, d, QueryFeatures(extract, q))
  }

  /** The intent ranked first, if any: `classify(input)[0].intent`. The
      source reads past the end of an empty list; that case is `None`. */
  function Best(cs: seq<Classification>): Option<string> {
    if |cs| == 0 then None else Some(cs[0].intent)
  }

  /** `getBestIntent(input)`. */
  function BestIntent(net: seq<real> -> seq<real>, d: Dictionaries, extract: string -> JsObject<real>, q: Query): Option<string>
    requires Answers(net, d, QueryFeatures(extract, q))
  {
    Best(Classify(net, d, extract, q))
  }

  /** With at least one label there is a best intent: a label whose score
      no other entry exceeds. */
  lemma BestIntentSpec(net: seq<real> -> seq<real>, d: Dictionaries, extract: string -> JsObject<real>, q: Query)
    requires Answers(net, d, QueryFeatures(extract, q))
    requires Distinct(d.labelList) && |d.labelList| > 0
    ensures BestIntent(net, d, extract, q).Some?
    ensures BestIntent(net, d, extract, q).value in d.labelList
    ensures forall i :: 0 <= i < |Classify(net, d, extract, q)| ==>
              Classify(net, d, extract, q)[0].score >= Classify(net, d, extract, q)[i].score
  {
    var input := QueryFeatures(extract, q);
    assert Classify(net, d, extract, q) == Run(net, d, input);
    RunBest(net, d, input);
  }

  lemma RunBest(net: seq<real> -> seq<real>, d: Dictionaries, input: JsObject<real>)
    requires Answers(net, d, input) && Distinct(d.labelList) && |d.labelList| > 0
    ensures Best(Run(net, d, input)).Some? && Best(Run(net, d, input)).value in d.labelList
    ensures forall i :: 0 <= i < |Run(net, d, input)| ==> Run(net, d, input)[0].score >= Run(net, d, input)[i].score
  {
    RunLength(net, d, input);
    RunEntryIsLabel(net, d, input, 0);
    RunTop(net, d, input);
  }

  /** The first entry of the result scores at least as high as every other. */
  lemma RunTop(net: seq<real> -> seq<real>, d: Dictionaries, input: JsObject<real>)
    requires Answers(net, d, input) && |Run(net, d, input)| > 0
    ensures forall i :: 0 <= i < |Run(net, d, input)| ==> Run(net, d, input)[0].score >= Run(net, d, input)[i].score
  {
    SortSorted(NormalizeNeural(GateScores(NetScores(net, d, input), GetWhitelist(input, d.labelFeatures))));
  }

  // ---------------------------------------------------------------------------
  // evaluate

  /** The label `Object.keys(output)[0]` names, if any. */
  function FirstLabel(output: JsObject<real>): Option<string> {
    if |Keys(output)| == 0 then None else Some(Keys(output)[0])
  }

  predicate AnswersAll(net: seq<real> -> seq<real>, d: Dictionaries, data: seq<Example>) {
    forall k :: 0 <= k < |data| ==> Answers(net, d, data[k].input)
  }

  /** The example's best intent, from its feature object, is the first
      label of its output. */
  predicate Correct(net: seq<real> -> seq<real>, d: Dictionaries, ex: Example)
    requires Answers(net, d, ex.input)
  {
    var best := Best(Run(net, d, ex.input));
    best.Some? && FirstLabel(ex.output) == best
  }

  /** The number of correctly classified examples. */
  function CountCorrect(net: seq<real> -> seq<real>, d: Dictionaries, data: seq<Example>): (r: nat)
    requires AnswersAll(net, d, data)
    ensures r <= |data|
  {
    if |data| == 0 then 0
    else
      var last := |data| - 1;
      CountCorrect(net, d, data[..last]) + if Correct(net, d, data[last]) then 1 else 0
  }

  lemma CountStep(net: seq<real> -> seq<real>, d: Dictionaries, data: seq<Example>, k: nat)
    requires AnswersAll(net, d, data) && k < |data|
    ensures AnswersAll(net, d, data[..k]) && AnswersAll(net, d, data[..k + 1])
    ensures Answers(net, d, data[k].input)
    ensures CountCorrect(net, d, data[..k + 1])
              == CountCorrect(net, d, data[..k]) + if Correct(net, d, data[k]) then 1 else 0
  {
    assert data[..k + 1][..k] == data[..k];
  }

  /** `evaluate()` over the training data: every example is counted once,
      as good when its best intent is the first label of its output and as
      bad otherwise. */
  method Evaluate(net: seq<real> -> seq<real>, d: Dictionaries, data: seq<Example>)
    returns (good: nat, bad: nat)
    requires AnswersAll(net, d, data)
    ensures good + bad == |data|
    ensures good == CountCorrect(net, d, data)
  {
    good, bad := 0, 0;
    var k := 0;
    while k < |data|
      invariant 0 <= k <= |data|
      invariant good + bad == k
      invariant good == CountCorrect(net, d, data[..k])
    {
      CountStep(net, d, data, k);
      if Correct(net, d, data[k]) {
        good := good + 1;
      } else {
        bad := bad + 1;
      }
      k := k + 1;
    }
    assert data[..k] == data;
  }
}
