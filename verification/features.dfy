/** Feature extraction from an utterance: emoji rewriting, contraction
    expansion and tokenising, stemming, and the feature set of the stems. */
module Features {
  import opened Chars
  import opened Seqs
  import opened JsObjects
  import opened Stemmer
  import opened Text
  import opened Encoding

  /** The text pipeline's parameters: the emoji rewriting applied before
      tokenising, and the stemmer's step-2 and step-3 suffix tables. */
  datatype Pipeline = Pipeline(unemojify: string -> string, step2: map<string, string>, step3: map<string, string>)

  predicate ValidPipeline(p: Pipeline) {
    ValidTable(p.step2) && ValidTable(p.step3)
  }

  /** The stemmed tokens of an utterance. */
  function StemmedTokens(p: Pipeline, utterance: string): (r: seq<string>)
    requires ValidPipeline(p)
    ensures |r| == |Tokenize(p.unemojify(utterance))|
    ensures forall i :: 0 <= i < |r| ==> IsLowerCase(r[i])
  {
    Stem(Tokens(Tokenize(p.unemojify(utterance))), p.step2, p.step3)
  }

  /** `extractFeatures(str)`. */
  function ExtractFeatures(p: Pipeline, utterance: string): JsObject<real>
    requires ValidPipeline(p)
  {
    ArrToFeatures(StemmedTokens(p, utterance))
  }

  /** The `i`-th stem is the stem of the `i`-th token. */
  lemma StemmedTokenAt(p: Pipeline, utterance: string, i: nat)
    requires ValidPipeline(p) && i < |Tokenize(p.unemojify(utterance))|
    ensures StemmedTokens(p, utterance)[i] == StemToken(Tokenize(p.unemojify(utterance))[i], p.step2, p.step3)
  {
  }

  /** The features of an utterance are exactly its stems, each once, in
      first-seen order, with weight 1, and all in lower case. */
  lemma ExtractFeaturesSpec(p: Pipeline, utterance: string)
    requires ValidPipeline(p)
    ensures ExtractFeatures(p, utterance).order == Dedup(StemmedTokens(p, utterance))
    ensures forall k :: k in ExtractFeatures(p, utterance).vals <==> k in StemmedTokens(p, utterance)
    ensures forall k :: k in ExtractFeatures(p, utterance).vals ==>
              ExtractFeatures(p, utterance).vals[k] == 1.0 && IsLowerCase(k)
  {
    LowerWordsFeatures(StemmedTokens(p, utterance));
  }

  /** The features of lower-case words are lower-case. */
  lemma LowerWordsFeatures(ws: seq<string>)
    requires forall i :: 0 <= i < |ws| ==> IsLowerCase(ws[i])
    ensures ArrToFeatures(ws).order == Dedup(ws)
    ensures forall k :: k in ArrToFeatures(ws).vals <==> k in ws
    ensures forall k :: k in ArrToFeatures(ws).vals ==> ArrToFeatures(ws).vals[k] == 1.0 && IsLowerCase(k)
  {
    ArrToFeaturesSpec(ws);
    forall k | k in ws
      ensures IsLowerCase(k)
    {
      var i :| 0 <= i < |ws| && ws[i] == k;
    }
  }
}
