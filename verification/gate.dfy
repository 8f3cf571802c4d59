/** The inference gate: a label may keep its network score only when the
    query shares a feature with the features seen for that label in training. */
module Gate {
  import opened Seqs
  import opened JsObjects

  /** `tokens[k]` is truthy: the key is present with a non-zero weight. */
  predicate Truthy(tokens: JsObject<real>, k: string) {
    k in tokens.vals && tokens.vals[k] != 0.0
  }

  /** Some feature of the list has a truthy weight in the query. */
  predicate Similar(tokens: JsObject<real>, features: seq<string>) {
    exists i :: 0 <= i < |features| && Truthy(tokens, features[i])
  }

  /** `someSimilar(tokensA, tokensB)`: scans `tokensB` and stops at the first
      feature whose weight in `tokensA` is truthy. */
  method SomeSimilar(tokensA: JsObject<real>, tokensB: seq<string>) returns (r: bool)
    ensures r <==> Similar(tokensA, tokensB)
    ensures r ==> exists i :: 0 <= i < |tokensB| && tokensB[i] in tokensA.vals && tokensA.vals[tokensB[i]] != 0.0
    ensures !r ==> forall i :: 0 <= i < |tokensB| ==> tokensB[i] !in tokensA.vals || tokensA.vals[tokensB[i]] == 0.0
  {
    var i := 0;
    while i < |tokensB|
      invariant 0 <= i <= |tokensB|
      invariant forall j :: 0 <= j < i ==> !Truthy(tokensA, tokensB[j])
    {
      if tokensB[i] in tokensA.vals && tokensA.vals[tokensB[i]] != 0.0 {
        return true;
      }
      i := i + 1;
    }
    return false;
  }

  /** The reduce of `getWhitelist`: each label in `ls` is set to whether the
      query is similar to its feature list. */
  function MarkSimilar(p: JsObject<bool>, ls: seq<string>, tokens: JsObject<real>,
                       labelFeatures: JsObject<seq<string>>): (r: JsObject<bool>)
    requires forall i :: 0 <= i < |ls| ==> ls[i] in labelFeatures.vals
    decreases |ls|
  {
    if |ls| == 0 then p
    else
      MarkSimilar(Put(p, ls[0], Similar(tokens, labelFeatures.vals[ls[0]])), ls[1..], tokens, labelFeatures)
  }

  /** `getWhitelist(tokens, labelFeatures)`: starts from `{ None: true }` and
      overwrites every label of `labelFeatures`, `None` included. */
  function GetWhitelist(tokens: JsObject<real>, labelFeatures: JsObject<seq<string>>): JsObject<bool> {
    MarkSimilar(Put(Empty(), "None", true), Keys(labelFeatures), tokens, labelFeatures)
  }

  lemma {:induction false} MarkSimilarSpec(p: JsObject<bool>, ls: seq<string>, tokens: JsObject<real>,
                                           labelFeatures: JsObject<seq<string>>)
    requires forall i :: 0 <= i < |ls| ==> ls[i] in labelFeatures.vals
    ensures forall l :: l in MarkSimilar(p, ls, tokens, labelFeatures).vals <==> l in p.vals || l in ls
    ensures forall l :: l in ls ==>
              MarkSimilar(p, ls, tokens, labelFeatures).vals[l] == Similar(tokens, labelFeatures.vals[l])
    ensures forall l :: l in p.vals && l !in ls ==> MarkSimilar(p, ls, tokens, labelFeatures).vals[l] == p.vals[l]
    decreases |ls|
  {
    if |ls| > 0 {
      var p' := Put(p, ls[0], Similar(tokens, labelFeatures.vals[ls[0]]));
      MarkSimilarSpec(p', ls[1..], tokens, labelFeatures);
      assert forall l :: l in ls <==> l == ls[0] || l in ls[1..];
    }
  }

  /** The whitelist holds `None` and every label of `labelFeatures`; a label
      passes exactly when some of its training features has a truthy weight
      in the query, and `None` passes unconditionally only when
      `labelFeatures` has no `None` entry. */
  lemma WhitelistSpec(tokens: JsObject<real>, labelFeatures: JsObject<seq<string>>)
    ensures forall l :: l in GetWhitelist(tokens, labelFeatures).vals <==> l == "None" || l in labelFeatures.vals
    ensures forall l :: l in labelFeatures.vals ==>
              (GetWhitelist(tokens, labelFeatures).vals[l] <==>
                 exists i :: 0 <= i < |labelFeatures.vals[l]| && Truthy(tokens, labelFeatures.vals[l][i]))
    ensures "None" !in labelFeatures.vals ==> GetWhitelist(tokens, labelFeatures).vals["None"]
  {
    MarkSimilarSpec(Put(Empty(), "None", true), Keys(labelFeatures), tokens, labelFeatures);
  }

  /** A label passes whenever one of its listed features is truthy in the query. */
  lemma PassesOnListed(tokens: JsObject<real>, labelFeatures: JsObject<seq<string>>, l: string, f: string)
    requires l in labelFeatures.vals && f in labelFeatures.vals[l] && Truthy(tokens, f)
    ensures Passes(GetWhitelist(tokens, labelFeatures), l)
  {
    WhitelistSpec(tokens, labelFeatures);
    var i :| 0 <= i < |labelFeatures.vals[l]| && labelFeatures.vals[l][i] == f;
  }

  /** A label that passes has a truthy listed feature. */
  lemma PassesFromListed(tokens: JsObject<real>, labelFeatures: JsObject<seq<string>>, l: string)
    returns (f: string)
    requires l in labelFeatures.vals && Passes(GetWhitelist(tokens, labelFeatures), l)
    ensures f in labelFeatures.vals[l] && Truthy(tokens, f)
  {
    WhitelistSpec(tokens, labelFeatures);
    var i :| 0 <= i < |labelFeatures.vals[l]| && Truthy(tokens, labelFeatures.vals[l][i]);
    f := labelFeatures.vals[l][i];
  }

  /** `whitelist[key]` is truthy: the label is present and set. */
  predicate Passes(whitelist: JsObject<bool>, l: string) {
    l in whitelist.vals && whitelist.vals[l]
  }
}
