/** The network's in-memory snapshot: what `toJSON` keeps of a trained
    network and how `fromJSON` rebuilds one from it. The snapshot's own
    forward pass is modelled too, so that the round trip can be stated as
    "the restored network answers every input as the saved one did". */
module Snapshot {
  import opened Options
  import opened Encoding

  /** One output node: a weight per input position, the momentum terms of
      training, and a bias. */
  datatype Perceptron = Perceptron(weights: seq<real>, changes: seq<real>, bias: real)

  /** The network object: its numeric hyper-parameters by name (`alpha`,
      `learningRate`, ...), the output count, the output buffer and the
      perceptrons. */
  datatype Network = Network(settings: map<string, real>, outputSize: nat, outputs: seq<real>,
                             perceptrons: seq<Perceptron>)

  /** A perceptron as saved: the momentum terms are dropped. */
  datatype SavedPerceptron = SavedPerceptron(weights: seq<real>, bias: real)

  /** The plain object `toJSON` returns. */
  datatype Saved = Saved(settings: map<string, real>, outputSize: nat, outputs: seq<real>,
                         perceptrons: seq<SavedPerceptron>)

  /** `toJSON(neural)`: every own field is copied, then `perceptrons` is
      replaced by the weights and bias of the first `outputSize` perceptrons.
      A network with fewer perceptrons than outputs makes the source read a
      field of `undefined`; that is `None` here. */
  function ToJson(n: Network): (r: Option<Saved>)
    ensures r.Some? <==> n.outputSize <= |n.perceptrons|
    ensures r.Some? ==> r.value.settings == n.settings && r.value.outputSize == n.outputSize
                        && r.value.outputs == n.outputs && |r.value.perceptrons| == n.outputSize
    ensures r.Some? ==> forall i :: 0 <= i < n.outputSize ==>
              r.value.perceptrons[i].weights == n.perceptrons[i].weights
              && r.value.perceptrons[i].bias == n.perceptrons[i].bias
  {
    if |n.perceptrons| < n.outputSize then None
    else
      Some(Saved(n.settings, n.outputSize, n.outputs,
                 seq(n.outputSize, i requires 0 <= i < n.outputSize =>
                   SavedPerceptron(n.perceptrons[i].weights, n.perceptrons[i].bias))))
  }

  /** `fromJSON(neural, obj)`: the snapshot's settings are copied over the
      network's own, the output buffer is zeroed, and one perceptron per
      output is rebuilt with the saved weights and bias and zero momentum.
      A snapshot with fewer perceptrons than outputs makes the source read a
      field of `undefined`; that is `None` here. */
  function FromJson(n0: Network, s: Saved): (r: Option<Network>)
    ensures r.Some? <==> s.outputSize <= |s.perceptrons|
    ensures r.Some? ==> r.value.settings.Keys == n0.settings.Keys + s.settings.Keys
    ensures r.Some? ==> forall k :: k in s.settings ==> r.value.settings[k] == s.settings[k]
    ensures r.Some? ==> forall k :: k in n0.settings && k !in s.settings ==> r.value.settings[k] == n0.settings[k]
    ensures r.Some? ==> r.value.outputSize == s.outputSize && |r.value.perceptrons| == s.outputSize
    ensures r.Some? ==> |r.value.outputs| == s.outputSize && forall i :: 0 <= i < s.outputSize ==> r.value.outputs[i] == 0.0
    ensures r.Some? ==> forall i :: 0 <= i < s.outputSize ==>
              r.value.perceptrons[i].weights == s.perceptrons[i].weights
              && r.value.perceptrons[i].bias == s.perceptrons[i].bias
              && |r.value.perceptrons[i].changes| == |s.perceptrons[i].weights|
              && forall j :: 0 <= j < |s.perceptrons[i].weights| ==> r.value.perceptrons[i].changes[j] == 0.0
  {
    if |s.perceptrons| < s.outputSize then None
    else
      Some(Network(n0.settings + s.settings, s.outputSize, Zeros(s.outputSize),
                   seq(s.outputSize, i requires 0 <= i < s.outputSize =>
                     Perceptron(s.perceptrons[i].weights, Zeros(|s.perceptrons[i].weights|), s.perceptrons[i].bias))))
  }

  // ---------------------------------------------------------------------------
  // the forward pass

  /** `input[y]` is truthy: present and non-zero. */
  predicate Fires(input: seq<real>, y: nat) {
    y < |input| && input[y] != 0.0
  }

  /** The weights of the first `k` positions whose input fires, summed. */
  function ActiveSum(weights: seq<real>, input: seq<real>, k: nat): real
    requires k <= |weights|
  {
    if k == 0 then 0.0
    else ActiveSum(weights, input, k - 1) + (if Fires(input, k - 1) then weights[k - 1] else 0.0)
  }

  /** The node's output: a negative sum is cut to 0, a non-negative one is
      scaled by `alpha`. */
  function Activate(alpha: real, sum: real): (r: real)
    ensures sum < 0.0 ==> r == 0.0
    ensures alpha >= 0.0 ==> r >= 0.0
  {
    NonNegativeProduct(alpha, sum);
    if sum < 0.0 then 0.0 else alpha * sum
  }

  lemma NonNegativeProduct(a: real, b: real)
    ensures a >= 0.0 && b >= 0.0 ==> a * b >= 0.0
  {
  }

  /** `run(input)` of the network: one output per node. */
  function Forward(n: Network, input: seq<real>): (r: seq<real>)
    requires n.outputSize <= |n.perceptrons| && "alpha" in n.settings
    ensures |r| == n.outputSize
    ensures n.settings["alpha"] >= 0.0 ==> forall i :: 0 <= i < |r| ==> r[i] >= 0.0
  {
    seq(n.outputSize, i requires 0 <= i < n.outputSize =>
      var p := n.perceptrons[i];
      Activate(n.settings["alpha"], p.bias + ActiveSum(p.weights, input, |p.weights|)))
  }

  /** The forward pass reads only the settings' `alpha`, the output count and
      each node's weights and bias. */
  lemma ForwardDependsOnWeights(n: Network, m: Network, input: seq<real>)
    requires n.outputSize <= |n.perceptrons| && "alpha" in n.settings
    requires m.outputSize <= |m.perceptrons| && "alpha" in m.settings
    requires m.settings["alpha"] == n.settings["alpha"] && m.outputSize == n.outputSize
    requires forall i :: 0 <= i < n.outputSize ==>
               m.perceptrons[i].weights == n.perceptrons[i].weights && m.perceptrons[i].bias == n.perceptrons[i].bias
    ensures Forward(m, input) == Forward(n, input)
  {
    forall i | 0 <= i < n.outputSize
      ensures Forward(m, input)[i] == Forward(n, input)[i]
    {
    }
  }

  // ---------------------------------------------------------------------------
  // round trips

  /** Saving a network and loading the snapshot into any network gives back
      the saved weights, biases, output count and settings, with zero
      momentum and a zero output buffer. */
  lemma SaveThenLoad(n0: Network, n: Network) returns (m: Network)
    requires n.outputSize <= |n.perceptrons|
    ensures ToJson(n).Some? && FromJson(n0, ToJson(n).value) == Some(m)
    ensures m.outputSize == n.outputSize && |m.perceptrons| == n.outputSize
    ensures m.settings == n0.settings + n.settings
    ensures |m.outputs| == n.outputSize && forall i :: 0 <= i < n.outputSize ==> m.outputs[i] == 0.0
    ensures forall i :: 0 <= i < n.outputSize ==>
              m.perceptrons[i].weights == n.perceptrons[i].weights && m.perceptrons[i].bias == n.perceptrons[i].bias
  {
    m := FromJson(n0, ToJson(n).value).value;
  }

  /** The restored network answers every input exactly as the saved one. */
  lemma RestoredRunsAlike(n0: Network, n: Network, input: seq<real>)
    requires n.outputSize <= |n.perceptrons| && "alpha" in n.settings
    ensures ToJson(n).Some? && FromJson(n0, ToJson(n).value).Some?
    ensures Forward(FromJson(n0, ToJson(n).value).value, input) == Forward(n, input)
  {
    var m := SaveThenLoad(n0, n);
    ForwardDependsOnWeights(n, m, input);
  }

  /** Loading a snapshot that holds one perceptron per output and saving the
      result reproduces the snapshot's perceptrons and output count; the
      output buffer comes back zeroed and the settings merged. */
  lemma LoadThenSave(n0: Network, s: Saved)
    requires |s.perceptrons| == s.outputSize
    ensures FromJson(n0, s).Some? && ToJson(FromJson(n0, s).value).Some?
    ensures ToJson(FromJson(n0, s).value).value
              == Saved(n0.settings + s.settings, s.outputSize, Zeros(s.outputSize), s.perceptrons)
  {
    var m := FromJson(n0, s).value;
    var t := ToJson(m).value;
    assert t.perceptrons == s.perceptrons;
  }
}
