/**
 * What the network computes (main.c:17-20, 131-173), over `real` as an
 * idealisation of `float`. The two weight matrices are kept the way C lays
 * them out in memory: `weights_ih[j][i]` is `weightsIH[j * 16 + i]` and
 * `weights_ho[j][i]` is `weightsHO[j * 2 + i]`.
 */
module NetworkSpec {
  import opened Topology

  // ---------------------------------------------------------------------------
  // Activation and normalisation helpers (main.c:17-20)
  // ---------------------------------------------------------------------------

  /** ReLU: the larger of `x` and 0. */
  function Relu(x: real): (r: real)
    ensures r >= 0.0 && r >= x
    ensures r == x || r == 0.0
  {
    if x > 0.0 then x else 0.0
  }

  /** The ReLU derivative, taken on the activation value. */
  function DRelu(y: real): (d: real)
    ensures d == 0.0 || d == 1.0
    ensures d == 1.0 <==> y > 0.0
  {
    if y > 0.0 then 1.0 else 0.0
  }

  /** `zscore`; the real division is undefined where the float one yields inf or NaN. */
  function ZScore(x: real, mean: real, std: real): real
    requires std + STD_EPSILON != 0.0
  {
    (x - mean) / (std + STD_EPSILON)
  }

  function InvZScore(z: real, mean: real, std: real): real {
    z * std + mean
  }

  /**
   * `inv_zscore` undoes `zscore` only up to the epsilon guard: the value comes
   * back pulled towards the mean by exactly `(x - mean) * eps / (std + eps)`.
   */
  lemma ZScoreRoundTrip(x: real, mean: real, std: real)
    requires std + STD_EPSILON != 0.0
    ensures InvZScore(ZScore(x, mean, std), mean, std) == x - (x - mean) * STD_EPSILON / (std + STD_EPSILON)
  {
    var d := std + STD_EPSILON;
    var z := (x - mean) / d;
    assert z * d == x - mean;
    calc {
      z * std + mean;
      z * (d - STD_EPSILON) + mean;
      z * d - z * STD_EPSILON + mean;
      x - (x - mean) * STD_EPSILON / d;
    }
  }

  // ---------------------------------------------------------------------------
  // The network's values
  // ---------------------------------------------------------------------------

  /** The trainable parameters of a `NeuralNetwork`. */
  datatype Params = Params(weightsIH: seq<real>, weightsHO: seq<real>, biasH: seq<real>, biasO: seq<real>)
  {
    predicate Valid() {
      && |weightsIH| == INPUT_NODES * HIDDEN_NODES
      && |weightsHO| == HIDDEN_NODES * OUTPUT_NODES
      && |biasH| == HIDDEN_NODES
      && |biasO| == OUTPUT_NODES
    }
  }

  /** The forward-pass buffers `hidden` and `output`. */
  datatype Activations = Activations(hidden: seq<real>, output: seq<real>)

  // ---------------------------------------------------------------------------
  // Forward pass (main.c:131-142)
  // ---------------------------------------------------------------------------

  /** `bias + x[0] * w[0][i] + ... + x[n-1] * w[n-1][i]`, summed left to right, 16 columns. */
  function HiddenSum(bias: real, x: seq<real>, w: seq<real>, i: nat, n: nat): real
    requires n <= |x| && i < HIDDEN_NODES && n * HIDDEN_NODES <= |w|
  {
    if n == 0 then bias
    else HiddenSum(bias, x, w, i, n - 1) + x[n - 1] * w[(n - 1) * HIDDEN_NODES + i]
  }

  /** The same sum over the 2-column matrix `weights_ho`. */
  function OutputSum(bias: real, h: seq<real>, w: seq<real>, i: nat, n: nat): real
    requires n <= |h| && i < OUTPUT_NODES && n * OUTPUT_NODES <= |w|
  {
    if n == 0 then bias
    else OutputSum(bias, h, w, i, n - 1) + h[n - 1] * w[(n - 1) * OUTPUT_NODES + i]
  }

  function HiddenLayer(x: seq<real>, p: Params): (h: seq<real>)
    requires |x| == INPUT_NODES && p.Valid()
    ensures |h| == HIDDEN_NODES
    ensures forall i :: 0 <= i < HIDDEN_NODES ==> h[i] >= 0.0
  {
    seq(HIDDEN_NODES, i requires 0 <= i < HIDDEN_NODES => Relu(HiddenSum(p.biasH[i], x, p.weightsIH, i, INPUT_NODES)))
  }

  function OutputLayer(h: seq<real>, p: Params): (o: seq<real>)
    requires |h| == HIDDEN_NODES && p.Valid()
    ensures |o| == OUTPUT_NODES
  {
    seq(OUTPUT_NODES, i requires 0 <= i < OUTPUT_NODES => OutputSum(p.biasO[i], h, p.weightsHO, i, HIDDEN_NODES))
  }

  /** `feedforward` on the input `x`: ReLU hidden layer, linear output layer. */
  function Forward(p: Params, x: seq<real>): (a: Activations)
    requires |x| == INPUT_NODES && p.Valid()
    ensures |a.hidden| == HIDDEN_NODES && |a.output| == OUTPUT_NODES
    ensures forall i :: 0 <= i < HIDDEN_NODES ==> a.hidden[i] >= 0.0
  {
    var h := HiddenLayer(x, p);
    Activations(h, OutputLayer(h, p))
  }

  // ---------------------------------------------------------------------------
  // One delta-rule step (main.c:145-173)
  // ---------------------------------------------------------------------------

  /** `err_o[i] = target[i] - output[i]` */
  function OutputError(target: seq<real>, output: seq<real>): (e: seq<real>)
    requires |target| == OUTPUT_NODES && |output| == OUTPUT_NODES
    ensures |e| == OUTPUT_NODES
  {
    seq(OUTPUT_NODES, i requires 0 <= i < OUTPUT_NODES => target[i] - output[i])
  }

  /** `bias_o[i] += err_o[i] * LEARNING_RATE` */
  function OutputBiasStep(biasO: seq<real>, errO: seq<real>): (b: seq<real>)
    requires |biasO| == OUTPUT_NODES && |errO| == OUTPUT_NODES
    ensures |b| == OUTPUT_NODES
  {
    seq(OUTPUT_NODES, i requires 0 <= i < OUTPUT_NODES => biasO[i] + errO[i] * LEARNING_RATE)
  }

  /** `weights_ho[j][i] += (err_o[i] * LEARNING_RATE) * hidden[j]` */
  function OutputWeightStep(weightsHO: seq<real>, errO: seq<real>, h: seq<real>): (w: seq<real>)
    requires |weightsHO| == HIDDEN_NODES * OUTPUT_NODES && |errO| == OUTPUT_NODES && |h| == HIDDEN_NODES
    ensures |w| == HIDDEN_NODES * OUTPUT_NODES
  {
    seq(HIDDEN_NODES * OUTPUT_NODES, k requires 0 <= k < HIDDEN_NODES * OUTPUT_NODES =>
      weightsHO[k] + (errO[k % OUTPUT_NODES] * LEARNING_RATE) * h[k / OUTPUT_NODES])
  }

  /** `0 + w[i][0] * e[0] + ... + w[i][n-1] * e[n-1]`: row `i` of `weights_ho` against the output error. */
  function ErrorSum(e: seq<real>, w: seq<real>, i: nat, n: nat): real
    requires n <= |e| && n <= OUTPUT_NODES && i < HIDDEN_NODES && |w| == HIDDEN_NODES * OUTPUT_NODES
  {
    if n == 0 then 0.0
    else ErrorSum(e, w, i, n - 1) + w[i * OUTPUT_NODES + (n - 1)] * e[n - 1]
  }

  /** `err_h[i]`, computed from whatever `weights_ho` it is given. */
  function HiddenError(weightsHO: seq<real>, errO: seq<real>): (e: seq<real>)
    requires |weightsHO| == HIDDEN_NODES * OUTPUT_NODES && |errO| == OUTPUT_NODES
    ensures |e| == HIDDEN_NODES
  {
    seq(HIDDEN_NODES, i requires 0 <= i < HIDDEN_NODES => ErrorSum(errO, weightsHO, i, OUTPUT_NODES))
  }

  /** `drelu(hidden[i]) * err_h[i] * LEARNING_RATE` */
  function HiddenGrad(h: seq<real>, errH: seq<real>): (g: seq<real>)
    requires |h| == HIDDEN_NODES && |errH| == HIDDEN_NODES
    ensures |g| == HIDDEN_NODES
  {
    seq(HIDDEN_NODES, i requires 0 <= i < HIDDEN_NODES => DRelu(h[i]) * errH[i] * LEARNING_RATE)
  }

  /** `bias_h[i] += grad[i]` */
  function HiddenBiasStep(biasH: seq<real>, g: seq<real>): (b: seq<real>)
    requires |biasH| == HIDDEN_NODES && |g| == HIDDEN_NODES
    ensures |b| == HIDDEN_NODES
  {
    seq(HIDDEN_NODES, i requires 0 <= i < HIDDEN_NODES => biasH[i] + g[i])
  }

  /** `weights_ih[j][i] += grad[i] * input[j]` */
  function InputWeightStep(weightsIH: seq<real>, g: seq<real>, x: seq<real>): (w: seq<real>)
    requires |weightsIH| == INPUT_NODES * HIDDEN_NODES && |g| == HIDDEN_NODES && |x| == INPUT_NODES
    ensures |w| == INPUT_NODES * HIDDEN_NODES
  {
    seq(INPUT_NODES * HIDDEN_NODES, k requires 0 <= k < INPUT_NODES * HIDDEN_NODES =>
      weightsIH[k] + g[k % HIDDEN_NODES] * x[k / HIDDEN_NODES])
  }

  /**
   * `train(nn, x, target)`: a forward pass on `x`, then the output layer is
   * updated, then the hidden error is taken from the UPDATED `weights_ho`,
   * then the hidden layer is updated.
   */
  function Step(p: Params, x: seq<real>, target: seq<real>): (q: Params)
    requires p.Valid() && |x| == INPUT_NODES && |target| == OUTPUT_NODES
    ensures q.Valid()
  {
    var a := Forward(p, x);
    var errO := OutputError(target, a.output);
    var weightsHO := OutputWeightStep(p.weightsHO, errO, a.hidden);
    var g := HiddenGrad(a.hidden, HiddenError(weightsHO, errO));
    Params(InputWeightStep(p.weightsIH, g, x), weightsHO, HiddenBiasStep(p.biasH, g), OutputBiasStep(p.biasO, errO))
  }

  // ---------------------------------------------------------------------------
  // Properties of the step
  // ---------------------------------------------------------------------------

  /** A zero error vector produces a zero hidden error, whatever the weights. */
  lemma ZeroErrorSum(e: seq<real>, w: seq<real>, i: nat, n: nat)
    requires n <= |e| && n <= OUTPUT_NODES && i < HIDDEN_NODES && |w| == HIDDEN_NODES * OUTPUT_NODES
    requires forall j :: 0 <= j < |e| ==> e[j] == 0.0
    ensures ErrorSum(e, w, i, n) == 0.0
  {
    if n > 0 {
      ZeroErrorSum(e, w, i, n - 1);
    }
  }

  /** Steps driven by a zero error or a zero gradient leave their parameters as they were. */
  lemma ZeroOutputErrorSteps(weightsHO: seq<real>, biasO: seq<real>, errO: seq<real>, h: seq<real>)
    requires |weightsHO| == HIDDEN_NODES * OUTPUT_NODES && |biasO| == OUTPUT_NODES && |h| == HIDDEN_NODES
    requires errO == [0.0, 0.0]
    ensures OutputWeightStep(weightsHO, errO, h) == weightsHO
    ensures OutputBiasStep(biasO, errO) == biasO
    ensures forall i :: 0 <= i < HIDDEN_NODES ==> HiddenError(weightsHO, errO)[i] == 0.0
  {
    forall i | 0 <= i < HIDDEN_NODES ensures HiddenError(weightsHO, errO)[i] == 0.0 {
      ZeroErrorSum(errO, weightsHO, i, OUTPUT_NODES);
    }
  }

  lemma ZeroGradSteps(weightsIH: seq<real>, biasH: seq<real>, g: seq<real>, x: seq<real>)
    requires |weightsIH| == INPUT_NODES * HIDDEN_NODES && |biasH| == HIDDEN_NODES && |g| == HIDDEN_NODES && |x| == INPUT_NODES
    requires forall i :: 0 <= i < HIDDEN_NODES ==> g[i] == 0.0
    ensures InputWeightStep(weightsIH, g, x) == weightsIH
    ensures HiddenBiasStep(biasH, g) == biasH
  {
    var w := InputWeightStep(weightsIH, g, x);
    forall k | 0 <= k < INPUT_NODES * HIDDEN_NODES ensures w[k] == weightsIH[k] {
      assert g[k % HIDDEN_NODES] == 0.0;
    }
    assert w == weightsIH;
  }

  /**
   * If the target equals the output of `train`'s own forward pass, every
   * output error is 0, every gradient is 0, and no weight or bias changes.
   */
  lemma ZeroErrorNoChange(p: Params, x: seq<real>, target: seq<real>)
    requires p.Valid() && |x| == INPUT_NODES && |target| == OUTPUT_NODES
    requires target == Forward(p, x).output
    ensures Step(p, x, target) == p
  {
    var a := Forward(p, x);
    var errO := OutputError(target, a.output);
    assert errO == [0.0, 0.0];
    ZeroOutputErrorSteps(p.weightsHO, p.biasO, errO, a.hidden);
    var g := HiddenGrad(a.hidden, HiddenError(p.weightsHO, errO));
    ZeroGradSteps(p.weightsIH, p.biasH, g, x);
  }

  /**
   * The ReLU gate: hidden unit `i` moves its bias and its column of
   * `weights_ih` by `err_h[i] * LEARNING_RATE` (times the input) when its
   * activation is positive, and not at all when the activation is 0.
   */
  lemma HiddenUpdateGated(p: Params, x: seq<real>, target: seq<real>, i: nat)
    requires p.Valid() && |x| == INPUT_NODES && |target| == OUTPUT_NODES && i < HIDDEN_NODES
    ensures var a := Forward(p, x);
      var errO := OutputError(target, a.output);
      var errH := HiddenError(OutputWeightStep(p.weightsHO, errO, a.hidden), errO);
      var grad := if a.hidden[i] > 0.0 then errH[i] * LEARNING_RATE else 0.0;
      var q := Step(p, x, target);
      && q.biasH[i] == p.biasH[i] + grad
      && forall j :: 0 <= j < INPUT_NODES ==> q.weightsIH[j * HIDDEN_NODES + i] == p.weightsIH[j * HIDDEN_NODES + i] + grad * x[j]
  {
    var a := Forward(p, x);
    var errO := OutputError(target, a.output);
    var errH := HiddenError(OutputWeightStep(p.weightsHO, errO, a.hidden), errO);
    var q := Step(p, x, target);
    forall j | 0 <= j < INPUT_NODES
      ensures (j * HIDDEN_NODES + i) % HIDDEN_NODES == i && (j * HIDDEN_NODES + i) / HIDDEN_NODES == j
    {
      IhIndex(j, i);
    }
  }

  /** A unit whose activation is 0 keeps its bias and its whole `weights_ih` column. */
  lemma DeadHiddenUnitFrozen(p: Params, x: seq<real>, target: seq<real>, i: nat)
    requires p.Valid() && |x| == INPUT_NODES && |target| == OUTPUT_NODES && i < HIDDEN_NODES
    requires Forward(p, x).hidden[i] == 0.0
    ensures Step(p, x, target).biasH[i] == p.biasH[i]
    ensures forall j :: 0 <= j < INPUT_NODES ==>
      Step(p, x, target).weightsIH[j * HIDDEN_NODES + i] == p.weightsIH[j * HIDDEN_NODES + i]
  {
    var a := Forward(p, x);
    var errO := OutputError(target, a.output);
    var w := OutputWeightStep(p.weightsHO, errO, a.hidden);
    var g := HiddenGrad(a.hidden, HiddenError(w, errO));
    var q := Step(p, x, target);
    assert q == Params(InputWeightStep(p.weightsIH, g, x), w, HiddenBiasStep(p.biasH, g), OutputBiasStep(p.biasO, errO));
    assert g[i] == 0.0;
    forall j | 0 <= j < INPUT_NODES ensures q.weightsIH[j * HIDDEN_NODES + i] == p.weightsIH[j * HIDDEN_NODES + i] {
      IhIndex(j, i);
    }
  }

  /** `Step` phase by phase, in the order `train` performs them. */
  lemma StepUnfold(p: Params, x: seq<real>, target: seq<real>)
    requires p.Valid() && |x| == INPUT_NODES && |target| == OUTPUT_NODES
    ensures var a := Forward(p, x);
      var e := OutputError(target, a.output);
      var wHO := OutputWeightStep(p.weightsHO, e, a.hidden);
      var g := HiddenGrad(a.hidden, HiddenError(wHO, e));
      Step(p, x, target) == Params(InputWeightStep(p.weightsIH, g, x), wHO, HiddenBiasStep(p.biasH, g), OutputBiasStep(p.biasO, e))
  {
  }

  /** Row-major indexing of `weights_ih`: `j * 16 + i` is row `j`, column `i`. */
  lemma IhIndex(j: nat, i: nat)
    requires i < HIDDEN_NODES
    ensures (j * HIDDEN_NODES + i) % HIDDEN_NODES == i && (j * HIDDEN_NODES + i) / HIDDEN_NODES == j
  {
  }

  /** Row-major indexing of `weights_ho`: `j * 2 + i` is row `j`, column `i`. */
  lemma HoIndex(j: nat, i: nat)
    requires i < OUTPUT_NODES
    ensures (j * OUTPUT_NODES + i) % OUTPUT_NODES == i && (j * OUTPUT_NODES + i) / OUTPUT_NODES == j
  {
  }

  /**
   * `err_h` is taken from the already-updated `weights_ho`. Against the
   * pre-update weights it is larger by exactly
   * `LEARNING_RATE * hidden[i] * (err_o[0]^2 + err_o[1]^2)`, so the two
   * readings agree only for an inactive unit or a zero output error.
   */
  lemma HiddenErrorUsesUpdatedWeights(p: Params, x: seq<real>, target: seq<real>, i: nat)
    requires p.Valid() && |x| == INPUT_NODES && |target| == OUTPUT_NODES && i < HIDDEN_NODES
    ensures var a := Forward(p, x);
      var e := OutputError(target, a.output);
      HiddenError(OutputWeightStep(p.weightsHO, e, a.hidden), e)[i]
        == HiddenError(p.weightsHO, e)[i] + LEARNING_RATE * a.hidden[i] * (e[0] * e[0] + e[1] * e[1])
  {
    var a := Forward(p, x);
    var e := OutputError(target, a.output);
    var w := OutputWeightStep(p.weightsHO, e, a.hidden);
    var h := a.hidden[i];
    HoIndex(i, 0);
    HoIndex(i, 1);
    var w0, w1 := p.weightsHO[i * OUTPUT_NODES], p.weightsHO[i * OUTPUT_NODES + 1];
    assert w[i * OUTPUT_NODES + 0] == w0 + (e[0] * LEARNING_RATE) * h;
    assert w[i * OUTPUT_NODES + 1] == w1 + (e[1] * LEARNING_RATE) * h;
    assert ErrorSum(e, w, i, 1) == 0.0 + w[i * OUTPUT_NODES + 0] * e[0];
    assert ErrorSum(e, w, i, 2) == ErrorSum(e, w, i, 1) + w[i * OUTPUT_NODES + 1] * e[1];
    assert ErrorSum(e, p.weightsHO, i, 1) == 0.0 + w0 * e[0];
    assert ErrorSum(e, p.weightsHO, i, 2) == ErrorSum(e, p.weightsHO, i, 1) + w1 * e[1];
    ExpandUpdatedRow(w0, w1, e[0], e[1], h);
  }

  /** The algebra behind `HiddenErrorUsesUpdatedWeights`. */
  lemma ExpandUpdatedRow(w0: real, w1: real, e0: real, e1: real, h: real)
    ensures (w0 + (e0 * LEARNING_RATE) * h) * e0 + (w1 + (e1 * LEARNING_RATE) * h) * e1
         == (0.0 + w0 * e0 + w1 * e1) + LEARNING_RATE * h * (e0 * e0 + e1 * e1)
  {
  }

  /**
   * A network with every weight and bias 0: the forward pass yields zeros, and
   * one step moves only `bias_o`, by `target * LEARNING_RATE`.
   */
  lemma StepFromZero(x: seq<real>, target: seq<real>)
    requires |x| == INPUT_NODES && |target| == OUTPUT_NODES
    ensures var zero := ZeroParams();
      Step(zero, x, target) == Params(zero.weightsIH, zero.weightsHO, zero.biasH,
                                      [target[0] * LEARNING_RATE, target[1] * LEARNING_RATE])
  {
    var zero := ZeroParams();
    StepUnfold(zero, x, target);
    var a := Forward(zero, x);
    ForwardFromZero(x);
    var errO := OutputError(target, a.output);
    assert errO == target;
    var w := OutputWeightStep(zero.weightsHO, errO, a.hidden);
    InactiveOutputWeightStep(zero.weightsHO, errO, a.hidden);
    var g := HiddenGrad(a.hidden, HiddenError(w, errO));
    InactiveHiddenGrad(a.hidden, HiddenError(w, errO));
    ZeroGradSteps(zero.weightsIH, zero.biasH, g, x);
    OutputBiasFromZero(zero.biasO, target);
  }

  /** With every hidden activation 0, the `weights_ho` update changes nothing. */
  lemma InactiveOutputWeightStep(weightsHO: seq<real>, errO: seq<real>, h: seq<real>)
    requires |weightsHO| == HIDDEN_NODES * OUTPUT_NODES && |errO| == OUTPUT_NODES && |h| == HIDDEN_NODES
    requires forall i :: 0 <= i < HIDDEN_NODES ==> h[i] == 0.0
    ensures OutputWeightStep(weightsHO, errO, h) == weightsHO
  {
    var w := OutputWeightStep(weightsHO, errO, h);
    forall k | 0 <= k < HIDDEN_NODES * OUTPUT_NODES ensures w[k] == weightsHO[k] {
      assert h[k / OUTPUT_NODES] == 0.0;
    }
  }

  /** With every hidden activation 0, `drelu` gates every hidden gradient to 0. */
  lemma InactiveHiddenGrad(h: seq<real>, errH: seq<real>)
    requires |h| == HIDDEN_NODES && |errH| == HIDDEN_NODES
    requires forall i :: 0 <= i < HIDDEN_NODES ==> h[i] == 0.0
    ensures forall i :: 0 <= i < HIDDEN_NODES ==> HiddenGrad(h, errH)[i] == 0.0
  {
  }

  /** The forward pass of the all-zero network yields zeros. */
  lemma ForwardFromZero(x: seq<real>)
    requires |x| == INPUT_NODES
    ensures forall i :: 0 <= i < HIDDEN_NODES ==> Forward(ZeroParams(), x).hidden[i] == 0.0
    ensures Forward(ZeroParams(), x).output == [0.0, 0.0]
  {
    var zero := ZeroParams();
    var a := Forward(zero, x);
    forall i | 0 <= i < HIDDEN_NODES ensures a.hidden[i] == 0.0 {
      ZeroWeightsHiddenSum(x, zero.weightsIH, i, INPUT_NODES);
    }
    forall i | 0 <= i < OUTPUT_NODES ensures a.output[i] == 0.0 {
      ZeroHiddenOutputSum(a.hidden, zero.weightsHO, i, HIDDEN_NODES);
    }
  }

  lemma OutputBiasFromZero(biasO: seq<real>, errO: seq<real>)
    requires |biasO| == OUTPUT_NODES && |errO| == OUTPUT_NODES
    requires forall i :: 0 <= i < OUTPUT_NODES ==> biasO[i] == 0.0
    ensures OutputBiasStep(biasO, errO) == [errO[0] * LEARNING_RATE, errO[1] * LEARNING_RATE]
  {
  }

  /** Every weight and bias 0. */
  function ZeroParams(): (p: Params)
    ensures p.Valid()
  {
    Params(seq(INPUT_NODES * HIDDEN_NODES, _ => 0.0), seq(HIDDEN_NODES * OUTPUT_NODES, _ => 0.0),
           seq(HIDDEN_NODES, _ => 0.0), seq(OUTPUT_NODES, _ => 0.0))
  }

  lemma ZeroWeightsHiddenSum(x: seq<real>, w: seq<real>, i: nat, n: nat)
    requires n <= |x| && i < HIDDEN_NODES && n * HIDDEN_NODES <= |w|
    requires forall k :: 0 <= k < |w| ==> w[k] == 0.0
    ensures HiddenSum(0.0, x, w, i, n) == 0.0
  {
    if n > 0 {
      ZeroWeightsHiddenSum(x, w, i, n - 1);
    }
  }

  lemma ZeroHiddenOutputSum(h: seq<real>, w: seq<real>, i: nat, n: nat)
    requires n <= |h| && i < OUTPUT_NODES && n * OUTPUT_NODES <= |w|
    requires forall k :: 0 <= k < |w| ==> w[k] == 0.0
    ensures OutputSum(0.0, h, w, i, n) == 0.0
  {
    if n > 0 {
      ZeroHiddenOutputSum(h, w, i, n - 1);
    }
  }
}
