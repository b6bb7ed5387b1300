/**
 * The `NeuralNetwork` struct (main.c:24-34) with `feedforward` and `train`
 * (main.c:131-173) as in-place updates of its arrays, each proved against
 * the pure definitions in `NetworkSpec`.
 */
module Network {
  import opened Topology
  import opened NetworkSpec

  class NeuralNetwork {
    const input: array<real>
    const hidden: array<real>
    const output: array<real>
    /** `weights_ih[j][i]` is `weightsIH[j * HIDDEN_NODES + i]` */
    const weightsIH: array<real>
    /** `weights_ho[j][i]` is `weightsHO[j * OUTPUT_NODES + i]` */
    const weightsHO: array<real>
    const biasH: array<real>
    const biasO: array<real>

    /** The fixed sizes of the struct's arrays; arrays of equal size are distinct members. */
    ghost predicate Valid() {
      && input.Length == INPUT_NODES
      && hidden.Length == HIDDEN_NODES
      && output.Length == OUTPUT_NODES
      && weightsIH.Length == INPUT_NODES * HIDDEN_NODES
      && weightsHO.Length == HIDDEN_NODES * OUTPUT_NODES
      && biasH.Length == HIDDEN_NODES
      && biasO.Length == OUTPUT_NODES
      && hidden != biasH
      && output != biasO
    }

    /** The weights and biases. */
    function Params(): (p: NetworkSpec.Params)
      reads weightsIH, weightsHO, biasH, biasO
      ensures Valid() ==> p.Valid()
    {
      NetworkSpec.Params(weightsIH[..], weightsHO[..], biasH[..], biasO[..])
    }

    /** The forward-pass buffers. */
    function Activations(): NetworkSpec.Activations
      reads hidden, output
    {
      NetworkSpec.Activations(hidden[..], output[..])
    }

    /** A network holding the parameters `p` (`init_network` draws them at random). */
    constructor (p: NetworkSpec.Params)
      requires p.Valid()
      ensures Valid() && Params() == p
    {
      input := new real[INPUT_NODES];
      hidden := new real[HIDDEN_NODES];
      output := new real[OUTPUT_NODES];
      weightsIH := new real[INPUT_NODES * HIDDEN_NODES](k requires 0 <= k < INPUT_NODES * HIDDEN_NODES => p.weightsIH[k]);
      weightsHO := new real[HIDDEN_NODES * OUTPUT_NODES](k requires 0 <= k < HIDDEN_NODES * OUTPUT_NODES => p.weightsHO[k]);
      biasH := new real[HIDDEN_NODES](k requires 0 <= k < HIDDEN_NODES => p.biasH[k]);
      biasO := new real[OUTPUT_NODES](k requires 0 <= k < OUTPUT_NODES => p.biasO[k]);
    }

    /** `memcpy(nn->input, x, sizeof(nn->input))` */
    method SetInput(x: seq<real>)
      requires Valid() && |x| == INPUT_NODES
      modifies input
      ensures input[..] == x
    {
      for j := 0 to INPUT_NODES
        invariant forall k :: 0 <= k < j ==> input[k] == x[k]
      {
        input[j] := x[j];
      }
    }

    /**
     * `feedforward`: writes `hidden` and `output` only (weights, biases and
     * `input` are outside the frame), and every hidden activation is >= 0.
     */
    method FeedForward()
      requires Valid()
      modifies hidden, output
      ensures Activations() == Forward(Params(), input[..])
      ensures forall i :: 0 <= i < HIDDEN_NODES ==> hidden[i] >= 0.0
    {
      for i := 0 to HIDDEN_NODES
        invariant forall k :: 0 <= k < i ==> hidden[k] == HiddenLayer(input[..], Params())[k]
      {
        var sum := biasH[i];
        for j := 0 to INPUT_NODES
          invariant sum == HiddenSum(biasH[i], input[..], weightsIH[..], i, j)
        {
          sum := sum + input[j] * weightsIH[j * HIDDEN_NODES + i];
        }
        hidden[i] := Relu(sum);
      }
      assert hidden[..] == HiddenLayer(input[..], Params());
      for i := 0 to OUTPUT_NODES
        invariant hidden[..] == HiddenLayer(input[..], Params())
        invariant forall k :: 0 <= k < i ==> output[k] == OutputLayer(hidden[..], Params())[k]
      {
        var sum := biasO[i];
        for j := 0 to HIDDEN_NODES
          invariant sum == OutputSum(biasO[i], hidden[..], weightsHO[..], i, j)
        {
          sum := sum + hidden[j] * weightsHO[j * OUTPUT_NODES + i];
        }
        output[i] := sum;
      }
      assert output[..] == OutputLayer(hidden[..], Params());
    }

    /** The output-layer half of `train` (main.c:155-159). */
    method UpdateOutputLayer(errO: seq<real>)
      requires Valid() && |errO| == OUTPUT_NODES
      modifies weightsHO, biasO
      ensures weightsHO[..] == OutputWeightStep(old(weightsHO[..]), errO, hidden[..])
      ensures biasO[..] == OutputBiasStep(old(biasO[..]), errO)
    {
      ghost var w0, b0 := weightsHO[..], biasO[..];
      ghost var w1, b1 := OutputWeightStep(w0, errO, hidden[..]), OutputBiasStep(b0, errO);
      for i := 0 to OUTPUT_NODES
        invariant forall k :: 0 <= k < OUTPUT_NODES ==> biasO[k] == if k < i then b1[k] else b0[k]
        invariant forall k :: 0 <= k < HIDDEN_NODES * OUTPUT_NODES ==>
          weightsHO[k] == if k % OUTPUT_NODES < i then w1[k] else w0[k]
      {
        var grad := errO[i] * LEARNING_RATE;
        biasO[i] := biasO[i] + grad;
        for j := 0 to HIDDEN_NODES
          invariant forall k :: 0 <= k < HIDDEN_NODES * OUTPUT_NODES ==>
            weightsHO[k] == if k % OUTPUT_NODES < i || (k % OUTPUT_NODES == i && k / OUTPUT_NODES < j) then w1[k] else w0[k]
          invariant forall k :: 0 <= k < OUTPUT_NODES ==> biasO[k] == if k <= i then b1[k] else b0[k]
        {
          HoIndex(j, i);
          weightsHO[j * OUTPUT_NODES + i] := weightsHO[j * OUTPUT_NODES + i] + grad * hidden[j];
        }
      }
      assert weightsHO[..] == w1;
      assert biasO[..] == b1;
    }

    /** `err_h` from the current `weights_ho` (main.c:162-165). */
    method ComputeHiddenError(errO: seq<real>) returns (errH: array<real>)
      requires Valid() && |errO| == OUTPUT_NODES
      ensures fresh(errH)
      ensures errH[..] == HiddenError(weightsHO[..], errO)
    {
      errH := new real[HIDDEN_NODES];
      for i := 0 to HIDDEN_NODES
        invariant forall k :: 0 <= k < i ==> errH[k] == 0.0
      {
        errH[i] := 0.0;
      }
      for i := 0 to HIDDEN_NODES
        invariant forall k :: 0 <= k < i ==> errH[k] == ErrorSum(errO, weightsHO[..], k, OUTPUT_NODES)
        invariant forall k :: i <= k < HIDDEN_NODES ==> errH[k] == 0.0
      {
        for j := 0 to OUTPUT_NODES
          invariant errH[i] == ErrorSum(errO, weightsHO[..], i, j)
          invariant forall k :: 0 <= k < i ==> errH[k] == ErrorSum(errO, weightsHO[..], k, OUTPUT_NODES)
          invariant forall k :: i < k < HIDDEN_NODES ==> errH[k] == 0.0
        {
          errH[i] := errH[i] + weightsHO[i * OUTPUT_NODES + j] * errO[j];
        }
      }
      assert errH[..] == HiddenError(weightsHO[..], errO);
    }

    /** The hidden-layer half of `train` (main.c:168-172), gated by `drelu(hidden[i])`. */
    method UpdateHiddenLayer(errH: seq<real>)
      requires Valid() && |errH| == HIDDEN_NODES
      modifies weightsIH, biasH
      ensures weightsIH[..] == InputWeightStep(old(weightsIH[..]), HiddenGrad(hidden[..], errH), input[..])
      ensures biasH[..] == HiddenBiasStep(old(biasH[..]), HiddenGrad(hidden[..], errH))
    {
      ghost var w0, b0 := weightsIH[..], biasH[..];
      ghost var g := HiddenGrad(hidden[..], errH);
      ghost var w1, b1 := InputWeightStep(w0, g, input[..]), HiddenBiasStep(b0, g);
      for i := 0 to HIDDEN_NODES
        invariant forall k :: 0 <= k < HIDDEN_NODES ==> biasH[k] == if k < i then b1[k] else b0[k]
        invariant forall k :: 0 <= k < INPUT_NODES * HIDDEN_NODES ==>
          weightsIH[k] == if k % HIDDEN_NODES < i then w1[k] else w0[k]
      {
        var grad := DRelu(hidden[i]) * errH[i] * LEARNING_RATE;
        biasH[i] := biasH[i] + grad;
        for j := 0 to INPUT_NODES
          invariant forall k :: 0 <= k < INPUT_NODES * HIDDEN_NODES ==>
            weightsIH[k] == if k % HIDDEN_NODES < i || (k % HIDDEN_NODES == i && k / HIDDEN_NODES < j) then w1[k] else w0[k]
          invariant forall k :: 0 <= k < HIDDEN_NODES ==> biasH[k] == if k <= i then b1[k] else b0[k]
        {
          IhIndex(j, i);
          weightsIH[j * HIDDEN_NODES + i] := weightsIH[j * HIDDEN_NODES + i] + grad * input[j];
        }
      }
      assert weightsIH[..] == w1;
      assert biasH[..] == b1;
    }

    /**
     * `train(nn, x, target)`: copies `x` into `input`, runs the forward pass,
     * and applies one delta-rule step. Afterwards the buffers hold the
     * forward pass of the PRE-update parameters.
     */
    method Train(x: seq<real>, target: seq<real>)
      requires Valid() && |x| == INPUT_NODES && |target| == OUTPUT_NODES
      modifies input, hidden, output, weightsIH, weightsHO, biasH, biasO
      ensures input[..] == x
      ensures Activations() == Forward(old(Params()), x)
      ensures Params() == Step(old(Params()), x, target)
    {
      ghost var p := Params();
      SetInput(x);
      FeedForward();
      ghost var a := Forward(p, x);
      assert Activations() == a;
      var errO := new real[OUTPUT_NODES];
      for i := 0 to OUTPUT_NODES
        modifies errO
        invariant forall k :: 0 <= k < i ==> errO[k] == target[k] - output[k]
      {
        errO[i] := target[i] - output[i];
      }
      ghost var e := OutputError(target, a.output);
      assert errO[..] == e;
      assert hidden[..] == a.hidden && weightsHO[..] == p.weightsHO;
      UpdateOutputLayer(errO[..]);
      ghost var wHO := OutputWeightStep(p.weightsHO, e, a.hidden);
      assert weightsHO[..] == wHO;
      var errH := ComputeHiddenError(errO[..]);
      ghost var g := HiddenGrad(a.hidden, HiddenError(wHO, e));
      assert HiddenGrad(hidden[..], errH[..]) == g;
      assert weightsIH[..] == p.weightsIH && biasH[..] == p.biasH && input[..] == x;
      assert biasO[..] == OutputBiasStep(p.biasO, e);
      UpdateHiddenLayer(errH[..]);
      assert weightsIH[..] == InputWeightStep(p.weightsIH, g, x);
      assert biasH[..] == HiddenBiasStep(p.biasH, g);
      StepUnfold(p, x, target);
    }
  }
}
