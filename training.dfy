/**
 * The training loop of `main` (main.c:215-236): `indices` starts as the
 * identity, and each of the `EPOCHS` epochs shuffles it, then for every
 * sample records the squared output error of a forward pass and calls
 * `train`. The epoch's mean squared error is the summed loss over
 * `n * OUTPUT_NODES`.
 */
module Training {
  import opened Topology
  import opened NetworkSpec
  import opened Network
  import opened Shuffle

  // ---------------------------------------------------------------------------
  // The loop as a function of its inputs
  // ---------------------------------------------------------------------------

  /** `v * v`, never negative. */
  function Square(v: real): (s: real)
    ensures s >= 0.0
  {
    v * v
  }

  /** `err0*err0 + err1*err1` for one sample, from the parameters BEFORE its update. */
  function SampleLoss(p: Params, x: seq<real>, y: seq<real>): (loss: real)
    requires p.Valid() && |x| == INPUT_NODES && |y| == OUTPUT_NODES
    ensures loss >= 0.0
  {
    var o := Forward(p, x).output;
    var err0 := y[0] - o[0];
    var err1 := y[1] - o[1];
    Square(err0) + Square(err1)
  }

  /** `n` normalised samples: input rows of 8 values, target rows of 2. */
  predicate Dataset(xs: seq<seq<real>>, ys: seq<seq<real>>) {
    && |xs| == |ys|
    && (forall r :: 0 <= r < |xs| ==> |xs[r]| == INPUT_NODES)
    && (forall r :: 0 <= r < |ys| ==> |ys[r]| == OUTPUT_NODES)
  }

  predicate InRange(order: seq<int>, n: nat) {
    forall k :: 0 <= k < |order| ==> 0 <= order[k] < n
  }

  /** The parameters and the summed loss after some samples of an epoch. */
  datatype Pass = Pass(params: Params, loss: real)

  /**
   * The inner loop over the samples `order` (main.c:222-230): each sample's
   * loss is taken under the parameters left by the samples before it, and
   * then `train` steps those same parameters.
   */
  function RunSamples(p: Params, xs: seq<seq<real>>, ys: seq<seq<real>>, order: seq<int>): (r: Pass)
    requires p.Valid() && Dataset(xs, ys) && InRange(order, |xs|)
    ensures r.params.Valid() && r.loss >= 0.0
    decreases |order|
  {
    if order == [] then Pass(p, 0.0)
    else
      var prev := RunSamples(p, xs, ys, order[..|order| - 1]);
      var s := order[|order| - 1];
      Pass(Step(prev.params, xs[s], ys[s]), prev.loss + SampleLoss(prev.params, xs[s], ys[s]))
  }

  /** `epoch_loss / (n * OUTPUT_NODES)` */
  function Mse(epochLoss: real, n: nat): (mse: real)
    requires n > 0
    ensures epochLoss >= 0.0 ==> mse >= 0.0
  {
    epochLoss / (n * OUTPUT_NODES) as real
  }

  /** The network, the index order and the per-epoch MSE values after some epochs. */
  datatype Run = Run(params: Params, indices: seq<int>, losses: seq<real>)

  predicate RollsFor(rolls: seq<seq<nat>>, n: nat) {
    forall e :: 0 <= e < |rolls| ==> n <= |rolls[e]| + 1
  }

  /**
   * The first `e` epochs: shuffle with the `rand()` values `rolls[e - 1]`,
   * run the samples in the shuffled order, record `epoch_loss / (n * 2)`.
   */
  function Epochs(p: Params, xs: seq<seq<real>>, ys: seq<seq<real>>, rolls: seq<seq<nat>>, e: nat): (r: Run)
    requires p.Valid() && Dataset(xs, ys) && 0 < |xs| && e <= |rolls| && RollsFor(rolls, |xs|)
    ensures r.params.Valid() && |r.losses| == e
    ensures IsIndexBijection(r.indices, |xs|)
    ensures forall k :: 0 <= k < e ==> r.losses[k] >= 0.0
  {
    if e == 0 then
      IotaBijection(|xs|);
      Run(p, Iota(|xs|), [])
    else
      var prev := Epochs(p, xs, ys, rolls, e - 1);
      var order := Shuffled(prev.indices, rolls[e - 1]);
      ShuffleBijection(prev.indices, rolls[e - 1]);
      assert InRange(order, |xs|);
      var pass := RunSamples(prev.params, xs, ys, order);
      Run(pass.params, order, prev.losses + [Mse(pass.loss, |xs|)])
  }

  // ---------------------------------------------------------------------------
  // Properties of the loop
  // ---------------------------------------------------------------------------

  /** A sample the network already fits has loss 0. */
  lemma FittedSampleLoss(p: Params, x: seq<real>, y: seq<real>)
    requires p.Valid() && |x| == INPUT_NODES && |y| == OUTPUT_NODES
    requires y == Forward(p, x).output
    ensures SampleLoss(p, x, y) == 0.0
  {
    var o := Forward(p, x).output;
    assert y[0] - o[0] == 0.0 && y[1] - o[1] == 0.0;
  }

  /**
   * The loss the loop records is measured on the same forward pass that
   * `train` uses for its update: scaled by `LEARNING_RATE^2` it is the
   * squared size of the step `train` gives the output biases.
   */
  lemma LossMatchesUpdate(p: Params, x: seq<real>, y: seq<real>)
    requires p.Valid() && |x| == INPUT_NODES && |y| == OUTPUT_NODES
    ensures var q := Step(p, x, y);
      var d0, d1 := q.biasO[0] - p.biasO[0], q.biasO[1] - p.biasO[1];
      SampleLoss(p, x, y) * (LEARNING_RATE * LEARNING_RATE) == Square(d0) + Square(d1)
  {
    var o := Forward(p, x).output;
    var err0, err1 := y[0] - o[0], y[1] - o[1];
    var q := Step(p, x, y);
    StepUnfold(p, x, y);
    assert q.biasO[0] - p.biasO[0] == err0 * LEARNING_RATE;
    assert q.biasO[1] - p.biasO[1] == err1 * LEARNING_RATE;
  }

  /**
   * An epoch over samples that the network already fits records loss 0 and
   * leaves every weight and bias as it found them.
   */
  lemma {:induction false} FittedEpochNoUpdate(p: Params, xs: seq<seq<real>>, ys: seq<seq<real>>, order: seq<int>)
    requires p.Valid() && Dataset(xs, ys) && InRange(order, |xs|)
    requires forall k :: 0 <= k < |order| ==> ys[order[k]] == Forward(p, xs[order[k]]).output
    ensures RunSamples(p, xs, ys, order) == Pass(p, 0.0)
    decreases |order|
  {
    if order != [] {
      var s := order[|order| - 1];
      FittedEpochNoUpdate(p, xs, ys, order[..|order| - 1]);
      FittedSampleLoss(p, xs[s], ys[s]);
      ZeroErrorNoChange(p, xs[s], ys[s]);
    }
  }

  /** The index order after `e` epochs depends only on `n` and the shuffles' `rand()` values. */
  function IndicesAfter(n: nat, rolls: seq<seq<nat>>, e: nat): (r: seq<int>)
    requires e <= |rolls| && RollsFor(rolls, n)
    ensures |r| == n
  {
    if e == 0 then Iota(n) else Shuffled(IndicesAfter(n, rolls, e - 1), rolls[e - 1])
  }

  lemma {:induction false} IndicesAfterPermutation(n: nat, rolls: seq<seq<nat>>, e: nat)
    requires e <= |rolls| && RollsFor(rolls, n)
    ensures multiset(IndicesAfter(n, rolls, e)) == multiset(Iota(n))
  {
    if e > 0 {
      IndicesAfterPermutation(n, rolls, e - 1);
      ShufflePermutes(IndicesAfter(n, rolls, e - 1), rolls[e - 1]);
    }
  }

  /** The network and the losses have no influence on the index order. */
  lemma {:induction false} EpochsIndices(p: Params, xs: seq<seq<real>>, ys: seq<seq<real>>, rolls: seq<seq<nat>>, e: nat)
    requires p.Valid() && Dataset(xs, ys) && 0 < |xs| && e <= |rolls| && RollsFor(rolls, |xs|)
    ensures Epochs(p, xs, ys, rolls, e).indices == IndicesAfter(|xs|, rolls, e)
  {
    if e > 0 {
      EpochsIndices(p, xs, ys, rolls, e - 1);
      EpochIndices(p, xs, ys, rolls, e);
    }
  }

  /** Epoch `e` leaves the indices of epoch `e - 1` shuffled with `rolls[e - 1]`. */
  lemma EpochIndices(p: Params, xs: seq<seq<real>>, ys: seq<seq<real>>, rolls: seq<seq<nat>>, e: nat)
    requires p.Valid() && Dataset(xs, ys) && 0 < |xs| && 0 < e <= |rolls| && RollsFor(rolls, |xs|)
    ensures Epochs(p, xs, ys, rolls, e).indices == Shuffled(Epochs(p, xs, ys, rolls, e - 1).indices, rolls[e - 1])
  {
  }

  /** After any number of epochs `indices` is a rearrangement of `0 .. n-1`. */
  lemma EpochsPermutation(p: Params, xs: seq<seq<real>>, ys: seq<seq<real>>, rolls: seq<seq<nat>>, e: nat)
    requires p.Valid() && Dataset(xs, ys) && 0 < |xs| && e <= |rolls| && RollsFor(rolls, |xs|)
    ensures multiset(Epochs(p, xs, ys, rolls, e).indices) == multiset(Iota(|xs|))
  {
    EpochsIndices(p, xs, ys, rolls, e);
    IndicesAfterPermutation(|xs|, rolls, e);
  }

  /** Every index below `n` is still present after any number of epochs. */
  lemma EpochsCoverIndices(p: Params, xs: seq<seq<real>>, ys: seq<seq<real>>, rolls: seq<seq<nat>>, e: nat)
    requires p.Valid() && Dataset(xs, ys) && 0 < |xs| && e <= |rolls| && RollsFor(rolls, |xs|)
    ensures forall v :: v in Epochs(p, xs, ys, rolls, e).indices <==> 0 <= v < |xs|
  {
    EpochsPermutation(p, xs, ys, rolls, e);
    PermutationOfIotaRange(Epochs(p, xs, ys, rolls, e).indices, |xs|);
  }

  /** One more sample of `order` extends the pass by one `train` step. */
  lemma RunSamplesSnoc(p: Params, xs: seq<seq<real>>, ys: seq<seq<real>>, order: seq<int>, k: nat)
    requires p.Valid() && Dataset(xs, ys) && InRange(order, |xs|) && k < |order|
    ensures var before := RunSamples(p, xs, ys, order[..k]);
      var s := order[k];
      RunSamples(p, xs, ys, order[..k + 1]) ==
        Pass(Step(before.params, xs[s], ys[s]), before.loss + SampleLoss(before.params, xs[s], ys[s]))
  {
    assert order[..k + 1][..k] == order[..k];
  }

  // ---------------------------------------------------------------------------
  // The loop itself
  // ---------------------------------------------------------------------------

  /** Row `r` of a C 2-D array, as `memcpy` or an index expression reads it. */
  function Row(a: array2<real>, r: nat): (row: seq<real>)
    requires r < a.Length0
    reads a
    ensures |row| == a.Length1
  {
    seq(a.Length1, c requires 0 <= c < a.Length1 reads a => a[r, c])
  }

  /** The first `n` rows. */
  function Rows(a: array2<real>, n: nat): (rows: seq<seq<real>>)
    requires n <= a.Length0
    reads a
    ensures |rows| == n && forall r :: 0 <= r < n ==> rows[r] == Row(a, r)
  {
    seq(n, r requires 0 <= r < n reads a => Row(a, r))
  }

  /**
   * One sample of the inner loop (main.c:224-229): a forward pass on the
   * input row `x` for the loss, then `train` on `x` and the target row `y`.
   */
  method TrainSample(nn: NeuralNetwork, x: seq<real>, y: seq<real>) returns (loss: real)
    requires nn.Valid() && |x| == INPUT_NODES && |y| == OUTPUT_NODES
    modifies nn.input, nn.hidden, nn.output, nn.weightsIH, nn.weightsHO, nn.biasH, nn.biasO
    ensures loss == SampleLoss(old(nn.Params()), x, y)
    ensures nn.Params() == Step(old(nn.Params()), x, y)
  {
    ghost var p := nn.Params();
    nn.SetInput(x);
    nn.FeedForward();
    assert nn.output[..] == Forward(p, x).output;
    var err0 := y[0] - nn.output[0];
    var err1 := y[1] - nn.output[1];
    loss := Square(err0) + Square(err1);
    assert loss == SampleLoss(p, x, y);
    nn.Train(x, y);
  }

  /**
   * The inner loop of an epoch (main.c:221-231): train on every sample in
   * the order `indices` holds, summing the losses. `indices` is only read.
   */
  method TrainInOrder(nn: NeuralNetwork, xNorm: array2<real>, yNorm: array2<real>, n: nat, indices: array<int>)
    returns (epochLoss: real)
    requires nn.Valid()
    requires n <= xNorm.Length0 && n <= yNorm.Length0
    requires xNorm.Length1 == INPUT_NODES && yNorm.Length1 == OUTPUT_NODES
    requires indices.Length == n && InRange(indices[..], n)
    modifies nn.input, nn.hidden, nn.output, nn.weightsIH, nn.weightsHO, nn.biasH, nn.biasO
    ensures Pass(nn.Params(), epochLoss) == RunSamples(old(nn.Params()), Rows(xNorm, n), Rows(yNorm, n), indices[..])
  {
    ghost var p := nn.Params();
    ghost var xs, ys := Rows(xNorm, n), Rows(yNorm, n);
    ghost var order := indices[..];
    epochLoss := 0.0;
    for k := 0 to n
      invariant Pass(nn.Params(), epochLoss) == RunSamples(p, xs, ys, order[..k])
    {
      ghost var before := Pass(nn.Params(), epochLoss);
      var r := indices[k];
      assert r == order[k] && 0 <= r < n;
      var xr, yr := Row(xNorm, r), Row(yNorm, r);
      assert xr == xs[r] && yr == ys[r];
      var loss := TrainSample(nn, xr, yr);
      epochLoss := epochLoss + loss;
      RunSamplesSnoc(p, xs, ys, order, k);
    }
    assert order[..n] == order;
  }

  /** One epoch (main.c:220-231): shuffle `indices`, then train in the new order. */
  method RunEpoch(nn: NeuralNetwork, xNorm: array2<real>, yNorm: array2<real>, n: nat, indices: array<int>, rolls: seq<nat>)
    returns (epochLoss: real)
    requires nn.Valid()
    requires n <= xNorm.Length0 && n <= yNorm.Length0
    requires xNorm.Length1 == INPUT_NODES && yNorm.Length1 == OUTPUT_NODES
    requires indices.Length == n && n <= |rolls| + 1 && IsIndexBijection(indices[..], n)
    modifies nn.input, nn.hidden, nn.output, nn.weightsIH, nn.weightsHO, nn.biasH, nn.biasO, indices
    ensures indices[..] == Shuffled(old(indices[..]), rolls) && IsIndexBijection(indices[..], n)
    ensures Pass(nn.Params(), epochLoss) == RunSamples(old(nn.Params()), Rows(xNorm, n), Rows(yNorm, n), indices[..])
  {
    ShuffleBijection(indices[..], rolls);
    ShuffleIndices(indices, rolls);
    epochLoss := TrainInOrder(nn, xNorm, yNorm, n, indices);
  }

  /**
   * Lines 216-236 of `main` after normalisation, for `n > 0` samples (`main`
   * returns before this point when `n == 0`). `rolls[e]` are the `rand()`
   * values of epoch `e`'s shuffle. `x_norm` and `y_norm` are only read.
   */
  method TrainingLoop(nn: NeuralNetwork, xNorm: array2<real>, yNorm: array2<real>, n: nat, rolls: seq<seq<nat>>)
    returns (indices: array<int>, losses: seq<real>)
    requires nn.Valid()
    requires 0 < n <= xNorm.Length0 && n <= yNorm.Length0
    requires xNorm.Length1 == INPUT_NODES && yNorm.Length1 == OUTPUT_NODES
    requires |rolls| == EPOCHS && RollsFor(rolls, n)
    modifies nn.input, nn.hidden, nn.output, nn.weightsIH, nn.weightsHO, nn.biasH, nn.biasO
    ensures fresh(indices) && unchanged(xNorm, yNorm)
    ensures Run(nn.Params(), indices[..], losses) == Epochs(old(nn.Params()), Rows(xNorm, n), Rows(yNorm, n), rolls, EPOCHS)
    ensures IsIndexBijection(indices[..], n) && |losses| == EPOCHS
  {
    ghost var p0 := nn.Params();
    ghost var xs, ys := Rows(xNorm, n), Rows(yNorm, n);
    indices := new int[n];
    for i := 0 to n
      modifies indices
      invariant forall k :: 0 <= k < i ==> indices[k] == k
    {
      indices[i] := i;
    }
    assert indices[..] == Iota(n);
    losses := [];
    for e := 0 to EPOCHS
      invariant Run(nn.Params(), indices[..], losses) == Epochs(p0, xs, ys, rolls, e)
    {
      var epochLoss := RunEpoch(nn, xNorm, yNorm, n, indices, rolls[e]);
      losses := losses + [Mse(epochLoss, n)];
    }
  }
}
