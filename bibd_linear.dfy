/** BibdLinear of bibd/bibd_layer.py: a linear layer without bias whose
    weight (output_features x input_features) is multiplied entrywise by the
    transposed BIBD mask before the product, so that output o only sees the
    inputs whose lines pass through cell o. Arithmetic is exact (`real`),
    not floating point. */
module MaskedLinear {
  import opened BibdMask
  import opened Matrices

  type Matrix = seq<seq<real>>

  /** `m` has `rows` rows of `cols` entries each. */
  predicate IsMatrix(m: Matrix, rows: nat, cols: nat)
  {
    |m| == rows && forall i :: 0 <= i < rows ==> |m[i]| == cols
  }

  /** The layer's state: its sizes, its weight and its mask, both indexed
      [output][input]. */
  datatype BibdLinear = BibdLinear(inputFeatures: nat, outputFeatures: nat, weight: Matrix, mask: Matrix)
  {
    /** Weight and mask have the shape output_features x input_features. */
    predicate Valid()
    {
      IsMatrix(weight, outputFeatures, inputFeatures) && IsMatrix(mask, outputFeatures, inputFeatures)
    }
  }

  /** `__init__`: the mask is generate_bibd_mask(number_of_block) transposed.
      The weight's random initial value is a parameter. The shape of the
      weight is required to be that of the transposed mask. */
  method NewBibdLinear(inputFeatures: nat, outputFeatures: nat, numberOfBlock: nat, initialWeight: Matrix)
    returns (layer: BibdLinear)
    requires outputFeatures == Cols(numberOfBlock) && inputFeatures == Rows(numberOfBlock)
    requires IsMatrix(initialWeight, outputFeatures, inputFeatures)
    ensures layer.Valid()
    ensures layer.inputFeatures == inputFeatures && layer.outputFeatures == outputFeatures
    ensures layer.weight == initialWeight
    ensures forall o, i :: 0 <= o < outputFeatures && 0 <= i < inputFeatures ==>
      layer.mask[o][i] == Mask(numberOfBlock)[i][o] as real
  {
    var bibd := GenerateBibdMask(numberOfBlock);
    var mask := seq(outputFeatures, o requires 0 <= o < outputFeatures reads bibd =>
      seq(inputFeatures, i requires 0 <= i < inputFeatures reads bibd => bibd[i, o] as real));
    layer := BibdLinear(inputFeatures, outputFeatures, initialWeight, mask);
  }

  /** Dot product, summed from the last entry back. */
  function Dot(u: seq<real>, v: seq<real>): real
    requires |u| == |v|
  {
    if |u| == 0 then 0.0 else Dot(u[..|u| - 1], v[..|v| - 1]) + u[|u| - 1] * v[|v| - 1]
  }

  /** Entrywise product of two matrices of the same shape (`mul_`). */
  function Hadamard(a: Matrix, b: Matrix, rows: nat, cols: nat): Matrix
    requires IsMatrix(a, rows, cols) && IsMatrix(b, rows, cols)
  {
    seq(rows, i requires 0 <= i < rows => seq(cols, j requires 0 <= j < cols => a[i][j] * b[i][j]))
  }

  /** Matrix product of an n x k and a k x m matrix (`matmul`). */
  function MatMul(a: Matrix, b: Matrix, k: nat, m: nat): Matrix
    requires forall i :: 0 <= i < |a| ==> |a[i]| == k
    requires IsMatrix(b, k, m)
  {
    seq(|a|, i requires 0 <= i < |a| => seq(m, j requires 0 <= j < m => Dot(a[i], Column(b, j))))
  }

  /** `forward(x)`: a copy of the weight is multiplied by the mask and the
      batch `x` is multiplied by the transpose of that copy. */
  function Forward(layer: BibdLinear, x: Matrix): Matrix
    requires layer.Valid()
    requires forall b :: 0 <= b < |x| ==> |x[b]| == layer.inputFeatures
  {
    var copy := Hadamard(layer.weight, layer.mask, layer.outputFeatures, layer.inputFeatures);
    MatMul(x, Transpose(copy, layer.inputFeatures), layer.inputFeatures, layer.outputFeatures)
  }

  /** The masked weighted sum of one input row against one weight row,
      summed from the first entry on: sum over i of x[i] * w[i] * m[i]. */
  function MaskedSum(x: seq<real>, w: seq<real>, m: seq<real>): real
    requires |x| == |w| == |m|
  {
    if |x| == 0 then 0.0 else x[0] * w[0] * m[0] + MaskedSum(x[1..], w[1..], m[1..])
  }

  /** MaskedSum can also be peeled from the last entry. */
  lemma {:induction false} MaskedSumLast(x: seq<real>, w: seq<real>, m: seq<real>)
    requires |x| == |w| == |m| > 0
    ensures MaskedSum(x, w, m)
      == MaskedSum(x[..|x| - 1], w[..|w| - 1], m[..|m| - 1]) + x[|x| - 1] * w[|w| - 1] * m[|m| - 1]
  {
    if |x| > 1 {
      var n := |x|;
      MaskedSumLast(x[1..], w[1..], m[1..]);
      assert x[1..][..n - 2] == x[..n - 1][1..];
      assert w[1..][..n - 2] == w[..n - 1][1..];
      assert m[1..][..n - 2] == m[..n - 1][1..];
    }
  }

  /** The dot product of x with the entrywise product of w and m is the
      masked sum. */
  lemma {:induction false} DotIsMaskedSum(x: seq<real>, w: seq<real>, m: seq<real>, wm: seq<real>)
    requires |x| == |w| == |m| == |wm|
    requires forall i :: 0 <= i < |wm| ==> wm[i] == w[i] * m[i]
    ensures Dot(x, wm) == MaskedSum(x, w, m)
  {
    if |x| > 0 {
      var n := |x| - 1;
      DotIsMaskedSum(x[..n], w[..n], m[..n], wm[..n]);
      MaskedSumLast(x, w, m);
      assert x[n] * wm[n] == x[n] * w[n] * m[n];
    }
  }

  /** Output (b, o) of `forward` is the sum over the inputs i of
      x[b][i] * weight[o][i] * mask[o][i]; the result has one row of
      output_features entries per input row. */
  lemma ForwardIsMaskedSum(layer: BibdLinear, x: Matrix)
    requires layer.Valid()
    requires forall b :: 0 <= b < |x| ==> |x[b]| == layer.inputFeatures
    ensures IsMatrix(Forward(layer, x), |x|, layer.outputFeatures)
    ensures forall b, o :: 0 <= b < |x| && 0 <= o < layer.outputFeatures ==>
      Forward(layer, x)[b][o] == MaskedSum(x[b], layer.weight[o], layer.mask[o])
  {
    var copy := Hadamard(layer.weight, layer.mask, layer.outputFeatures, layer.inputFeatures);
    var t := Transpose(copy, layer.inputFeatures);
    forall b, o | 0 <= b < |x| && 0 <= o < layer.outputFeatures
      ensures Forward(layer, x)[b][o] == MaskedSum(x[b], layer.weight[o], layer.mask[o])
    {
      assert Column(t, o) == copy[o];
      DotIsMaskedSum(x[b], layer.weight[o], layer.mask[o], copy[o]);
    }
  }

  /** Two masked sums whose terms agree are equal. */
  lemma {:induction false} MaskedSumTermwise(x: seq<real>, w: seq<real>, m: seq<real>, x': seq<real>, w': seq<real>, m': seq<real>)
    requires |x| == |w| == |m| == |x'| == |w'| == |m'|
    requires forall i :: 0 <= i < |x| ==> x[i] * w[i] * m[i] == x'[i] * w'[i] * m'[i]
    ensures MaskedSum(x, w, m) == MaskedSum(x', w', m')
  {
    if |x| > 0 {
      MaskedSumTermwise(x[1..], w[1..], m[1..], x'[1..], w'[1..], m'[1..]);
    }
  }

  /** Weight entries under a zero of the mask never affect the output: two
      weights that agree wherever the mask is non-zero give the same
      `forward`. */
  lemma MaskedWeightsInert(layer: BibdLinear, weight': Matrix, x: Matrix)
    requires layer.Valid() && IsMatrix(weight', layer.outputFeatures, layer.inputFeatures)
    requires forall o, i :: 0 <= o < layer.outputFeatures && 0 <= i < layer.inputFeatures && layer.mask[o][i] != 0.0 ==>
      weight'[o][i] == layer.weight[o][i]
    requires forall b :: 0 <= b < |x| ==> |x[b]| == layer.inputFeatures
    ensures Forward(layer.(weight := weight'), x) == Forward(layer, x)
  {
    var layer' := layer.(weight := weight');
    ForwardIsMaskedSum(layer, x);
    ForwardIsMaskedSum(layer', x);
    forall b | 0 <= b < |x| ensures Forward(layer', x)[b] == Forward(layer, x)[b] {
      forall o | 0 <= o < layer.outputFeatures
        ensures Forward(layer', x)[b][o] == Forward(layer, x)[b][o]
      {
        MaskedSumTermwise(x[b], weight'[o], layer.mask[o], x[b], layer.weight[o], layer.mask[o]);
      }
    }
  }

  /** Dually, output o ignores every input i with mask[o][i] == 0: two
      input rows that agree on the inputs connected to o give the same
      output o. */
  lemma MaskedInputsInert(layer: BibdLinear, x: Matrix, x': Matrix, b: nat, o: nat)
    requires layer.Valid() && |x| == |x'| && b < |x| && o < layer.outputFeatures
    requires forall c :: 0 <= c < |x| ==> |x[c]| == layer.inputFeatures && |x'[c]| == layer.inputFeatures
    requires forall i :: 0 <= i < layer.inputFeatures && layer.mask[o][i] != 0.0 ==> x'[b][i] == x[b][i]
    ensures Forward(layer, x')[b][o] == Forward(layer, x)[b][o]
  {
    ForwardIsMaskedSum(layer, x);
    ForwardIsMaskedSum(layer, x');
    MaskedSumTermwise(x'[b], layer.weight[o], layer.mask[o], x[b], layer.weight[o], layer.mask[o]);
  }

  /** Adding delta to the one entry i of w adds x[i] * delta * m[i] to the
      masked sum. */
  lemma {:induction false} MaskedSumUpdate(x: seq<real>, w: seq<real>, m: seq<real>, i: nat, delta: real)
    requires |x| == |w| == |m| && i < |w|
    ensures MaskedSum(x, w[i := w[i] + delta], m) == MaskedSum(x, w, m) + x[i] * delta * m[i]
  {
    var w' := w[i := w[i] + delta];
    if i == 0 {
      assert w'[1..] == w[1..];
    } else {
      assert w'[1..] == w[1..][i - 1 := w[i] + delta];
      MaskedSumUpdate(x[1..], w[1..], m[1..], i - 1, delta);
    }
  }

  /** Changing weight[o][i] by delta changes output (b, o) by
      x[b][i] * delta * mask[o][i] and leaves every other output as it was;
      under a zero of the mask nothing changes. */
  lemma ForwardWeightUpdate(layer: BibdLinear, x: Matrix, o: nat, i: nat, delta: real)
    requires layer.Valid() && o < layer.outputFeatures && i < layer.inputFeatures
    requires forall b :: 0 <= b < |x| ==> |x[b]| == layer.inputFeatures
    ensures var w := layer.weight;
      var layer' := layer.(weight := w[o := w[o][i := w[o][i] + delta]]);
      && layer'.Valid()
      && forall b, o' :: 0 <= b < |x| && 0 <= o' < layer.outputFeatures ==>
        Forward(layer', x)[b][o'] == Forward(layer, x)[b][o'] + (if o' == o then x[b][i] * delta * layer.mask[o][i] else 0.0)
  {
    var w := layer.weight;
    var layer' := layer.(weight := w[o := w[o][i := w[o][i] + delta]]);
    ForwardIsMaskedSum(layer, x);
    ForwardIsMaskedSum(layer', x);
    forall b | 0 <= b < |x| {
      MaskedSumUpdate(x[b], w[o], layer.mask[o], i, delta);
    }
  }
}
