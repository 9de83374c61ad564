# BIBD-masked linear layer

This project models `bibd/bibd_layer.py`. That file holds the building block of a
ResNet whose fully connected layers are sparsified by a balanced incomplete block
design (BIBD). It has two parts.

- `generate_bibd_mask(r)` builds a 0/1 incidence matrix with `r * (r + 1)` rows
  and `r * r` columns. Column `r * o + p` is the cell `(o, p)` of an `r x r` grid.
  Each row is a line of the affine plane of order `r`:
  - rows `0 .. r-1` are the grid rows;
  - rows `r .. 2r-1` are the grid columns;
  - for each slope `k = 1 .. r-1` there is a group of `r` rows. Row
    `r * (k + 1) + n` is the line of slope `k` and offset `n`, that is the cells
    `(o, (k * o + n) mod r)`. These rows are read off the transposed grids
    `((k * i + j) % r) + r * i`.
- `BibdLinear` is a bias-free linear layer. Its mask is the transposed incidence
  matrix. `forward(x)` multiplies a copy of the weight entrywise by the mask and
  returns `x` times the transpose of that copy.

The Dafny modules follow that split:

- `BibdMask` (`bibd_mask.dfy`) specifies the mask by line membership (`OnLine`,
  `Mask`). It builds the mask in place in an `array2`, with the same grid-building
  loops and three filling passes as the source. `GenerateBibdMask` is proved to
  return exactly `Mask(r)`.
- `BibdDesign` (`bibd_design.dfy`) proves the combinatorial facts about `Mask(r)`:
  - the exact column set of each row in each pass;
  - `r` ones per row and `r + 1` ones per column;
  - the worked example for `r = 2`;
  - balance (two distinct columns share exactly one row) when `r` is prime;
  - its failure for `r = 4`.
- `MaskedLinear` (`bibd_linear.dfy`) models the layer as a datatype value and
  `forward` as a function over matrices of reals. It proves that `forward` is the
  masked sum, that weights under a zero of the mask are inert, and how a change
  of one weight moves the output.
- `Modular` (`modular.dfy`) holds the arithmetic these proofs share:
  - congruences modulo `r`;
  - sums over index ranges;
  - the modular inverse modulo a prime, via the extended Euclidean algorithm.

The doc comment of `generate_bibd_mask` says `r` may be a prime power. The code
reduces modulo `r`, and for a prime power that is not prime, `mod r` is not field
arithmetic. The model follows the code: balance is proved for prime `r`, and
`UnbalancedForFour` exhibits two columns of the `r = 4` mask that share two rows.

`forward` is a function of the layer value, so the layer's weight is the same
value after the call. This matches the source, which applies the in-place `mul_`
only to a clone of the weight.

## Model

| member | source | states |
|---|---|---|
| BibdMask.GenerateBibdMask | bibd/bibd_layer.py:61-100 | the mask is a newly allocated array with r(r+1) rows and r*r columns, every entry is 0 or 1, and entry (i, j) is 1 exactly when line i passes through cell j (`Mask(r)`) |
| BibdMask.BuildGrid | bibd/bibd_layer.py:77-83 | the grid of slope k is r x r; entry (i, j) is a column in range, lies in grid row i, and lies on the line of slope k and offset j |
| BibdMask.BuildGrids | bibd/bibd_layer.py:75-85 | there are r - 1 transposed grids; row n of grid k - 1 lists, for each grid row o, a cell of grid row o on the line of slope k and offset n |
| BibdMask.FillGridRow | bibd/bibd_layer.py:88-89 | after the inner loop for row m < r, row m equals its target row and later rows are still zero |
| BibdMask.FillGridRows | bibd/bibd_layer.py:87-89 | pass 1 leaves rows 0 .. r-1 equal to `Mask(r)` and all later rows zero |
| BibdMask.FillGridColumn | bibd/bibd_layer.py:92-93 | after the inner loop for row m (r <= m < 2r), row m equals its target row and later rows are still zero |
| BibdMask.FillGridColumns | bibd/bibd_layer.py:91-93 | pass 2 leaves rows 0 .. 2r-1 equal to `Mask(r)` and all later rows zero |
| BibdMask.FillSlopeLine | bibd/bibd_layer.py:97-98 | writing `allgrids[m][n][o]` for all o into row r(m+2)+n makes that row equal to the line of slope m+1 and offset n |
| BibdMask.FillSlopeGroup | bibd/bibd_layer.py:96-98 | one group of pass 3 fills rows r(m+2) .. r(m+3)-1 with their target rows |
| BibdMask.FillSlopeGroups | bibd/bibd_layer.py:95-98 | pass 3 leaves all r(r+1) rows equal to `Mask(r)` |
| BibdMask.GridRowLine | bibd/bibd_layer.py:87-89 | row m < r passes through column c if and only if r*m <= c < r*m + r |
| BibdMask.SlopeLine | bibd/bibd_layer.py:95-98 | for 1 <= k < r and n < r, row r(k+1)+n lies in 2r .. r(r+1)-1 and holds c if and only if c mod r == (k * (c div r) + n) mod r |
| BibdMask.SlopeCell | bibd/bibd_layer.py:81 | the stored value ((k*o + n) % r) + r*o is a column in range, lies in grid row o, and lies on the line of slope k and offset n |
| BibdMask.StrideCellsStep | bibd/bibd_layer.py:93 | every column (m - r) + r*n written by pass 2 is in range, and each step adds exactly that column |
| BibdMask.StrideCellsLine | bibd/bibd_layer.py:91-93 | after r steps, the columns pass 2 wrote into row m are exactly the columns on line m |
| BibdMask.SlopeGridRowIsLine | bibd/bibd_layer.py:84-98 | row n of the transposed grid of slope k contains column j if and only if j is on line r(k+1)+n |
| BibdMask.LineMeetsGridRowOnce | bibd/bibd_layer.py:81 | a line other than a grid row meets each grid row in at most one cell |
| BibdMask.GridRowBounds | bibd/bibd_layer.py:88 | the columns r*m .. r*m + r - 1 written for row m < r are within the r*r columns |
| BibdDesign.GridRowOnes | bibd/bibd_layer.py:87-89 | the ones of row m < r are exactly the columns r*m .. r*m + r - 1 |
| BibdDesign.GridColumnOnes | bibd/bibd_layer.py:91-93 | the ones of row m (r <= m < 2r) are exactly the columns (m - r) + r*n for n < r |
| BibdDesign.SlopeRowOnes | bibd/bibd_layer.py:76-98 | the ones of row r(k+1)+n are exactly the columns ((k*o + n) % r) + r*o for o < r |
| BibdDesign.RowSum | bibd/bibd_layer.py:87-98 | every row of the mask sums to r |
| BibdDesign.RowOnesCount | bibd/bibd_layer.py:87-98 | every row of the mask has exactly r columns holding a one |
| BibdDesign.WritesDistinct | bibd/bibd_layer.py:87-98 | in each pass, the column written at step t of a row's inner loop (r*m + t, (m - r) + r*t, or `allgrids[m][n][t]`) holds a one of that row, and two different steps write two different columns |
| BibdDesign.LineCellInGridRow | bibd/bibd_layer.py:91-98 | a row of pass 2 or pass 3 passes through exactly one cell of each grid row o, a column in r*o .. r*o + r - 1 |
| BibdDesign.RowOnesOfOtherLine | bibd/bibd_layer.py:91-98 | every row of pass 2 or pass 3 sums to r |
| BibdDesign.ColumnSum | bibd/bibd_layer.py:87-98 | every column of the mask holds exactly r + 1 ones |
| BibdDesign.LineThroughCellInGroup | bibd/bibd_layer.py:87-98 | in each of the r + 1 groups of r rows, exactly one row passes through a given cell |
| BibdDesign.MaskOfTwo | bibd/bibd_layer.py:64-71 | for r = 2 the mask is [[1,1,0,0],[0,0,1,1],[1,0,1,0],[0,1,0,1],[1,0,0,1],[0,1,1,0]] |
| BibdDesign.Balanced | bibd/bibd_layer.py:62-63 | for prime r, any two distinct columns share exactly one row: the set of common rows is a singleton |
| BibdDesign.BalancedSameGridRow | bibd/bibd_layer.py:87-89 | two cells of one grid row share only that grid row |
| BibdDesign.BalancedSameGridColumn | bibd/bibd_layer.py:91-93 | for prime r, two cells of one grid column share only that grid column |
| BibdDesign.BalancedSlope | bibd/bibd_layer.py:76-98 | for prime r, two cells in different grid rows and columns share exactly one row, a line of pass 3 |
| BibdDesign.UnbalancedForFour | bibd/bibd_layer.py:63 | for r = 4, columns 0 and 8 share rows 4 and 12, so the prime-power claim fails |
| MaskedLinear.NewBibdLinear | bibd/bibd_layer.py:39-51 | given a weight of shape (r*r, r(r+1)), the layer keeps that weight, and its mask is the transpose of generate_bibd_mask(r) |
| MaskedLinear.ForwardIsMaskedSum | bibd/bibd_layer.py:54-58 | forward(x) has one row of output_features entries per input row, and out[b][o] is the sum over i of x[b][i] * weight[o][i] * mask[o][i] |
| MaskedLinear.MaskedWeightsInert | bibd/bibd_layer.py:56-58 | two weights that agree wherever the mask is non-zero give the same forward output |
| MaskedLinear.MaskedInputsInert | bibd/bibd_layer.py:56-58 | output o ignores the inputs i with mask[o][i] == 0 |
| MaskedLinear.ForwardWeightUpdate | bibd/bibd_layer.py:56-58 | adding delta to weight[o][i] adds x[b][i] * delta * mask[o][i] to out[b][o] and changes no other output |
| MaskedLinear.DotIsMaskedSum | bibd/bibd_layer.py:58 | the dot product of an input row with a masked weight row equals the masked sum |

## Left out

- Negative `r`: for r < 0 the sizes r(r+1) and r*r are still non-negative and every loop is empty, so the source returns an all-zero r(r+1) x r*r matrix. The model takes `r: nat` and does not represent that case.
- Number types: numpy builds the mask as floats (`1.`), which the model stores as the integers 0 and 1. `forward` is computed over exact reals, without floating-point rounding or the float32/float64 mix of the tensors.
- `BibdLinear.__init__`: the random Kaiming initialisation (line 49) is not modelled. The initial weight is a parameter of `NewBibdLinear`.
- `BibdLinear.__init__`: the device placement (`.cuda()`) and the `nn.Parameter` / `requires_grad` wrapping (lines 44, 48, 50-51) are framework calls and are not modelled.
- NewBibdLinear: the source never checks that the weight shape equals the mask's transposed shape. The model requires it. For other shapes, PyTorch broadcasting (mask dimensions of size 1, for example when r = 1) or a runtime error is not modelled.
- Forward: only two-dimensional batches `x` are modelled. `matmul` on one-dimensional or higher-rank inputs is not.
- Forward: the clone and the in-place `mul_` are modelled as a new value (`Hadamard`). A function over values cannot alias the weight, so "the weight is unchanged" holds by construction and is not a separate lemma.
- The commented-out autograd `bibdLinear` Function (lines 7-35) is dead code. Gradients belong to PyTorch's autodiff.
- Balanced: balance is proved only for prime `r`, weaker than the doc comment's prime-power claim. The claim is false for the code as written (see `UnbalancedForFour`). A prime-power version would need field arithmetic that the code does not do.
- `resnet/main.py` (training harness) and `resnet/ensemble.py` (AdaBoost wrapper) are not part of this model. They are I/O, framework and float code.
