/** Matrices as sequences of rows, shared by the mask (numpy `.T`, a column
    of the mask) and the layer (`.t()`, a column of the weight). */
module Matrices {
  /** `g` transposed; `w` is the common length of its rows. */
  function Transpose<T>(g: seq<seq<T>>, w: nat): seq<seq<T>>
    requires forall i :: 0 <= i < |g| ==> |g[i]| == w
  {
    seq(w, n requires 0 <= n < w => seq(|g|, o requires 0 <= o < |g| => g[o][n]))
  }

  /** Column `c` of a matrix whose rows are at least `c + 1` wide. */
  function Column<T>(m: seq<seq<T>>, c: nat): seq<T>
    requires forall i :: 0 <= i < |m| ==> c < |m[i]|
  {
    seq(|m|, i requires 0 <= i < |m| => m[i][c])
  }
}
