/** The BIBD incidence mask of bibd/bibd_layer.py: for a parameter `r` it is
    a 0/1 matrix with r * (r + 1) rows and r * r columns. Column r * o + p is
    the cell (o, p) of an r x r grid; each row is a line of the affine plane
    of order r. The mask is specified by line membership (`OnLine`) and built
    by the same three in-place passes over a zero matrix as the source. */
module BibdMask {
  import opened Modular
  import opened Matrices

  /** Number of rows (lines) of the mask. */
  function Rows(r: nat): nat { r * (r + 1) }

  /** Number of columns (grid cells) of the mask. */
  function Cols(r: nat): nat { r * r }

  /** Line `row` passes through cell `c = r * o + p`. Rows 0 .. r-1 are the
      grid rows (o fixed), rows r .. 2r-1 the grid columns (p fixed), and row
      r * (k + 1) + n, for a slope 1 <= k < r and an offset n < r, holds the
      cells with p == (k * o + n) mod r. */
  predicate OnLine(r: nat, row: nat, c: nat)
  {
    if r == 0 then false
    else
      var o, p := c / r, c % r;
      if row < r then o == row
      else if row < 2 * r then p == row - r
      else p == ((row / r - 1) * o + row % r) % r
  }

  /** The mask entry at (row, c): 1 on the line, 0 off it. */
  function Entry(r: nat, row: nat, c: nat): int
  {
    if OnLine(r, row, c) then 1 else 0
  }

  /** The whole mask as a matrix of rows. */
  function Mask(r: nat): seq<seq<int>>
  {
    seq(Rows(r), i requires 0 <= i => seq(Cols(r), j requires 0 <= j => Entry(r, i, j)))
  }

  /** Row `m < r` is the contiguous run of columns r * m .. r * m + r - 1. */
  lemma GridRowLine(r: nat, m: nat, c: nat)
    requires m < r
    ensures OnLine(r, m, c) <==> r * m <= c < r * m + r
  {
    if r * m <= c < r * m + r {
      DivModOfCell(r, m, c - r * m);
    }
  }

  /** Row r * (k + 1) + n, for 1 <= k < r and n < r, is the line of slope k
      and offset n, and it lies inside the mask. */
  lemma SlopeLine(r: nat, k: nat, n: nat, c: nat)
    requires 1 <= k < r && n < r
    ensures 2 * r <= r * (k + 1) + n < Rows(r)
    ensures OnLine(r, r * (k + 1) + n, c) <==> c % r == (k * (c / r) + n) % r
  {
    DivModOfCell(r, k + 1, n);
    MulMono(r, k + 2, r + 1);
    MulMono(r, 2, k + 1);
  }

  /** Cell (o, (k * o + n) mod r) of the grid lies on the line of slope k and
      offset n: the value the source stores in its transposed grids. */
  lemma SlopeCell(r: nat, k: nat, n: nat, o: nat)
    requires 1 <= k < r && n < r && o < r
    ensures var c := (k * o + n) % r + r * o;
      c < Cols(r) && c / r == o && OnLine(r, r * (k + 1) + n, c)
  {
    var q := (k * o + n) % r;
    var c := r * o + q;
    assert c == (k * o + n) % r + r * o;
    DivModOfCell(r, o, q);
    assert c / r == o && c % r == q;
    MulMono(r, o + 1, r);
    assert c < Cols(r);
    SlopeLine(r, k, n, c);
    assert (k * (c / r) + n) % r == q;
    assert OnLine(r, r * (k + 1) + n, c);
  }

  /** Grid coordinates of a cell c: c = r * o + p with o = c / r and
      p = c % r both below r. */
  lemma CellCoordinates(r: nat, c: nat)
    requires c < Cols(r)
    ensures r > 0 && 0 <= c / r < r && 0 <= c % r < r && c == r * (c / r) + c % r
  {
    if c / r >= r {
      MulMono(r, r, c / r);
    }
  }

  /** The three passes cover rows 0 .. r-1, r .. 2r-1 and 2r .. r(r+1)-1. */
  lemma PassRanges(r: nat)
    ensures 2 * r <= Rows(r) && (r > 0 ==> r * (r - 1 + 2) == Rows(r))
  {
    if r > 0 {
      MulMono(r, 2, r + 1);
    }
  }

  /** Rows m < r of the mask stay inside the column range. */
  lemma GridRowBounds(r: nat, m: nat)
    requires m < r
    ensures 0 <= r * m && r * m + r <= Cols(r) && m < Rows(r)
  {
    MulMono(r, m + 1, r);
    MulMono(r + 1, m + 1, r);
  }

  /** The columns pass 2 has written into row r + q after its first n steps. */
  ghost function StrideCells(r: nat, q: nat, n: nat): set<int>
  {
    set t | 0 <= t < n :: q + r * t
  }

  /** One more step of pass 2 adds column q + r * n, which is in range. */
  lemma StrideCellsStep(r: nat, q: nat, n: nat)
    requires q < r && n < r
    ensures StrideCells(r, q, n + 1) == StrideCells(r, q, n) + {q + r * n}
    ensures 0 <= q + r * n < Cols(r)
  {
    MulMono(r, n + 1, r);
  }

  /** After r steps, pass 2 has written exactly the line m, r <= m < 2r. */
  lemma StrideCellsLine(r: nat, m: nat)
    requires r <= m < 2 * r
    ensures forall j :: 0 <= j < Cols(r) ==> (j in StrideCells(r, m - r, r) <==> OnLine(r, m, j))
  {
    var q := m - r;
    forall j | 0 <= j < Cols(r)
      ensures j in StrideCells(r, q, r) <==> OnLine(r, m, j)
    {
      CellCoordinates(r, j);
      var o: int, p: int := j / r, j % r;
      if OnLine(r, m, j) {
        assert p == q && j == q + r * o;
      }
      if j in StrideCells(r, q, r) {
        var t :| 0 <= t < r && j == q + r * t;
        DivModOfCell(r, t, q);
      }
    }
  }

  /** A line other than a grid row meets each grid row in at most one cell. */
  lemma LineMeetsGridRowOnce(r: nat, row: nat, c: nat, c': nat)
    requires r <= row && OnLine(r, row, c) && OnLine(r, row, c') && c / r == c' / r
    ensures c == c'
  {
    assert c == r * (c / r) + c % r && c' == r * (c' / r) + c' % r;
  }

  /** Row n of the transposed grid of slope k lists exactly the cells of the
      line of slope k and offset n. */
  lemma SlopeGridRowIsLine(r: nat, k: nat, n: nat, grid: seq<seq<int>>)
    requires 1 <= k < r && n < r && IsSlopeGrid(r, k, grid)
    ensures forall j :: 0 <= j < Cols(r) ==> (j in grid[n] <==> OnLine(r, r * (k + 1) + n, j))
  {
    var row := r * (k + 1) + n;
    SlopeLine(r, k, n, 0);
    forall j | 0 <= j < Cols(r)
      ensures j in grid[n] <==> OnLine(r, row, j)
    {
      if OnLine(r, row, j) {
        CellCoordinates(r, j);
        var o := j / r;
        LineMeetsGridRowOnce(r, row, j, grid[n][o]);
      }
    }
  }

  /** `mols` is the transposed grid of slope `k`: an r x r table whose row n
      lists, for each grid row o, the one cell of that row on the line of
      slope k and offset n. */
  ghost predicate IsSlopeGrid(r: nat, k: nat, mols: seq<seq<int>>)
  {
    && |mols| == r
    && (forall n :: 0 <= n < r ==> |mols[n]| == r)
    && forall n, o :: 0 <= n < r && 0 <= o < r ==>
         0 <= mols[n][o] < Cols(r) && mols[n][o] / r == o && OnLine(r, r * (k + 1) + n, mols[n][o])
  }

  /** The value the source stores in cell (i, j) of the grid of slope k. */
  function GridValue(r: nat, k: nat, i: nat, j: nat): int
    requires r > 0
  {
    (k * i + j) % r + r * i
  }

  /** The grid of slope `k`, built row by row by appending (`grid` in the source). */
  method BuildGrid(r: nat, k: nat) returns (grid: seq<seq<int>>)
    requires 1 <= k < r
    ensures |grid| == r && forall i :: 0 <= i < r ==> |grid[i]| == r
    ensures forall i, j :: 0 <= i < r && 0 <= j < r ==>
      0 <= grid[i][j] < Cols(r) && grid[i][j] / r == i && OnLine(r, r * (k + 1) + j, grid[i][j])
  {
    grid := [];
    var i := 0;
    while i < r
      invariant 0 <= i <= r && |grid| == i
      invariant forall i' :: 0 <= i' < i ==> |grid[i']| == r
      invariant forall i', j :: 0 <= i' < i && 0 <= j < r ==> grid[i'][j] == GridValue(r, k, i', j)
    {
      var row: seq<int> := [];
      var j := 0;
      while j < r
        invariant 0 <= j <= r && |row| == j
        invariant forall j' :: 0 <= j' < j ==> row[j'] == GridValue(r, k, i, j')
      {
        row := row + [GridValue(r, k, i, j)];
        j := j + 1;
      }
      grid := grid + [row];
      i := i + 1;
    }
    forall i, j | 0 <= i < r && 0 <= j < r
      ensures 0 <= grid[i][j] < Cols(r) && grid[i][j] / r == i && OnLine(r, r * (k + 1) + j, grid[i][j])
    {
      SlopeCell(r, k, j, i);
    }
  }

  /** The grids of slopes 1 .. r-1, each transposed (`allgrids` in the source). */
  method BuildGrids(r: nat) returns (allgrids: seq<seq<seq<int>>>)
    ensures |allgrids| == if r == 0 then 0 else r - 1
    ensures forall m :: 0 <= m < |allgrids| ==> IsSlopeGrid(r, m + 1, allgrids[m])
  {
    allgrids := [];
    var k := 1;
    while k < r
      invariant 1 <= k <= if r == 0 then 1 else r
      invariant |allgrids| == k - 1
      invariant forall m :: 0 <= m < |allgrids| ==> IsSlopeGrid(r, m + 1, allgrids[m])
    {
      var grid := BuildGrid(r, k);
      var mols := Transpose(grid, r);
      assert IsSlopeGrid(r, k, mols) by {
        forall n, o | 0 <= n < r && 0 <= o < r
          ensures 0 <= mols[n][o] < Cols(r) && mols[n][o] / r == o && OnLine(r, r * (k + 1) + n, mols[n][o])
        {
          assert mols[n][o] == grid[o][n];
        }
      }
      allgrids := allgrids + [mols];
      k := k + 1;
    }
  }

  /** `target` is a matrix with the shape of `mask`. */
  ghost predicate SameShape(mask: array2<int>, target: seq<seq<int>>)
  {
    |target| == mask.Length0 && forall i :: 0 <= i < |target| ==> |target[i]| == mask.Length1
  }

  /** `mask` holds rows `0 .. done-1` of `target` and zeros from row `zero` on. */
  ghost predicate FilledUpTo(mask: array2<int>, target: seq<seq<int>>, done: nat, zero: nat)
    reads mask
    requires SameShape(mask, target)
  {
    && (forall i, j :: 0 <= i < done && i < mask.Length0 && 0 <= j < mask.Length1 ==> mask[i, j] == target[i][j])
    && (forall i, j :: zero <= i < mask.Length0 && 0 <= j < mask.Length1 ==> mask[i, j] == 0)
  }

  /** Row `row` of `target` is row `row` of `Mask(r)`. */
  ghost predicate TargetRow(r: nat, target: seq<seq<int>>, row: nat)
    requires row < |target|
  {
    forall j :: 0 <= j < |target[row]| ==> target[row][j] == Entry(r, row, j)
  }

  /** Every row of `Mask(r)` is a target row of the right width. */
  lemma MaskRows(r: nat)
    ensures |Mask(r)| == Rows(r)
    ensures forall i :: 0 <= i < Rows(r) ==> |Mask(r)[i]| == Cols(r) && TargetRow(r, Mask(r), i)
  {
  }

  /** Pass 1, one row: row m < r gets ones in columns r * m .. r * m + r - 1. */
  method FillGridRow(mask: array2<int>, r: nat, m: nat, ghost target: seq<seq<int>>)
    requires m < r && mask.Length0 == Rows(r) && mask.Length1 == Cols(r)
    requires SameShape(mask, target) && TargetRow(r, target, m)
    requires FilledUpTo(mask, target, m, m)
    modifies mask
    ensures FilledUpTo(mask, target, m + 1, m + 1)
  {
    GridRowBounds(r, m);
    var n := r * m;
    while n < r * m + r
      invariant r * m <= n <= r * m + r
      invariant FilledUpTo(mask, target, m, m + 1)
      invariant forall j :: 0 <= j < Cols(r) ==> mask[m, j] == if r * m <= j < n then 1 else 0
    {
      mask[m, n] := 1;
      n := n + 1;
    }
    forall j | 0 <= j < Cols(r) ensures mask[m, j] == target[m][j] {
      GridRowLine(r, m, j);
    }
  }

  /** Pass 2, one row: row m, r <= m < 2r, gets ones in columns (m - r) + r * n. */
  method FillGridColumn(mask: array2<int>, r: nat, m: nat, ghost target: seq<seq<int>>)
    requires r <= m < 2 * r && mask.Length0 == Rows(r) && mask.Length1 == Cols(r)
    requires SameShape(mask, target) && TargetRow(r, target, m)
    requires FilledUpTo(mask, target, m, m)
    modifies mask
    ensures FilledUpTo(mask, target, m + 1, m + 1)
  {
    PassRanges(r);
    ghost var written: set<int> := {};
    var n := 0;
    while n < r
      invariant 0 <= n <= r
      invariant FilledUpTo(mask, target, m, m + 1)
      invariant written == StrideCells(r, m - r, n)
      invariant forall j :: 0 <= j < Cols(r) ==> mask[m, j] == if j in written then 1 else 0
    {
      StrideCellsStep(r, m - r, n);
      mask[m, (m - r) + r * n] := 1;
      written := written + {(m - r) + r * n};
      n := n + 1;
    }
    StrideCellsLine(r, m);
  }

  /** Pass 3, one row: row r * (m + 2) + n gets a one at `grid[n][o]` for
      every o, where `grid` is the transposed grid of slope m + 1. */
  method FillSlopeLine(mask: array2<int>, r: nat, m: nat, n: nat, grid: seq<seq<int>>, ghost target: seq<seq<int>>)
    requires m + 1 < r && n < r && mask.Length0 == Rows(r) && mask.Length1 == Cols(r)
    requires IsSlopeGrid(r, m + 1, grid)
    requires r * (m + 2) + n < Rows(r)
    requires SameShape(mask, target) && TargetRow(r, target, r * (m + 2) + n)
    requires FilledUpTo(mask, target, r * (m + 2) + n, r * (m + 2) + n)
    modifies mask
    ensures FilledUpTo(mask, target, r * (m + 2) + n + 1, r * (m + 2) + n + 1)
  {
    var row := r * (m + 2) + n;
    var o := 0;
    while o < r
      invariant 0 <= o <= r
      invariant FilledUpTo(mask, target, row, row + 1)
      invariant forall j :: 0 <= j < Cols(r) ==> mask[row, j] == if j in grid[n][..o] then 1 else 0
    {
      assert grid[n][..o + 1] == grid[n][..o] + [grid[n][o]];
      mask[row, grid[n][o]] := 1;
      o := o + 1;
    }
    assert grid[n][..r] == grid[n];
    SlopeGridRowIsLine(r, m + 1, n, grid);
  }

  /** Pass 3, one group: rows r * (m + 2) .. r * (m + 2) + r - 1 are the
      lines of slope m + 1. */
  method FillSlopeGroup(mask: array2<int>, r: nat, m: nat, grid: seq<seq<int>>, ghost target: seq<seq<int>>)
    requires m + 1 < r && mask.Length0 == Rows(r) && mask.Length1 == Cols(r)
    requires IsSlopeGrid(r, m + 1, grid)
    requires SameShape(mask, target) && forall i :: 0 <= i < |target| ==> TargetRow(r, target, i)
    requires FilledUpTo(mask, target, r * (m + 2), r * (m + 2))
    modifies mask
    ensures FilledUpTo(mask, target, r * (m + 3), r * (m + 3))
  {
    var n := 0;
    while n < r
      invariant 0 <= n <= r
      invariant FilledUpTo(mask, target, r * (m + 2) + n, r * (m + 2) + n)
    {
      SlopeLine(r, m + 1, n, 0);
      FillSlopeLine(mask, r, m, n, grid, target);
      n := n + 1;
    }
    assert r * (m + 2) + r == r * (m + 3);
  }

  /** Pass 1: rows 0 .. r-1, the grid rows. */
  method FillGridRows(mask: array2<int>, r: nat, ghost target: seq<seq<int>>)
    requires mask.Length0 == Rows(r) && mask.Length1 == Cols(r)
    requires SameShape(mask, target) && forall i :: 0 <= i < |target| ==> TargetRow(r, target, i)
    requires FilledUpTo(mask, target, 0, 0)
    modifies mask
    ensures FilledUpTo(mask, target, r, r)
  {
    var m := 0;
    while m < r
      invariant 0 <= m <= r
      invariant FilledUpTo(mask, target, m, m)
    {
      FillGridRow(mask, r, m, target);
      m := m + 1;
    }
  }

  /** Pass 2: rows r .. 2r-1, the grid columns. */
  method FillGridColumns(mask: array2<int>, r: nat, ghost target: seq<seq<int>>)
    requires mask.Length0 == Rows(r) && mask.Length1 == Cols(r)
    requires SameShape(mask, target) && forall i :: 0 <= i < |target| ==> TargetRow(r, target, i)
    requires FilledUpTo(mask, target, r, r)
    modifies mask
    ensures FilledUpTo(mask, target, 2 * r, 2 * r)
  {
    PassRanges(r);
    var m := r;
    while m < 2 * r
      invariant r <= m <= 2 * r
      invariant FilledUpTo(mask, target, m, m)
    {
      FillGridColumn(mask, r, m, target);
      m := m + 1;
    }
  }

  /** Pass 3: rows 2r .. r(r+1)-1, one group of r lines for each slope
      1 .. r-1, read off the transposed grids. */
  method FillSlopeGroups(mask: array2<int>, r: nat, allgrids: seq<seq<seq<int>>>, ghost target: seq<seq<int>>)
    requires mask.Length0 == Rows(r) && mask.Length1 == Cols(r)
    requires |allgrids| == if r == 0 then 0 else r - 1
    requires forall m :: 0 <= m < |allgrids| ==> IsSlopeGrid(r, m + 1, allgrids[m])
    requires SameShape(mask, target) && forall i :: 0 <= i < |target| ==> TargetRow(r, target, i)
    requires FilledUpTo(mask, target, r * 2, r * 2)
    modifies mask
    ensures FilledUpTo(mask, target, Rows(r), Rows(r))
  {
    PassRanges(r);
    var m := 0;
    while m < r - 1
      invariant 0 <= m <= if r == 0 then 0 else r - 1
      invariant FilledUpTo(mask, target, r * (m + 2), r * (m + 2))
    {
      FillSlopeGroup(mask, r, m, allgrids[m], target);
      m := m + 1;
    }
  }

  /** `generate_bibd_mask(r)`: a zero matrix of r * (r + 1) rows and r * r
      columns, set to 1 in three passes (grid rows, grid columns, one group of
      r lines per slope 1 .. r-1). The result is exactly `Mask(r)`. */
  method GenerateBibdMask(r: nat) returns (mask: array2<int>)
    ensures fresh(mask)
    ensures mask.Length0 == Rows(r) && mask.Length1 == Cols(r)
    ensures forall i, j :: 0 <= i < Rows(r) && 0 <= j < Cols(r) ==> mask[i, j] == Mask(r)[i][j]
    ensures forall i, j :: 0 <= i < Rows(r) && 0 <= j < Cols(r) ==> mask[i, j] == 0 || mask[i, j] == 1
  {
    mask := new int[Rows(r), Cols(r)]((i, j) => 0);
    ghost var target := Mask(r);
    MaskRows(r);
    var allgrids := BuildGrids(r);
    FillGridRows(mask, r, target);
    FillGridColumns(mask, r, target);
    assert 2 * r == r * 2;
    FillSlopeGroups(mask, r, allgrids, target);
  }
}
