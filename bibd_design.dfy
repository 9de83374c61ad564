/** What the mask of `generate_bibd_mask` is as a block design: every row
    holds r ones, every column r + 1 ones, and, when r is prime, every two
    columns share exactly one row (a 2-(r*r, r, 1) design). */
module BibdDesign {
  import opened Modular
  import opened BibdMask
  import opened Matrices

  /** Sum of a sequence of integers. */
  function Sum(s: seq<int>): int
  {
    if |s| == 0 then 0 else Sum(s[..|s| - 1]) + s[|s| - 1]
  }

  lemma {:induction false} SumIsSumOver(s: seq<int>, f: nat -> int)
    requires forall i :: 0 <= i < |s| ==> s[i] == f(i)
    ensures Sum(s) == SumOver(0, |s|, f)
  {
    if |s| > 0 {
      SumIsSumOver(s[..|s| - 1], f);
    }
  }

  /** The columns holding a one in a row of the mask. */
  ghost function Ones(row: seq<int>): set<int>
  {
    set j | 0 <= j < |row| && row[j] == 1
  }

  /** Pass 1: row m < r has its ones exactly in columns r * m .. r * m + r - 1. */
  lemma GridRowOnes(r: nat, m: nat)
    requires m < r
    ensures forall j :: j in Ones(Mask(r)[m]) <==> r * m <= j < r * m + r
  {
    GridRowBounds(r, m);
    forall j ensures j in Ones(Mask(r)[m]) <==> r * m <= j < r * m + r {
      if 0 <= j < Cols(r) {
        GridRowLine(r, m, j);
      }
    }
  }

  /** Pass 2: row m, r <= m < 2r, has its ones exactly in columns
      (m - r) + r * n for n < r. */
  lemma GridColumnOnes(r: nat, m: nat)
    requires r <= m < 2 * r
    ensures Ones(Mask(r)[m]) == set n | 0 <= n < r :: (m - r) + r * n
  {
    PassRanges(r);
    StrideCellsLine(r, m);
    forall j ensures j in Ones(Mask(r)[m]) <==> j in StrideCells(r, m - r, r) {
      if j in StrideCells(r, m - r, r) {
        var t :| 0 <= t < r && j == (m - r) + r * t;
        StrideCellsStep(r, m - r, t);
      }
    }
  }

  /** The cells (o, (k * o + n) mod r), o < r, as columns. */
  ghost function SlopeCells(r: nat, k: nat, n: nat): set<int>
    requires r > 0
  {
    set o | 0 <= o < r :: (k * o + n) % r + r * o
  }

  /** Pass 3: row r * (k + 1) + n, the line of slope k and offset n, has its
      ones exactly in the cells (o, (k * o + n) mod r), that is in columns
      (k * o + n) % r + r * o for o < r. */
  lemma SlopeRowOnes(r: nat, k: nat, n: nat)
    requires 1 <= k < r && n < r
    ensures r * (k + 1) + n < Rows(r)
    ensures Ones(Mask(r)[r * (k + 1) + n]) == SlopeCells(r, k, n)
  {
    var row := r * (k + 1) + n;
    SlopeLine(r, k, n, 0);
    forall j ensures j in Ones(Mask(r)[row]) <==> j in SlopeCells(r, k, n) {
      if j in Ones(Mask(r)[row]) {
        var o := SlopeRowCell(r, k, n, j);
      }
      if j in SlopeCells(r, k, n) {
        var o :| 0 <= o < r && j == (k * o + n) % r + r * o;
        SlopeCell(r, k, n, o);
      }
    }
  }

  /** A column on the line of slope k and offset n is the cell of grid row
      o = c / r at offset (k * o + n) mod r. */
  lemma SlopeRowCell(r: nat, k: nat, n: nat, c: nat) returns (o: int)
    requires 1 <= k < r && n < r && c < Cols(r) && OnLine(r, r * (k + 1) + n, c)
    ensures 0 <= o < r && c == (k * o + n) % r + r * o
  {
    CellCoordinates(r, c);
    SlopeLine(r, k, n, c);
    o := c / r;
  }

  /** A line that is not a grid row passes through exactly one cell of grid
      row o, and that cell lies in columns r * o .. r * o + r - 1. */
  lemma LineCellInGridRow(r: nat, row: nat, o: nat) returns (c: nat)
    requires r <= row < Rows(r) && o < r
    ensures r * o <= c < r * o + r && OnLine(r, row, c)
    ensures forall j :: r * o <= j < r * o + r && OnLine(r, row, j) ==> j == c
  {
    var p: int := if row < 2 * r then row - r else ((row / r - 1) * o + row % r) % r;
    assert 0 <= p < r;
    c := r * o + p;
    DivModOfCell(r, o, p);
    forall j | r * o <= j < r * o + r && OnLine(r, row, j) ensures j == c {
      DivModOfCell(r, o, j - r * o);
      LineMeetsGridRowOnce(r, row, j, c);
    }
  }

  /** Ones in row i, counted over the columns. */
  function RowOnes(r: nat, i: nat): int
  {
    SumOver(0, Cols(r), (j: nat) => Entry(r, i, j))
  }

  /** A grid row (i < r) has its r ones in one contiguous run. */
  lemma RowOnesOfGridRow(r: nat, i: nat)
    requires i < r
    ensures RowOnes(r, i) == r
  {
    var f: nat -> int := (j: nat) => Entry(r, i, j);
    GridRowBounds(r, i);
    forall j | 0 <= j < Cols(r) ensures f(j) == (if r * i <= j < r * i + r then 1 else 0) {
      GridRowLine(r, i, j);
    }
    SumOverSplit(0, r * i, Cols(r), f);
    SumOverSplit(r * i, r * i + r, Cols(r), f);
    SumOverZero(0, r * i, f);
    SumOverOnes(r * i, r * i + r, f);
    SumOverZero(r * i + r, Cols(r), f);
  }

  /** Any other line has one one in each of the r grid rows. */
  lemma RowOnesOfOtherLine(r: nat, i: nat)
    requires r <= i < Rows(r)
    ensures RowOnes(r, i) == r
  {
    var f: nat -> int := (j: nat) => Entry(r, i, j);
    forall o | 0 <= o < r ensures SumOver(0 + r * o, 0 + r * o + r, f) == 1 {
      var c := LineCellInGridRow(r, i, o);
      SumOverExactlyOne(r * o, r * o + r, f, c);
    }
    SumOverBlocks(0, r, r, 1, f);
  }

  /** Every row of the mask holds exactly r ones. */
  lemma RowSum(r: nat, i: nat)
    requires i < Rows(r)
    ensures Sum(Mask(r)[i]) == r
  {
    SumIsSumOver(Mask(r)[i], (j: nat) => Entry(r, i, j));
    if i < r {
      RowOnesOfGridRow(r, i);
    } else {
      RowOnesOfOtherLine(r, i);
    }
  }

  /** The number of ones of a 0/1 row is its sum. */
  lemma {:induction false} SumIsOnesCount(row: seq<int>)
    requires forall j :: 0 <= j < |row| ==> row[j] == 0 || row[j] == 1
    ensures Sum(row) == |Ones(row)|
  {
    if |row| > 0 {
      var n := |row| - 1;
      SumIsOnesCount(row[..n]);
      assert n !in Ones(row[..n]);
      assert Ones(row) == Ones(row[..n]) + (if row[n] == 1 then {n} else {});
    }
  }

  /** Every row of the mask has exactly r columns holding a one. */
  lemma RowOnesCount(r: nat, i: nat)
    requires i < Rows(r)
    ensures |Ones(Mask(r)[i])| == r
  {
    RowSum(r, i);
    SumIsOnesCount(Mask(r)[i]);
  }

  /** The column that step t of the inner loop writes into row i: r * i + t
      in pass 1, (i - r) + r * t in pass 2, and in pass 3 the entry
      `allgrids[m][n][t]`, (k * t + n) % r + r * t for i = r * (k + 1) + n. */
  function Written(r: nat, i: nat, t: nat): int
    requires i < Rows(r)
  {
    if i < r then r * i + t
    else if i < 2 * r then (i - r) + r * t
    else ((i / r - 1) * t + i % r) % r + r * t
  }

  /** The r writes of pass 1 into row m, columns r * m + t, are distinct
      ones of that row. */
  lemma GridRowWrites(r: nat, m: nat, t: nat, t': nat)
    requires m < r && m < Rows(r) && t < r && t' < r
    ensures Written(r, m, t) in Ones(Mask(r)[m])
    ensures t != t' ==> Written(r, m, t) != Written(r, m, t')
  {
    GridRowOnes(r, m);
  }

  /** Pass 2: step t of row m writes column (m - r) + r * t, whose grid row
      is t. */
  lemma GridColumnWrite(r: nat, m: nat, t: nat)
    requires r <= m < 2 * r && t < r
    ensures (m - r) + r * t in Ones(Mask(r)[m])
    ensures ((m - r) + r * t) / r == t
  {
    GridColumnOnes(r, m);
    DivModOfCell(r, t, m - r);
  }

  /** The r writes of pass 2 into row m are distinct ones of that row. */
  lemma GridColumnWrites(r: nat, m: nat, t: nat, t': nat)
    requires r <= m < 2 * r && m < Rows(r) && t < r && t' < r
    ensures Written(r, m, t) in Ones(Mask(r)[m])
    ensures t != t' ==> Written(r, m, t) != Written(r, m, t')
  {
    GridColumnWrite(r, m, t);
    GridColumnWrite(r, m, t');
  }

  /** Pass 3: step t of row r * (k + 1) + n writes `allgrids[k - 1][n][t]`,
      whose grid row is t. */
  lemma SlopeWrite(r: nat, k: nat, n: nat, t: nat)
    requires 1 <= k < r && n < r && t < r
    ensures r * (k + 1) + n < Rows(r)
    ensures (k * t + n) % r + r * t in Ones(Mask(r)[r * (k + 1) + n])
    ensures ((k * t + n) % r + r * t) / r == t
  {
    SlopeRowOnes(r, k, n);
    SlopeCell(r, k, n, t);
  }

  /** The r writes of pass 3 into row i are distinct ones of that row. */
  lemma SlopeWrites(r: nat, i: nat, t: nat, t': nat)
    requires 2 * r <= i < Rows(r) && t < r && t' < r
    ensures Written(r, i, t) in Ones(Mask(r)[i])
    ensures t != t' ==> Written(r, i, t) != Written(r, i, t')
  {
    var k, n := SlopeRowCoordinates(r, i);
    SlopeWrite(r, k, n, t);
    SlopeWrite(r, k, n, t');
    var c, c' := Written(r, i, t), Written(r, i, t');
    assert c == (k * t + n) % r + r * t && c' == (k * t' + n) % r + r * t';
    assert c / r == t && c' / r == t';
  }

  /** The r writes into a row hit pairwise distinct columns, each a one of
      that row; with `RowOnesCount` they are exactly the row's ones. */
  lemma WritesDistinct(r: nat, i: nat, t: nat, t': nat)
    requires i < Rows(r) && t < r && t' < r
    ensures Written(r, i, t) in Ones(Mask(r)[i])
    ensures t != t' ==> Written(r, i, t) != Written(r, i, t')
  {
    if i < r {
      GridRowWrites(r, i, t, t');
    } else if i < 2 * r {
      GridColumnWrites(r, i, t, t');
    } else {
      SlopeWrites(r, i, t, t');
    }
  }

  /** Within the group of rows r * b .. r * b + r - 1 (b <= r) exactly one
      line passes through cell c: the grid row, the grid column, or the line
      of slope b - 1 through c. */
  lemma LineThroughCellInGroup(r: nat, c: nat, b: nat) returns (row: nat)
    requires c < Cols(r) && b <= r
    ensures r * b <= row < r * b + r && OnLine(r, row, c)
    ensures forall i :: r * b <= i < r * b + r && OnLine(r, i, c) ==> i == row
  {
    CellCoordinates(r, c);
    var o, p := c / r, c % r;
    if b == 0 {
      row := o;
    } else if b == 1 {
      row := r + p;
    } else {
      var k := b - 1;
      var n := SolveOffset(r, k * o, p);
      row := r * b + n;
      SlopeLine(r, k, n, c);
      forall i | r * b <= i < r * b + r && OnLine(r, i, c) ensures i == row {
        var n' := i - r * b;
        SlopeLine(r, k, n', c);
        CancelAdd(r, k * o, n, n');
      }
    }
  }

  /** Column c has exactly one one in the group of rows r * b .. r * b + r - 1. */
  lemma GroupColumnOnes(r: nat, c: nat, b: nat, g: nat -> int)
    requires c < Cols(r) && b <= r
    requires forall i: nat :: g(i) == Entry(r, i, c)
    ensures SumOver(r * b, r * b + r, g) == 1
  {
    var row := LineThroughCellInGroup(r, c, b);
    SumOverExactlyOne(r * b, r * b + r, g, row);
  }

  /** Every column of the mask holds exactly r + 1 ones. */
  lemma ColumnSum(r: nat, c: nat)
    requires c < Cols(r)
    ensures Sum(Column(Mask(r), c)) == r + 1
  {
    var g: nat -> int := (i: nat) => Entry(r, i, c);
    SumIsSumOver(Column(Mask(r), c), g);
    ColumnOnes(r, c, g);
  }

  /** Column c has one one in each of the r + 1 groups of r rows. */
  lemma ColumnOnes(r: nat, c: nat, g: nat -> int)
    requires c < Cols(r)
    requires forall i: nat :: g(i) == Entry(r, i, c)
    ensures SumOver(0, Rows(r), g) == r + 1
  {
    forall b | 0 <= b < r + 1 ensures SumOver(0 + r * b, 0 + r * b + r, g) == 1 {
      GroupColumnOnes(r, c, b, g);
    }
    SumOverBlocks(0, r, r + 1, 1, g);
  }

  /** The rows in which columns c1 and c2 both hold a one. */
  ghost function CommonRows(r: nat, c1: nat, c2: nat): set<nat>
    requires c1 < Cols(r) && c2 < Cols(r)
  {
    set i: nat | i < Rows(r) && Mask(r)[i][c1] == 1 && Mask(r)[i][c2] == 1
  }

  lemma CommonRowsOnLine(r: nat, c1: nat, c2: nat, i: nat)
    requires c1 < Cols(r) && c2 < Cols(r)
    ensures i in CommonRows(r, c1, c2) <==> i < Rows(r) && OnLine(r, i, c1) && OnLine(r, i, c2)
  {
  }

  /** A row past the first two groups is the line of slope i / r - 1 and
      offset i % r. */
  lemma SlopeRowCoordinates(r: nat, i: nat) returns (k: nat, n: nat)
    requires 2 * r <= i < Rows(r)
    ensures k == i / r - 1 && n == i % r
    ensures 1 <= k < r && n < r && i == r * (k + 1) + n
  {
    var q := i / r;
    assert i == r * q + i % r;
    if q >= r + 1 {
      MulMono(r, r + 1, q);
    }
    if q <= 1 {
      MulMono(r, q, 1);
    }
    k, n := q - 1, i % r;
  }

  /** On the line of slope k through two cells, k * (o1 - o2) == p1 - p2 (mod r). */
  lemma SlopeThroughTwoCells(r: int, k: int, n: int, o1: int, p1: int, o2: int, p2: int)
    requires r > 0
    requires p1 == (k * o1 + n) % r && p2 == (k * o2 + n) % r
    ensures (k * (o1 - o2)) % r == (p1 - p2) % r
  {
    var a1, a2 := k * o1 + n, k * o2 + n;
    CongSub(r, a1, a2, p1, p2);
    MulSub(k, o1, o2);
    assert a1 - a2 == k * (o1 - o2);
  }

  lemma MulSub(k: int, a: int, b: int)
    ensures k * a - k * b == k * (a - b)
  {
  }

  /** Facts about a pass-3 row through both c1 and c2. */
  lemma CommonSlopeRow(r: nat, i: nat, c1: nat, c2: nat) returns (k: nat, n: nat)
    requires 2 * r <= i < Rows(r) && c1 < Cols(r) && c2 < Cols(r)
    requires OnLine(r, i, c1) && OnLine(r, i, c2)
    ensures 1 <= k < r && n < r && i == r * (k + 1) + n
    ensures (k * (c1 / r) + n) % r == c1 % r
    ensures (k * (c1 / r - c2 / r)) % r == (c1 % r - c2 % r) % r
  {
    SlopeThroughTwoCells(r, i / r - 1, i % r, c1 / r, c1 % r, c2 / r, c2 % r);
    k, n := SlopeRowCoordinates(r, i);
  }

  /** The lines through two cells of one grid row: only that grid row. */
  lemma SameGridRowLines(r: nat, c1: nat, c2: nat, i: nat)
    requires c1 < Cols(r) && c2 < Cols(r) && c1 != c2 && c1 / r == c2 / r
    ensures OnLine(r, i, c1) && OnLine(r, i, c2) <==> i == c1 / r
  {
    CellCoordinates(r, c1);
    if r <= i && OnLine(r, i, c1) && OnLine(r, i, c2) {
      LineMeetsGridRowOnce(r, i, c1, c2);
    }
  }

  /** Two cells of the same grid row share only that grid row. */
  lemma BalancedSameGridRow(r: nat, c1: nat, c2: nat)
    requires c1 < Cols(r) && c2 < Cols(r) && c1 != c2 && c1 / r == c2 / r
    ensures CommonRows(r, c1, c2) == {c1 / r}
  {
    CellCoordinates(r, c1);
    PassRanges(r);
    forall i: nat ensures i in CommonRows(r, c1, c2) <==> i == c1 / r {
      CommonRowsOnLine(r, c1, c2, i);
      SameGridRowLines(r, c1, c2, i);
    }
  }

  /** For prime r a line of slope 1 .. r-1 meets each grid column once. */
  lemma SlopeMeetsColumnOnce(r: nat, k: nat, o1: nat, o2: nat)
    requires Prime(r) && 1 <= k < r && o1 < r && o2 < r
    requires (k * (o1 - o2)) % r == 0
    ensures o1 == o2
  {
    var d := o1 - o2;
    ModOfDigit(r, k);
    assert (d * k) % r == (0 * k) % r;
    CancelModPrime(r, d, 0, k);
    DigitsDiff(r, o1, o2);
  }

  /** For prime r a line of slope 1 .. r-1 through two cells of one grid
      column passes through one cell only. */
  lemma SlopeLineMeetsColumnOnce(r: nat, i: nat, c1: nat, c2: nat)
    requires Prime(r) && c1 < Cols(r) && c2 < Cols(r) && c1 % r == c2 % r
    requires 2 * r <= i < Rows(r) && OnLine(r, i, c1) && OnLine(r, i, c2)
    ensures c1 == c2
  {
    CellCoordinates(r, c1);
    CellCoordinates(r, c2);
    var o1: nat, o2: nat := c1 / r, c2 / r;
    var k, n := CommonSlopeRow(r, i, c1, c2);
    SlopeMeetsColumnOnce(r, k, o1, o2);
  }

  /** For prime r, the lines through two cells of one grid column: only
      that grid column. */
  lemma SameGridColumnLines(r: nat, c1: nat, c2: nat, i: nat)
    requires Prime(r) && c1 < Cols(r) && c2 < Cols(r) && c1 != c2 && c1 % r == c2 % r
    requires i < Rows(r)
    ensures OnLine(r, i, c1) && OnLine(r, i, c2) <==> i == r + c1 % r
  {
    CellCoordinates(r, c1);
    CellCoordinates(r, c2);
    if 2 * r <= i && OnLine(r, i, c1) && OnLine(r, i, c2) {
      SlopeLineMeetsColumnOnce(r, i, c1, c2);
    }
  }

  /** Two cells of the same grid column share only that grid column. */
  lemma BalancedSameGridColumn(r: nat, c1: nat, c2: nat)
    requires Prime(r) && c1 < Cols(r) && c2 < Cols(r) && c1 != c2 && c1 % r == c2 % r
    ensures CommonRows(r, c1, c2) == {r + c1 % r}
  {
    CellCoordinates(r, c1);
    PassRanges(r);
    forall i: nat ensures i in CommonRows(r, c1, c2) <==> i == r + c1 % r {
      CommonRowsOnLine(r, c1, c2, i);
      if i < Rows(r) {
        SameGridColumnLines(r, c1, c2, i);
      }
    }
  }

  /** For prime r at most one line of slope 1 .. r-1 passes through two
      cells in different grid rows. */
  lemma SlopeLineUnique(r: nat, o1: nat, p1: nat, o2: nat, p2: nat, k: nat, n: nat, k': nat, n': nat)
    requires Prime(r) && o1 < r && o2 < r && o1 != o2
    requires k < r && n < r && k' < r && n' < r
    requires (k * (o1 - o2)) % r == (p1 - p2) % r && (k * o1 + n) % r == p1
    requires (k' * (o1 - o2)) % r == (p1 - p2) % r && (k' * o1 + n') % r == p1
    ensures k == k' && n == n'
  {
    var d := o1 - o2;
    assert d % r != 0 by {
      if d % r == 0 { DigitsDiff(r, o1, o2); }
    }
    CancelModPrime(r, k', k, d);
    DigitsCongruent(r, k', k);
    CancelAdd(r, k * o1, n', n);
  }

  /** For prime r, two cells in different grid rows and columns lie on a
      line of slope 1 .. r-1: the slope solves k * (o1 - o2) == p1 - p2
      (mod r), which needs the inverse of o1 - o2 modulo r. */
  lemma SlopeLineThrough(r: nat, c1: nat, c2: nat) returns (k: nat, n: nat)
    requires Prime(r) && c1 < Cols(r) && c2 < Cols(r) && c1 / r != c2 / r && c1 % r != c2 % r
    ensures 1 <= k < r && n < r && r * (k + 1) + n < Rows(r)
    ensures OnLine(r, r * (k + 1) + n, c1) && OnLine(r, r * (k + 1) + n, c2)
    ensures (k * (c1 / r - c2 / r)) % r == (c1 % r - c2 % r) % r && (k * (c1 / r) + n) % r == c1 % r
  {
    CellCoordinates(r, c1);
    CellCoordinates(r, c2);
    var o1: nat, p1: nat, o2: nat, p2: nat := c1 / r, c1 % r, c2 / r, c2 % r;
    var d, e := o1 - o2, p1 - p2;
    assert d % r != 0 && e % r != 0 by {
      if d % r == 0 { DigitsDiff(r, o1, o2); }
      if e % r == 0 { DigitsDiff(r, p1, p2); }
    }
    var k0 := SolveSlope(r, d, e);
    var n0 := SolveOffset(r, k0 * o1, p1);
    MulSub(k0, o1, o2);
    CongShift(r, k0 * o1, k0 * o2, n0, p1, p2);
    k, n := k0, n0;
    SlopeLine(r, k, n, c1);
    SlopeLine(r, k, n, c2);
  }

  /** Any pass-3 row through both cells is that line. */
  lemma SlopeLineThroughUnique(r: nat, c1: nat, c2: nat, k: nat, n: nat, i: nat)
    requires Prime(r) && c1 < Cols(r) && c2 < Cols(r) && c1 / r != c2 / r
    requires k < r && n < r
    requires (k * (c1 / r - c2 / r)) % r == (c1 % r - c2 % r) % r && (k * (c1 / r) + n) % r == c1 % r
    requires 2 * r <= i < Rows(r) && OnLine(r, i, c1) && OnLine(r, i, c2)
    ensures i == r * (k + 1) + n
  {
    CellCoordinates(r, c1);
    CellCoordinates(r, c2);
    var o1: nat, p1: nat, o2: nat, p2: nat := c1 / r, c1 % r, c2 / r, c2 % r;
    var k', n' := CommonSlopeRow(r, i, c1, c2);
    SlopeLineUnique(r, o1, p1, o2, p2, k, n, k', n');
  }

  /** For prime r, the lines through two cells in different grid rows and
      columns: only the line of slope k and offset n found above. */
  lemma SlopeLines(r: nat, c1: nat, c2: nat, k: nat, n: nat, i: nat)
    requires Prime(r) && c1 < Cols(r) && c2 < Cols(r) && c1 / r != c2 / r && c1 % r != c2 % r
    requires k < r && n < r && OnLine(r, r * (k + 1) + n, c1) && OnLine(r, r * (k + 1) + n, c2)
    requires (k * (c1 / r - c2 / r)) % r == (c1 % r - c2 % r) % r && (k * (c1 / r) + n) % r == c1 % r
    requires i < Rows(r)
    ensures OnLine(r, i, c1) && OnLine(r, i, c2) <==> i == r * (k + 1) + n
  {
    if 2 * r <= i && OnLine(r, i, c1) && OnLine(r, i, c2) {
      SlopeLineThroughUnique(r, c1, c2, k, n, i);
    }
  }

  /** Two cells in different grid rows and columns share exactly one line,
      of slope 1 .. r-1; this is where r must be prime. */
  lemma BalancedSlope(r: nat, c1: nat, c2: nat) returns (row: nat)
    requires Prime(r) && c1 < Cols(r) && c2 < Cols(r) && c1 / r != c2 / r && c1 % r != c2 % r
    ensures CommonRows(r, c1, c2) == {row}
  {
    var k, n := SlopeLineThrough(r, c1, c2);
    row := r * (k + 1) + n;
    forall i: nat ensures i in CommonRows(r, c1, c2) <==> i == row {
      CommonRowsOnLine(r, c1, c2, i);
      if i < Rows(r) {
        SlopeLines(r, c1, c2, k, n, i);
      }
    }
  }

  /** Balance: for prime r, every two distinct columns hold a one together
      in exactly one row of the mask. */
  lemma Balanced(r: nat, c1: nat, c2: nat) returns (row: nat)
    requires Prime(r) && c1 < Cols(r) && c2 < Cols(r) && c1 != c2
    ensures row < Rows(r) && CommonRows(r, c1, c2) == {row}
    ensures |CommonRows(r, c1, c2)| == 1
  {
    if c1 / r == c2 / r {
      BalancedSameGridRow(r, c1, c2);
      row := c1 / r;
    } else if c1 % r == c2 % r {
      BalancedSameGridColumn(r, c1, c2);
      row := r + c1 % r;
    } else {
      row := BalancedSlope(r, c1, c2);
    }
    assert row in CommonRows(r, c1, c2);
  }

  /** For the prime power 4 the construction is not balanced: columns 0 and
      8 (cells (0, 0) and (2, 0)) share row 4 and row 12, the line of slope
      2 and offset 0, because 2 * 2 == 0 mod 4. */
  lemma UnbalancedForFour()
    ensures {4, 12} <= CommonRows(4, 0, 8)
    ensures |CommonRows(4, 0, 8)| >= 2
  {
    CommonRowsOnLine(4, 0, 8, 4);
    CommonRowsOnLine(4, 0, 8, 12);
    assert OnLine(4, 12, 8);
    var common := CommonRows(4, 0, 8);
    assert common == {4, 12} + (common - {4, 12});
    assert |{4, 12}| == 2;
  }

  /** For r = 2 the mask is the 6 x 4 incidence matrix of the affine plane of
      order 2: two grid rows, two grid columns and the two diagonals. */
  lemma MaskOfTwo()
    ensures Mask(2) == [[1, 1, 0, 0], [0, 0, 1, 1], [1, 0, 1, 0], [0, 1, 0, 1], [1, 0, 0, 1], [0, 1, 1, 0]]
  {
    assert Mask(2)[0] == [1, 1, 0, 0];
    assert Mask(2)[1] == [0, 0, 1, 1];
    assert Mask(2)[2] == [1, 0, 1, 0];
    assert Mask(2)[3] == [0, 1, 0, 1];
    assert Mask(2)[4] == [1, 0, 0, 1];
    assert Mask(2)[5] == [0, 1, 1, 0];
  }
}
