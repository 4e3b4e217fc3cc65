/** The two-dimensional transform of a square matrix, held in place in an
    `array2<real>`. Rows and columns are copied into fresh arrays, transformed
    by the one-dimensional forward transform and written back. The matrix
    functions here work on the matrix as a sequence of rows; every row is at
    least `n` long, and only the top-left `n` by `n` block is ever touched.
 */
module HaarMatrix {
  import opened HaarSequence
  import opened HaarTransform

  /** The two ways of extending the transform to a matrix. */
  datatype DecompositionTypes = Standard | Pyramidal

  // ---------------------------------------------------------------------------
  // The matrix as rows
  // ---------------------------------------------------------------------------

  /** `g` has at least `n` rows, and each of its rows at least `n` entries. */
  predicate Covers(g: seq<seq<real>>, n: nat)
  {
    n <= |g| && forall r :: 0 <= r < |g| ==> n <= |g[r]|
  }

  /** `h` has the same number of rows as `g`, each of the same length. */
  predicate SameShape(g: seq<seq<real>>, h: seq<seq<real>>)
  {
    |h| == |g| && forall r :: 0 <= r < |g| ==> |h[r]| == |g[r]|
  }

  /** The first `n` entries of column `c`. */
  function Column(g: seq<seq<real>>, c: nat, n: nat): (col: seq<real>)
    requires Covers(g, n) && c < n
    ensures |col| == n
  {
    seq(n, r requires 0 <= r < n => g[r][c])
  }

  /** Rows `0 .. n - 1` have their first `n` entries replaced by their transform. */
  function TransformRows(g: seq<seq<real>>, n: nat, mode: TransformIterationTypes): (h: seq<seq<real>>)
    requires Covers(g, n)
    ensures SameShape(g, h)
  {
    seq(|g|, r requires 0 <= r < |g| =>
      if r < n then Forward(g[r][..n], mode) + g[r][n..] else g[r])
  }

  /** Columns `0 .. n - 1` have their first `n` entries replaced by their transform. */
  function TransformColumns(g: seq<seq<real>>, n: nat, mode: TransformIterationTypes): (h: seq<seq<real>>)
    requires Covers(g, n)
    ensures SameShape(g, h)
  {
    seq(|g|, r requires 0 <= r < |g| =>
      if r < n then
        seq(|g[r]|, c requires 0 <= c < |g[r]| =>
          if c < n then Forward(Column(g, c, n), mode)[r] else g[r][c])
      else g[r])
  }

  /** A single pass (the `One` mode transform) over the first `n` entries of
      rows `0 .. n - 1`. */
  function PassRows(g: seq<seq<real>>, n: nat): (h: seq<seq<real>>)
    requires Covers(g, n)
    ensures SameShape(g, h)
  {
    seq(|g|, r requires 0 <= r < |g| =>
      if r < n then Pass(g[r], n) else g[r])
  }

  /** A single pass over the first `n` entries of columns `0 .. n - 1`. */
  function PassColumns(g: seq<seq<real>>, n: nat): (h: seq<seq<real>>)
    requires Covers(g, n)
    ensures SameShape(g, h)
  {
    seq(|g|, r requires 0 <= r < |g| =>
      if r < n then
        seq(|g[r]|, c requires 0 <= c < |g[r]| =>
          if c < n then Pass(Column(g, c, n), n)[r] else g[r][c])
      else g[r])
  }

  /** In `One` mode the row transform is a single pass over the rows. */
  lemma PassRowsIsOneMode(g: seq<seq<real>>, n: nat)
    requires Covers(g, n)
    ensures TransformRows(g, n, One) == PassRows(g, n)
  {
    forall r | 0 <= r < |g|
      ensures TransformRows(g, n, One)[r] == PassRows(g, n)[r]
    {
      if r < n {
        OneModeIsSinglePass(g[r][..n]);
        PassFrame(g[r][..n], g[r][n..], n);
        assert g[r][..n] + g[r][n..] == g[r];
      }
    }
  }

  /** In `One` mode the column transform is a single pass over the columns. */
  lemma PassColumnsIsOneMode(g: seq<seq<real>>, n: nat)
    requires Covers(g, n)
    ensures TransformColumns(g, n, One) == PassColumns(g, n)
  {
    forall r | 0 <= r < |g|
      ensures TransformColumns(g, n, One)[r] == PassColumns(g, n)[r]
    {
      if r < n {
        forall c | 0 <= c < |g[r]|
          ensures TransformColumns(g, n, One)[r][c] == PassColumns(g, n)[r][c]
        {
          if c < n {
            OneModeIsSinglePass(Column(g, c, n));
          }
        }
      }
    }
  }

  /** The standard decomposition: every row fully, then every column fully. */
  function StandardDecomposition(g: seq<seq<real>>): (h: seq<seq<real>>)
    requires Covers(g, |g|)
    ensures SameShape(g, h)
  {
    TransformColumns(TransformRows(g, |g|, All), |g|, All)
  }

  /** The pyramidal decomposition from active size `n` on: one pass over the
      rows, then one over the columns, of the top-left `n` by `n` block, then
      the same at size `n / 2`, until the size falls below 2. */
  function PyramidalDecomposition(g: seq<seq<real>>, n: nat): (h: seq<seq<real>>)
    requires Covers(g, n)
    ensures SameShape(g, h)
    decreases n
  {
    if n >= 2 then PyramidalDecomposition(PassColumns(PassRows(g, n), n), n / 2)
    else g
  }

  /** The contents of the matrix, row by row. */
  ghost function Grid(m: array2<real>): (g: seq<seq<real>>)
    reads m
    ensures |g| == m.Length0 && forall r :: 0 <= r < |g| ==> |g[r]| == m.Length1
  {
    seq(m.Length0, r requires 0 <= r < m.Length0 reads m =>
      seq(m.Length1, c requires 0 <= c < m.Length1 reads m => m[r, c]))
  }

  lemma GridIs(m: array2<real>, g: seq<seq<real>>)
    requires |g| == m.Length0 && forall r :: 0 <= r < |g| ==> |g[r]| == m.Length1
    requires forall r, c :: 0 <= r < m.Length0 && 0 <= c < m.Length1 ==> m[r, c] == g[r][c]
    ensures Grid(m) == g
  {
    forall r | 0 <= r < m.Length0
      ensures Grid(m)[r] == g[r]
    {
    }
  }

  // ---------------------------------------------------------------------------
  // What the decompositions leave alone, and what one pyramidal level computes
  // ---------------------------------------------------------------------------

  lemma PassRowsOutside(g: seq<seq<real>>, n: nat)
    requires Covers(g, n)
    ensures forall r, c :: 0 <= r < |g| && 0 <= c < |g[r]| && (r >= n || c >= n) ==>
      PassRows(g, n)[r][c] == g[r][c]
  {
  }

  lemma PassColumnsOutside(g: seq<seq<real>>, n: nat)
    requires Covers(g, n)
    ensures forall r, c :: 0 <= r < |g| && 0 <= c < |g[r]| && (r >= n || c >= n) ==>
      PassColumns(g, n)[r][c] == g[r][c]
  {
  }

  /** The pyramidal decomposition changes only the top-left `n` by `n` block. */
  lemma {:induction false} PyramidalOutsideUnchanged(g: seq<seq<real>>, n: nat)
    requires Covers(g, n)
    ensures forall r, c :: 0 <= r < |g| && 0 <= c < |g[r]| && (r >= n || c >= n) ==>
      PyramidalDecomposition(g, n)[r][c] == g[r][c]
    decreases n
  {
    if n >= 2 {
      PassRowsOutside(g, n);
      PassColumnsOutside(PassRows(g, n), n);
      PyramidalOutsideUnchanged(PassColumns(PassRows(g, n), n), n / 2);
    }
  }

  /** A single pass over the rows, entry by entry. */
  lemma OnePassRowsAt(g: seq<seq<real>>, n: nat, r: nat, c: nat)
    requires Covers(g, n) && r < n && c < n / 2
    ensures PassRows(g, n)[r][c] == (g[r][2 * c] + g[r][2 * c + 1]) / 2.0
    ensures PassRows(g, n)[r][n / 2 + c] == (g[r][2 * c] - g[r][2 * c + 1]) / 2.0
  {
    PassPairAt(g[r], n, c);
  }

  /** An entry of the column transform is an entry of its column's transform. */
  lemma TransformColumnsAt(g: seq<seq<real>>, n: nat, mode: TransformIterationTypes, r: nat, c: nat)
    requires Covers(g, n) && r < n && c < n
    ensures TransformColumns(g, n, mode)[r][c] == Forward(Column(g, c, n), mode)[r]
  {
  }

  /** Row `r` of the row transform, entry by entry. */
  lemma TransformRowsAt(g: seq<seq<real>>, n: nat, mode: TransformIterationTypes, r: nat)
    requires Covers(g, n) && r < n
    ensures forall c :: 0 <= c < |g[r]| ==>
      TransformRows(g, n, mode)[r][c] == if c < n then Forward(g[r][..n], mode)[c] else g[r][c]
  {
    assert TransformRows(g, n, mode)[r] == Forward(g[r][..n], mode) + g[r][n..];
  }

  /** A single pass over the columns, entry by entry. */
  lemma OnePassColumnsAt(g: seq<seq<real>>, n: nat, r: nat, c: nat)
    requires Covers(g, n) && r < n / 2 && c < n
    ensures PassColumns(g, n)[r][c] == (g[2 * r][c] + g[2 * r + 1][c]) / 2.0
    ensures PassColumns(g, n)[n / 2 + r][c] == (g[2 * r][c] - g[2 * r + 1][c]) / 2.0
  {
    var col := Column(g, c, n);
    var k := n / 2 + r;
    assert k < n;
    var average, detail := Pass(col, n)[r], Pass(col, n)[k];
    assert average == (g[2 * r][c] + g[2 * r + 1][c]) / 2.0 &&
           detail == (g[2 * r][c] - g[2 * r + 1][c]) / 2.0 by {
      assert col[2 * r] == g[2 * r][c] && col[2 * r + 1] == g[2 * r + 1][c];
      PassPairAt(col, n, r);
    }
    assert PassColumns(g, n)[r][c] == average;
    assert PassColumns(g, n)[k][c] == detail;
  }

  /** In one pyramidal level, the column pass combines the row-pass entries
      of rows `2r` and `2r + 1`. */
  lemma LevelColumn(g: seq<seq<real>>, n: nat, r: nat, col: nat)
    requires Covers(g, n) && r < n / 2 && col < n
    ensures PassColumns(PassRows(g, n), n)[r][col] == (PassRows(g, n)[2 * r][col] + PassRows(g, n)[2 * r + 1][col]) / 2.0
    ensures PassColumns(PassRows(g, n), n)[n / 2 + r][col] == (PassRows(g, n)[2 * r][col] - PassRows(g, n)[2 * r + 1][col]) / 2.0
  {
    OnePassColumnsAt(PassRows(g, n), n, r, col);
  }

  /** The same for column `n / 2 + c` of the right half. */
  lemma LevelRightColumn(g: seq<seq<real>>, n: nat, r: nat, c: nat)
    requires Covers(g, n) && r < n / 2 && c < n / 2
    ensures PassColumns(PassRows(g, n), n)[r][n / 2 + c] ==
      (PassRows(g, n)[2 * r][n / 2 + c] + PassRows(g, n)[2 * r + 1][n / 2 + c]) / 2.0
    ensures PassColumns(PassRows(g, n), n)[n / 2 + r][n / 2 + c] ==
      (PassRows(g, n)[2 * r][n / 2 + c] - PassRows(g, n)[2 * r + 1][n / 2 + c]) / 2.0
  {
    LevelColumn(g, n, r, n / 2 + c);
  }

  /** The row pass over rows `2r` and `2r + 1`: their averages in column `c`. */
  lemma RowPairAverages(g: seq<seq<real>>, n: nat, r: nat, c: nat)
    requires Covers(g, n) && r < n / 2 && c < n / 2
    ensures PassRows(g, n)[2 * r][c] == (g[2 * r][2 * c] + g[2 * r][2 * c + 1]) / 2.0
    ensures PassRows(g, n)[2 * r + 1][c] == (g[2 * r + 1][2 * c] + g[2 * r + 1][2 * c + 1]) / 2.0
  {
    OnePassRowsAt(g, n, 2 * r, c);
    OnePassRowsAt(g, n, 2 * r + 1, c);
  }

  /** The row pass over rows `2r` and `2r + 1`: their details in column
      `n / 2 + c`. */
  lemma RowPairDetails(g: seq<seq<real>>, n: nat, r: nat, c: nat)
    requires Covers(g, n) && r < n / 2 && c < n / 2
    ensures PassRows(g, n)[2 * r][n / 2 + c] == (g[2 * r][2 * c] - g[2 * r][2 * c + 1]) / 2.0
    ensures PassRows(g, n)[2 * r + 1][n / 2 + c] == (g[2 * r + 1][2 * c] - g[2 * r + 1][2 * c + 1]) / 2.0
  {
    OnePassRowsAt(g, n, 2 * r, c);
    OnePassRowsAt(g, n, 2 * r + 1, c);
  }

  /** One pyramidal level at size `n`, in column `c` of the left half: the
      rows pass and then the columns pass leave there the average and the
      vertical detail of the 2 by 2 block at rows `2r, 2r + 1` and columns
      `2c, 2c + 1`, each scaled by 1/4. */
  lemma PyramidalLevelLeft(g: seq<seq<real>>, n: nat, r: nat, c: nat)
    requires Covers(g, n) && r < n / 2 && c < n / 2
    ensures PassColumns(PassRows(g, n), n)[r][c] ==
      (g[2 * r][2 * c] + g[2 * r][2 * c + 1] + g[2 * r + 1][2 * c] + g[2 * r + 1][2 * c + 1]) / 4.0
    ensures PassColumns(PassRows(g, n), n)[n / 2 + r][c] ==
      (g[2 * r][2 * c] + g[2 * r][2 * c + 1] - g[2 * r + 1][2 * c] - g[2 * r + 1][2 * c + 1]) / 4.0
  {
    RowPairAverages(g, n, r, c);
    LevelColumn(g, n, r, c);
  }

  /** The same in column `n / 2 + c` of the right half, row `r`: the
      horizontal detail of the block. */
  lemma PyramidalLevelRightTop(g: seq<seq<real>>, n: nat, r: nat, c: nat)
    requires Covers(g, n) && r < n / 2 && c < n / 2
    ensures PassColumns(PassRows(g, n), n)[r][n / 2 + c] ==
      (g[2 * r][2 * c] - g[2 * r][2 * c + 1] + g[2 * r + 1][2 * c] - g[2 * r + 1][2 * c + 1]) / 4.0
  {
    LevelRightColumn(g, n, r, c);
    RowPairDetails(g, n, r, c);
  }

  /** Row `n / 2 + r` of that column: the diagonal detail of the block. */
  lemma PyramidalLevelRightBottom(g: seq<seq<real>>, n: nat, r: nat, c: nat)
    requires Covers(g, n) && r < n / 2 && c < n / 2
    ensures PassColumns(PassRows(g, n), n)[n / 2 + r][n / 2 + c] ==
      (g[2 * r][2 * c] - g[2 * r][2 * c + 1] - g[2 * r + 1][2 * c] + g[2 * r + 1][2 * c + 1]) / 4.0
  {
    LevelRightColumn(g, n, r, c);
    RowPairDetails(g, n, r, c);
  }

  /** One pyramidal level at size `n`, entry by entry: all four quarter blocks. */
  lemma PyramidalLevelBands(g: seq<seq<real>>, n: nat, r: nat, c: nat)
    requires Covers(g, n) && r < n / 2 && c < n / 2
    ensures var level := PassColumns(PassRows(g, n), n);
      var h := n / 2;
      var x00, x01, x10, x11 := g[2 * r][2 * c], g[2 * r][2 * c + 1], g[2 * r + 1][2 * c], g[2 * r + 1][2 * c + 1];
      level[r][c] == (x00 + x01 + x10 + x11) / 4.0 &&
      level[r][h + c] == (x00 - x01 + x10 - x11) / 4.0 &&
      level[h + r][c] == (x00 + x01 - x10 - x11) / 4.0 &&
      level[h + r][h + c] == (x00 - x01 - x10 + x11) / 4.0
  {
    PyramidalLevelLeft(g, n, r, c);
    PyramidalLevelRightTop(g, n, r, c);
    PyramidalLevelRightBottom(g, n, r, c);
  }

  /** Outside the top-left quarter, the first pyramidal level is final: the
      later levels work inside that quarter only. */
  lemma PyramidalFirstLevelFinal(g: seq<seq<real>>, n: nat, r: nat, c: nat)
    requires Covers(g, n) && r < n / 2 && c < n / 2
    ensures var d := PyramidalDecomposition(g, n);
      var level := PassColumns(PassRows(g, n), n);
      var h := n / 2;
      d[r][h + c] == level[r][h + c] && d[h + r][c] == level[h + r][c] && d[h + r][h + c] == level[h + r][h + c]
  {
    var level := PassColumns(PassRows(g, n), n);
    assert PyramidalDecomposition(g, n) == PyramidalDecomposition(level, n / 2);
    PyramidalOutsideUnchanged(level, n / 2);
  }

  /** The three detail quarters of the pyramidal decomposition hold the
      horizontal, vertical and diagonal details of the 2 by 2 blocks. */
  lemma PyramidalDetailBands(g: seq<seq<real>>, n: nat, r: nat, c: nat)
    requires Covers(g, n) && r < n / 2 && c < n / 2
    ensures var d := PyramidalDecomposition(g, n);
      var h := n / 2;
      var x00, x01, x10, x11 := g[2 * r][2 * c], g[2 * r][2 * c + 1], g[2 * r + 1][2 * c], g[2 * r + 1][2 * c + 1];
      d[r][h + c] == (x00 - x01 + x10 - x11) / 4.0 &&
      d[h + r][c] == (x00 + x01 - x10 - x11) / 4.0 &&
      d[h + r][h + c] == (x00 - x01 - x10 + x11) / 4.0
  {
    PyramidalLevelBands(g, n, r, c);
    PyramidalFirstLevelFinal(g, n, r, c);
  }

  /** In the full row transform, the upper half of each row holds its finest
      details. */
  lemma StandardRowDetail(g: seq<seq<real>>, r: nat, c: nat)
    requires Covers(g, |g|) && r < |g| && c < |g| / 2
    ensures TransformRows(g, |g|, All)[r][|g| / 2 + c] == PairDetail(g[r], c)
  {
    TransformRowsAt(g, |g|, All, r);
    ForwardFinestDetails(g[r][..|g|]);
    assert PairDetail(g[r][..|g|], c) == PairDetail(g[r], c);
  }

  /** The finest details of all rows, for pair `c`. */
  function RowDetails(g: seq<seq<real>>, c: nat): (d: seq<real>)
    requires Covers(g, |g|) && c < |g| / 2
    ensures |d| == |g|
  {
    seq(|g|, r requires 0 <= r < |g| => PairDetail(g[r], c))
  }

  lemma StandardDetailColumn(g: seq<seq<real>>, c: nat)
    requires Covers(g, |g|) && c < |g| / 2
    ensures Column(TransformRows(g, |g|, All), |g| / 2 + c, |g|) == RowDetails(g, c)
  {
    forall r | 0 <= r < |g|
      ensures Column(TransformRows(g, |g|, All), |g| / 2 + c, |g|)[r] == RowDetails(g, c)[r]
    {
      StandardRowDetail(g, r, c);
    }
  }

  lemma StandardTopEntry(g: seq<seq<real>>, c: nat)
    requires Covers(g, |g|) && c < |g| / 2
    ensures StandardDecomposition(g)[0][|g| / 2 + c] ==
      Forward(Column(TransformRows(g, |g|, All), |g| / 2 + c, |g|), All)[0]
  {
    TransformColumnsAt(TransformRows(g, |g|, All), |g|, All, 0, |g| / 2 + c);
  }

  /** In the standard decomposition of a matrix whose size is a power of two,
      the top row of the right half holds the mean, over all rows, of each
      row's finest detail. */
  lemma StandardTopFinestDetails(g: seq<seq<real>>, c: nat)
    requires Covers(g, |g|) && IsPowerOfTwo(|g|) && c < |g| / 2
    ensures StandardDecomposition(g)[0][|g| / 2 + c] == Sum(RowDetails(g, c)) / (|g| as real)
  {
    StandardTopEntry(g, c);
    StandardDetailColumn(g, c);
    ForwardFirstIsMean(RowDetails(g, c));
  }

  /** The top entry of a right-half column of the standard decomposition is
      the first entry of the full transform of the rows' details. */
  lemma StandardTopIs(g: seq<seq<real>>, c: nat, v: real)
    requires Covers(g, |g|) && c < |g| / 2 && Forward(RowDetails(g, c), All)[0] == v
    ensures StandardDecomposition(g)[0][|g| / 2 + c] == v
  {
    StandardTopEntry(g, c);
    StandardDetailColumn(g, c);
  }

  // The 4 by 4 matrix the program decomposes both ways has first two columns
  // 20, 6, 15, 10 and 12, 2, 17, 6; the lemmas below hold for any matrix
  // that agrees with it there.

  /** The finest details of the sample's rows are 4, 2, -1 and 2. */
  lemma SampleRowDetails(g: seq<seq<real>>)
    requires |g| == 4 && Covers(g, 4)
    requires g[0][0] == 20.0 && g[1][0] == 6.0 && g[2][0] == 15.0 && g[3][0] == 10.0
    requires g[0][1] == 12.0 && g[1][1] == 2.0 && g[2][1] == 17.0 && g[3][1] == 6.0
    ensures RowDetails(g, 0) == [4.0, 2.0, -1.0, 2.0]
  {
  }

  /** Their full transform starts with their mean. */
  lemma SampleDetailsMean()
    ensures Forward([4.0, 2.0, -1.0, 2.0], All)[0] == 1.75
  {
    assert IsPowerOfTwo(4) by {
      assert IsPowerOfTwo(2);
    }
    assert Sum([4.0, 2.0, -1.0, 2.0]) == 7.0;
    ForwardFirstIsMean([4.0, 2.0, -1.0, 2.0]);
  }

  /** The standard decomposition of the sample holds at row 0, column 2 the
      mean 7/4 of the rows' first details. */
  lemma SampleStandardTop(g: seq<seq<real>>)
    requires |g| == 4 && Covers(g, 4)
    requires g[0][0] == 20.0 && g[1][0] == 6.0 && g[2][0] == 15.0 && g[3][0] == 10.0
    requires g[0][1] == 12.0 && g[1][1] == 2.0 && g[2][1] == 17.0 && g[3][1] == 6.0
    ensures StandardDecomposition(g)[0][|g| / 2] == 1.75
  {
    assert Forward(RowDetails(g, 0), All)[0] == 1.75 by {
      SampleRowDetails(g);
      SampleDetailsMean();
    }
    StandardTopIs(g, 0, 1.75);
  }

  /** The pyramidal decomposition of the sample holds at row 0, column 2 the
      horizontal detail 3 of the top-left 2 by 2 block. */
  lemma SamplePyramidalTop(g: seq<seq<real>>)
    requires |g| == 4 && Covers(g, 4)
    requires g[0][0] == 20.0 && g[1][0] == 6.0 && g[0][1] == 12.0 && g[1][1] == 2.0
    ensures PyramidalDecomposition(g, |g|)[0][|g| / 2] == 3.0
  {
    PyramidalDetailBands(g, |g|, 0, 0);
  }

  /** So the two decompositions of the sample disagree at row 0, column 2
      (`|g| / 2` is 2). */
  lemma SampleDecompositionsDiffer(g: seq<seq<real>>)
    requires |g| == 4 && Covers(g, 4)
    requires g[0][0] == 20.0 && g[1][0] == 6.0 && g[2][0] == 15.0 && g[3][0] == 10.0
    requires g[0][1] == 12.0 && g[1][1] == 2.0 && g[2][1] == 17.0 && g[3][1] == 6.0
    ensures StandardDecomposition(g)[0][|g| / 2] != PyramidalDecomposition(g, |g|)[0][|g| / 2]
  {
    SampleStandardTop(g);
    SamplePyramidalTop(g);
  }

  // ---------------------------------------------------------------------------
  // The in-place driver
  // ---------------------------------------------------------------------------

  /** Copies the first `n` entries of row `i` into a fresh array. */
  method ReadRow(m: array2<real>, i: nat, n: nat) returns (row: array<real>)
    requires i < m.Length0 && n <= m.Length1
    ensures fresh(row) && row[..] == Grid(m)[i][..n]
  {
    row := new real[n];
    for j := 0 to n
      invariant forall c :: 0 <= c < j ==> row[c] == m[i, c]
    {
      row[j] := m[i, j];
    }
  }

  /** Writes `row` back over the first `row.Length` entries of row `i`. */
  method WriteRow(m: array2<real>, i: nat, row: array<real>)
    requires i < m.Length0 && row.Length <= m.Length1
    modifies m
    ensures forall r, c :: 0 <= r < m.Length0 && 0 <= c < m.Length1 ==>
      m[r, c] == if r == i && c < row.Length then row[c] else old(m[r, c])
  {
    for j := 0 to row.Length
      invariant forall r, c :: 0 <= r < m.Length0 && 0 <= c < m.Length1 ==>
        m[r, c] == if r == i && c < j then row[c] else old(m[r, c])
    {
      m[i, j] := row[j];
    }
  }

  /** Copies the first `n` entries of column `j` into a fresh array. */
  method ReadColumn(m: array2<real>, j: nat, n: nat) returns (col: array<real>)
    requires j < m.Length1 && n <= m.Length0
    ensures fresh(col) && col.Length == n
    ensures forall r :: 0 <= r < n ==> col[r] == m[r, j]
  {
    col := new real[n];
    for i := 0 to n
      invariant forall r :: 0 <= r < i ==> col[r] == m[r, j]
    {
      col[i] := m[i, j];
    }
  }

  /** Writes `col` back over the first `col.Length` entries of column `j`. */
  method WriteColumn(m: array2<real>, j: nat, col: array<real>)
    requires j < m.Length1 && col.Length <= m.Length0
    modifies m
    ensures forall r, c :: 0 <= r < m.Length0 && 0 <= c < m.Length1 ==>
      m[r, c] == if c == j && r < col.Length then col[r] else old(m[r, c])
  {
    for i := 0 to col.Length
      invariant forall r, c :: 0 <= r < m.Length0 && 0 <= c < m.Length1 ==>
        m[r, c] == if c == j && r < i then col[r] else old(m[r, c])
    {
      m[i, j] := col[i];
    }
  }

  /** Transforms the first `n` entries of row `i` in place; `s` names them. */
  method TransformMatrixRow(m: array2<real>, i: nat, n: nat, mode: TransformIterationTypes, ghost s: seq<real>)
    requires i < m.Length0 && n <= m.Length1 && (mode == One ==> n >= 1)
    requires |s| == n && forall c :: 0 <= c < n ==> m[i, c] == s[c]
    modifies m
    ensures forall r, c :: 0 <= r < m.Length0 && 0 <= c < m.Length1 ==>
      m[r, c] == if r == i && c < n then Forward(s, mode)[c] else old(m[r, c])
  {
    var row := ReadRow(m, i, n);
    assert row[..] == s;
    ghost var passes := ForwardTransform(row, mode);
    WriteRow(m, i, row);
  }

  /** Transforms the first `n` entries of column `j` in place; `s` names them. */
  method TransformMatrixColumn(m: array2<real>, j: nat, n: nat, mode: TransformIterationTypes, ghost s: seq<real>)
    requires j < m.Length1 && n <= m.Length0 && (mode == One ==> n >= 1)
    requires |s| == n && forall r :: 0 <= r < n ==> m[r, j] == s[r]
    modifies m
    ensures forall r, c :: 0 <= r < m.Length0 && 0 <= c < m.Length1 ==>
      m[r, c] == if c == j && r < n then Forward(s, mode)[r] else old(m[r, c])
  {
    var col := ReadColumn(m, j, n);
    assert col[..] == s;
    ghost var passes := ForwardTransform(col, mode);
    WriteColumn(m, j, col);
  }

  /** The row loop of either decomposition, at active size `n`. */
  method TransformMatrixRows(m: array2<real>, n: nat, mode: TransformIterationTypes)
    requires n <= m.Length0 && n <= m.Length1
    modifies m
    ensures Grid(m) == TransformRows(old(Grid(m)), n, mode)
  {
    ghost var g := Grid(m);
    ghost var target := TransformRows(g, n, mode);
    for i := 0 to n
      invariant forall r, c :: 0 <= r < m.Length0 && 0 <= c < m.Length1 ==>
        m[r, c] == if r < i then target[r][c] else g[r][c]
    {
      TransformMatrixRow(m, i, n, mode, g[i][..n]);
      TransformRowsAt(g, n, mode, i);
    }
    GridIs(m, target);
  }

  /** The column loop of either decomposition, at active size `n`. */
  method TransformMatrixColumns(m: array2<real>, n: nat, mode: TransformIterationTypes)
    requires n <= m.Length0 && n <= m.Length1
    modifies m
    ensures Grid(m) == TransformColumns(old(Grid(m)), n, mode)
  {
    ghost var g := Grid(m);
    ghost var target := TransformColumns(g, n, mode);
    for j := 0 to n
      invariant forall r, c :: 0 <= r < m.Length0 && 0 <= c < m.Length1 ==>
        m[r, c] == if c < j && r < n then target[r][c] else g[r][c]
    {
      TransformMatrixColumn(m, j, n, mode, Column(g, j, n));
      forall r | 0 <= r < n
        ensures target[r][j] == Forward(Column(g, j, n), mode)[r]
      {
        TransformColumnsAt(g, n, mode, r, j);
      }
    }
    GridIs(m, target);
  }

  /** The two-dimensional transform of the matrix in place. Its size `n` is
      its number of rows, and every level reads `n` entries of each row, so the
      matrix needs at least as many columns as rows (it is meant to be square),
      except in Pyramidal mode with fewer than two rows, where no level runs. */
  method TwoDimensionalTransform(m: array2<real>, decomposition: DecompositionTypes)
    requires m.Length0 <= m.Length1 || (decomposition == Pyramidal && m.Length0 < 2)
    modifies m
    ensures decomposition == Standard ==> Grid(m) == StandardDecomposition(old(Grid(m)))
    ensures decomposition == Pyramidal && m.Length0 <= m.Length1 ==>
      Grid(m) == PyramidalDecomposition(old(Grid(m)), m.Length0)
    ensures decomposition == Pyramidal && m.Length0 < 2 ==> Grid(m) == old(Grid(m))
  {
    var n := m.Length0;
    match decomposition
    case Standard =>
      TransformMatrixRows(m, n, All);
      TransformMatrixColumns(m, n, All);
    case Pyramidal =>
      while n >= 2
        invariant 0 <= n <= m.Length0
        invariant m.Length0 <= m.Length1 ==>
          PyramidalDecomposition(Grid(m), n) == PyramidalDecomposition(old(Grid(m)), m.Length0)
        invariant m.Length0 < 2 ==> Grid(m) == old(Grid(m))
        decreases n
      {
        ghost var g := Grid(m);
        TransformMatrixRows(m, n, One);
        PassRowsIsOneMode(g, n);
        ghost var rows := Grid(m);
        TransformMatrixColumns(m, n, One);
        PassColumnsIsOneMode(rows, n);
        n := n / 2;
      }
  }
}
