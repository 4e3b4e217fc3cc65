# Haar wavelet transform, modelled in Dafny

This project models `Test/Program.cs` of the WaveletTransform program. That file holds:

- the unnormalised one-dimensional Haar transform. A forward pass over the active prefix of length `l` writes the pairwise averages `(a + b) / 2` to the front and the pairwise details `(a - b) / 2` behind them. The pass is made once (`One`), or repeated on the averages while the active length is at least 2 (`All`); for a power-of-two length this leaves a single average;
- its recursive inverse, which puts `avg + det, avg - det` back in pairs;
- the two-dimensional transform of a square matrix, in two forms:
  - the *standard* decomposition: every row fully, then every column fully;
  - the *pyramidal* decomposition: one pass over the rows and one over the columns of the top-left `n` by `n` block, then the same with `n` halved;
- the lossy compression `WaveletCompression`, which:
  1. rejects a request to discard more entries than the array holds;
  2. transforms fully;
  3. sorts the coefficients by decreasing magnitude;
  4. zeroes the last `k` of them;
  5. transforms the sorted array back.

Values are modelled as `real`, so every identity below is exact arithmetic.

There are four modules:

- `HaarSequence`: the transform as functions on `seq<real>`, and the lemmas about them. These lemmas cover:
  - what one pass computes;
  - that `One` mode is one pass;
  - that `All` mode is a pyramid of levels;
  - both round trips;
  - the mean in entry 0;
  - the finest details in the upper half.
- `HaarTransform`: the in-place methods on `array<real>`. They work as the source does: a fresh working copy at each level, the forward `while` loop with its `constraint`, and the recursive inverse. Each method is proved against the `HaarSequence` function it implements.
- `HaarMatrix`: the two-dimensional transform on an `array2<real>`. Rows and columns are again copied out, transformed and written back. The method is proved against `StandardDecomposition` and `PyramidalDecomposition`, functions on the matrix as a sequence of rows. Lemmas then say what each decomposition puts where.
- `Compression`: the in-place compression, proved against the transform functions. It comes with a lemma showing that the as-written compression does not give its input back even when nothing is discarded. Next to it is a corrected compression, which zeroes the smallest coefficients where they stand, with its round trip proved.

Two points about the inputs the code accepts:

- **Input lengths.** The code never checks a length. A pass at an odd active length leaves the last entry of the prefix where it is. The model therefore takes every length, and the round trip is proved for every length. Only the statements about means need a power of two: the mean in entry 0 of the transform, and the mean of the finest details in the top row of the standard decomposition.
- **Matrix shape.** The comment at `Test/Program.cs:81` speaks of a `2n` by `2n` matrix. The code takes `n` from the number of rows and reads `n` entries of each row.

`HaarSequence.SampleForward` proves the value the code computes for the sample sequence at `Test/Program.cs:237`.

## Model

| member | source | states |
|---|---|---|
| HaarSequence.TransformIterationTypes | Test/Program.cs:18-25 | the two iteration modes, `One` and `All` |
| HaarSequence.Pass | Test/Program.cs:64-73 | one pass of the forward loop at active length `l`; the result has the input's length, and `PassEntry` states it entry by entry |
| HaarSequence.Passes | Test/Program.cs:62-76 | the forward `while` loop from active length `l`, halving it until it drops below the bound; the result has the input's length |
| HaarSequence.Forward | Test/Program.cs:54-79 | the forward transform in mode `One` (bound the length) or `All` (bound 2); the result has the input's length |
| HaarSequence.PassEntry | Test/Program.cs:66-73 | entry `k` after one pass at active length `l` is one of three values: the average of pair `k` for `k < l / 2`; the detail of pair `k - l / 2` for `l / 2 <= k < 2 * (l / 2)`; the old entry beyond that |
| HaarSequence.PassAt | Test/Program.cs:66-73 | the same for all entries at once: averages at `i`, details at `l / 2 + i`, everything from `2 * (l / 2)` on unchanged |
| HaarSequence.AveragesDetailsAt | Test/Program.cs:69-72 | entry `i` of the averages (details) is `(s[2i] + s[2i+1]) / 2` (`(s[2i] - s[2i+1]) / 2`) |
| HaarSequence.PassFrame | Test/Program.cs:64-73 | a pass over a prefix of length `l` neither reads nor changes the entries behind it |
| HaarSequence.PassesFrame | Test/Program.cs:62-76 | nor does the whole loop of passes |
| HaarSequence.OneModeIsSinglePass | Test/Program.cs:57-62 | with `constraint` equal to the length, the loop runs exactly one pass over the whole array |
| HaarSequence.AllModeIsPyramid | Test/Program.cs:54-79 | `All` mode, for every length, transforms the averages of the first pass again and keeps that pass's details and the odd tail behind them |
| HaarSequence.ForwardFinestDetails | Test/Program.cs:62-76 | after all passes, the upper half still holds the details of the first pass, `(s[2i] - s[2i+1]) / 2` at `|s| / 2 + i` |
| HaarSequence.ForwardFirstIsMean | Test/Program.cs:60-62 | for a power-of-two length, the one average left in entry 0 is the mean of the input |
| HaarSequence.InverseLevel | Test/Program.cs:42-48 | one level of the inverse at `length`; the result has the input's length, and `InverseLevelAt` states it entry by entry |
| HaarSequence.Inverse | Test/Program.cs:30-51 | the recursive inverse: nothing below length 2, otherwise the inverse at `length / 2` followed by one level; the result has the input's length |
| HaarSequence.InverseLevelAt | Test/Program.cs:44-48 | one inverse level writes average plus detail at `2i` and average minus detail at `2i + 1`, and keeps everything from `2 * (length / 2)` on |
| HaarSequence.InverseFrame | Test/Program.cs:30-51 | the inverse at `length` only reads and writes the first `length` entries |
| HaarSequence.InterleaveUndoesSplit | Test/Program.cs:44-48 | putting a block's averages and details back in pairs rebuilds the block |
| HaarSequence.SplitUndoesInterleave | Test/Program.cs:66-73 | splitting rebuilt pairs gives back the averages and the details |
| HaarSequence.InverseUndoesPyramid | Test/Program.cs:30-51 | the inverse at the full length undoes the pyramid of levels, for every length |
| HaarSequence.PyramidUndoesInverse | Test/Program.cs:30-51 | the pyramid undoes the inverse at the full length, for every length |
| HaarSequence.RoundTrip | Test/Program.cs:30-79 | the inverse at the full length undoes the `All`-mode forward transform, for every length |
| HaarSequence.ForwardOfInverse | Test/Program.cs:30-79 | every coefficient sequence is the `All`-mode transform of its inverse, so the two are mutually inverse bijections |
| HaarSequence.SampleForward | Test/Program.cs:237 | the program's sample sequence transforms in `All` mode to `[10.5, 3.5, 2, -3, 4, 1, 2, -2]` |
| HaarTransform.Copy | Test/Program.cs:42-43 | `Array.Copy` into a new array: a fresh array with the same contents |
| HaarTransform.ForwardPass | Test/Program.cs:64-73 | one iteration of the forward loop, working from a fresh copy, leaves the array equal to one pass over its old contents |
| HaarTransform.ForwardTransform | Test/Program.cs:54-79 | the forward loop leaves the array equal to the forward transform of its old contents in the given mode. It makes one pass in `One` mode and one per level in `All` mode |
| HaarTransform.InverseStep | Test/Program.cs:42-48 | one inverse level in place, from a fresh copy, equals the inverse-level function of the old contents |
| HaarTransform.ReverseTransform | Test/Program.cs:30-51 | the recursive inverse leaves the array equal to the inverse function of its old contents at `length` |
| HaarMatrix.DecompositionTypes | Test/Program.cs:8-15 | the two decompositions, `Standard` and `Pyramidal` |
| HaarMatrix.TransformRows | Test/Program.cs:93-106 | each of the first `n` rows has its first `n` entries replaced by their transform in the given mode; the matrix keeps its shape |
| HaarMatrix.TransformColumns | Test/Program.cs:109-122 | the same for the first `n` entries of the first `n` columns; the matrix keeps its shape |
| HaarMatrix.PassRows | Test/Program.cs:132-145 | the rows of the active `n` by `n` block in `One` mode; the matrix keeps its shape |
| HaarMatrix.PassColumns | Test/Program.cs:148-161 | the columns of the active block in `One` mode; the matrix keeps its shape |
| HaarMatrix.StandardDecomposition | Test/Program.cs:90-124 | all rows fully, then all columns fully, at size the number of rows; the matrix keeps its shape |
| HaarMatrix.PyramidalDecomposition | Test/Program.cs:127-166 | one row pass and one column pass of the `n` by `n` block, then the same from `n / 2`, until `n < 2`; the matrix keeps its shape |
| HaarMatrix.ReadRow | Test/Program.cs:95-99 | a fresh array holding the first `n` entries of row `i` |
| HaarMatrix.WriteRow | Test/Program.cs:102-105 | row `i` takes the array's entries, and every other entry of the matrix is unchanged |
| HaarMatrix.ReadColumn | Test/Program.cs:111-115 | a fresh array holding the first `n` entries of column `j` |
| HaarMatrix.WriteColumn | Test/Program.cs:118-121 | column `j` takes the array's entries, and every other entry is unchanged |
| HaarMatrix.TransformMatrixRow | Test/Program.cs:95-105 | the first `n` entries of row `i` become their transform, and nothing else changes |
| HaarMatrix.TransformMatrixColumn | Test/Program.cs:111-121 | the first `n` entries of column `j` become their transform, and nothing else changes |
| HaarMatrix.TransformMatrixRows | Test/Program.cs:93-106 | the row loop replaces the first `n` entries of each of the first `n` rows by their transform |
| HaarMatrix.TransformMatrixColumns | Test/Program.cs:109-122 | the column loop does the same for the first `n` columns, each read after the row loop |
| HaarMatrix.TwoDimensionalTransform | Test/Program.cs:83-171 | the matrix ends as its standard decomposition, or as its pyramidal decomposition from size `n` (the number of rows); a Pyramidal matrix with fewer than two rows, whatever its number of columns, is left unchanged |
| HaarMatrix.PassRowsIsOneMode | Test/Program.cs:132-145 | in `One` mode, the row loop is a single pass over each row of the active block |
| HaarMatrix.PassColumnsIsOneMode | Test/Program.cs:148-161 | in `One` mode, the column loop is a single pass over each column of the active block |
| HaarMatrix.PyramidalOutsideUnchanged | Test/Program.cs:129-164 | the pyramidal decomposition from size `n` leaves every entry outside the top-left `n` by `n` block unchanged |
| HaarMatrix.OnePassRowsAt | Test/Program.cs:132-145 | one row pass writes pair `c`'s average at `c` and its detail at `n / 2 + c` |
| HaarMatrix.OnePassColumnsAt | Test/Program.cs:148-161 | one column pass writes rows `2r, 2r+1`'s average at row `r` and their detail at row `n / 2 + r` |
| HaarMatrix.PyramidalLevelLeft | Test/Program.cs:129-161 | one pyramidal level puts two quarters of each 2 by 2 block `x00 x01 / x10 x11` into the left half: the block average `(x00+x01+x10+x11)/4` at `[r][c]` and its vertical detail `(x00+x01-x10-x11)/4` at `[n/2+r][c]` |
| HaarMatrix.PyramidalLevelRightTop | Test/Program.cs:129-161 | the horizontal detail `(x00-x01+x10-x11)/4` at `[r][n/2+c]` |
| HaarMatrix.PyramidalLevelRightBottom | Test/Program.cs:129-161 | the diagonal detail `(x00-x01-x10+x11)/4` at `[n/2+r][n/2+c]` |
| HaarMatrix.PyramidalLevelBands | Test/Program.cs:129-161 | all four quarters of one pyramidal level, entry by entry |
| HaarMatrix.PyramidalFirstLevelFinal | Test/Program.cs:129-164 | the three detail quarters of the first level are final: the later levels, at half the size, do not touch them |
| HaarMatrix.PyramidalDetailBands | Test/Program.cs:127-166 | the pyramidal decomposition's three detail quarters hold the horizontal, vertical and diagonal details of the input's 2 by 2 blocks |
| HaarMatrix.StandardRowDetail | Test/Program.cs:93-106 | after the row loop of the standard decomposition, the upper half of each row holds its finest details |
| HaarMatrix.StandardDetailColumn | Test/Program.cs:93-122 | so the columns the column loop reads in the right half are the rows' finest details |
| HaarMatrix.StandardTopFinestDetails | Test/Program.cs:90-124 | for a power-of-two size, the top row of the right half of the standard decomposition holds the mean, over all rows, of their finest details |
| HaarMatrix.SampleStandardTop | Test/Program.cs:214-230 | the standard decomposition of the program's 4 by 4 sample holds 1.75 at row 0, column 2 |
| HaarMatrix.SamplePyramidalTop | Test/Program.cs:221-232 | the pyramidal decomposition of the sample holds 3 there |
| HaarMatrix.SampleDecompositionsDiffer | Test/Program.cs:214-233 | so the two decompositions of the sample differ |
| Compression.Outcome | Test/Program.cs:176-204 | a compression completes, is rejected with the argument error, or stops with an out-of-range index in the zeroing loop |
| Compression.Int32Sub | Test/Program.cs:201 | the 32-bit subtraction of the loop's start index: a 32-bit value congruent to the exact difference modulo 2^32 |
| Compression.StartIndex | Test/Program.cs:201 | for `k <= Length`, the start index `Length - k` is exact below 2^31 and negative from 2^31 on |
| Compression.MinimalCountWraps | Test/Program.cs:201 | discarding `-2^31` entries from a non-empty array gives the negative start index `Length - 2^31` |
| Compression.MagnitudeOrdering | Test/Program.cs:185-198 | the result `Array.Sort` may give: a permutation of the coefficients with magnitudes non-increasing from left to right |
| Compression.InsertByMagnitude | Test/Program.cs:185-198 | one step of the sort: with the first `i` entries in order, the first `i + 1` end in order, as a permutation of the array, and the entries behind `i` keep their values |
| Compression.SortByMagnitude | Test/Program.cs:185-198 | the array ends as a permutation of its old contents with magnitudes non-increasing from left to right. Entries of equal magnitude may come in either order |
| Compression.ZeroTail | Test/Program.cs:201-204 | the sequence with its last `k` entries zeroed; the result has the input's length, and `ZeroTailKeepsLargest` states it entry by entry |
| Compression.ZeroLast | Test/Program.cs:201-204 | if the 32-bit start index `Length - k` wrapped to a negative value, the index error and nothing changed; otherwise the entries from `Length - k` on become zero and the others are unchanged, so nothing changes for `k <= 0` |
| Compression.WaveletCompression | Test/Program.cs:174-209 | see the clauses below |
| Compression.ZeroTailKeepsLargest | Test/Program.cs:185-204 | in a magnitude ordering, zeroing the last `k` keeps the other entries as they are, and each kept entry is at least as large in magnitude as each discarded one |
| Compression.ZeroTailOfNothing | Test/Program.cs:201-204 | discarding `k <= 0` entries changes nothing |
| Compression.ZeroTailOfAll | Test/Program.cs:201-204 | discarding all entries leaves only zeros |
| Compression.InverseOfZeros | Test/Program.cs:30-51 | zero coefficients transform back to a zero signal, at every length |
| Compression.CompressedCoefficients | Test/Program.cs:182-207 | the full transform of the compressed signal is exactly the zeroed, sorted coefficient sequence |
| Compression.NoDiscardIsNotRoundTrip | Test/Program.cs:182-207 | with `k = 0` the signal `[1, -1]` compresses to `[1, 1]`, whatever order `Array.Sort` leaves |
| Compression.SelectSmallest | Test/Program.cs:185-204 | marks `k` positions (none for `k <= 0`), none of larger magnitude than any unmarked position |
| Compression.ZeroMarked | Test/Program.cs:201-204 | zeroes exactly the marked positions and keeps the others |
| Compression.CorrectedCompression | Test/Program.cs:174-209 | see the clauses below |
| Compression.CorrectedNoDiscardIsRoundTrip | Test/Program.cs:182-207 | for the corrected compression, discarding nothing gives the input back |

`Compression.WaveletCompression` states:

- More than `Length` discarded gives the argument error, with the array unchanged.
- Otherwise the array is transformed and sorted into coefficients that are a magnitude ordering of the full transform.
- If `k <= Length - 2^31`, the 32-bit start index of the zeroing loop wraps to a negative value. The zeroing fails at its first write with the index error, and the array is left holding the sorted coefficients.
- Otherwise the result is the inverse transform of the sorted coefficients with the last `k` zeroed.
- The transform of the result is exactly those zeroed coefficients.
- Discarding all entries gives zeros.

`Compression.CorrectedCompression` states:

- It has the same guard.
- It zeroes `k` coefficients of smallest magnitude where they stand and transforms the rest back.
- The transform of the result is the input's coefficients with those positions zeroed.
- With `k <= 0` the input comes back unchanged.

## Left out

- Console output is not part of this model: `Main`, `ShowArray` and `ShowMatrix` print results and do no transforming. The sample data of `Main` appears only in the sample lemmas.
- `double` arithmetic is modelled as exact `real` arithmetic. IEEE rounding is not modelled, so the round trips are exact here.
- `Array.Sort` with the magnitude comparer is modelled by its result, as any permutation in non-increasing magnitude order. Its algorithm is not modelled, and neither is how it orders entries of equal magnitude (it is not a stable sort). `SortByMagnitude` is an insertion sort that meets that contract.
- Compression.WaveletCompression: states its result for every magnitude ordering of the coefficients rather than the particular one `Array.Sort` produces, because the order of ties is not specified.
- The `ArgumentException` of `WaveletCompression`, and its message text, become the `ArgumentError` outcome, with the array left unchanged. The `IndexOutOfRangeException` of the zeroing loop becomes the `IndexOutOfRange` outcome, with the array as the sort left it.
- `k` and array lengths are C# `int`s. `WaveletCompression` and `ZeroLast` require both to lie in the 32-bit range. The only 32-bit arithmetic that can wrap is the start index `Length - k`, and it is modelled by `Int32Sub`. `CorrectedCompression` does not compute that index, and it takes any integer `k`.
- The default argument `iterationType = All` becomes an explicit mode argument of `ForwardTransform`.
- The C# methods return the array they were given. The model changes the array in place and returns nothing.
- `One` mode on an empty array never terminates in the source (`l` stays 0 and `constraint` is 0). `ForwardTransform` requires a non-empty array in `One` mode. The matrix code only uses `One` mode at sizes of at least 2.
- `TwoDimensionalHaarWaveletTransform` takes `n` from the number of rows and indexes `n` columns. On a matrix with fewer columns than rows it therefore fails in Standard mode, and in Pyramidal mode once `n >= 2`. A Pyramidal matrix with fewer than two rows runs no level and comes back unchanged. `TwoDimensionalTransform` requires exactly this: at least as many columns as rows, or Pyramidal mode with fewer than two rows. Extra columns are left unchanged.
- There is no two-dimensional inverse in the source, and none in the model.
- The sample lemmas for the 4 by 4 matrix fix only the entries they need. The standard value relies on the first two columns, the pyramidal value on the top-left 2 by 2 block. The other entries of the two printed matrices are not computed.

## Findings

| source | as written | input that shows it | evidently intended | confidence | as-written member | corrected member |
|---|---|---|---|---|---|---|
| Test/Program.cs:185-207 | the coefficients are sorted by magnitude in place, and the inverse transform is applied to the sorted array, so every kept coefficient is read back at the wrong position | `[1.0, -1.0]` with 0 entries to discard transforms to `[0, 1]`, sorts to `[1, 0]` and comes back as `[1.0, 1.0]`, not the input | zero the `k` coefficients of smallest magnitude where they stand and transform back, so that discarding nothing is lossless | not executed | Compression.NoDiscardIsNotRoundTrip | Compression.CorrectedCompression |
