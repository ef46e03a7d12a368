# Javatrix Matrix, modelled in Dafny

This project models the `Matrix` class of Javatrix
(`Javatrix/src/Javatrix/Matrix.java`). The class is a dense `m × n` table of
numbers held in a two-dimensional buffer `matrix`, with the fields `m` and `n`.
The model covers:

- the constructors and their shape rules;
- bounds-checked `get` and `set`;
- deep copies versus the live buffer;
- elementwise arithmetic, both into a new matrix and in place;
- transposition, `identity`, trace and the two max-sum norms;
- the two packed copies.

## Layout

- `grids.dfy`, module `Grids`: the value-level specification. A grid is a
  `seq<seq<real>>`. The module defines `Add`, `Sub`, `Neg`, `Scale`,
  `Transpose`, `Identity`, `Trace`, `Norm1`, `NormInf`, row-major `Flatten`
  and its inverse `Unpack`. Its lemmas prove the algebra the class promises.
- `matrix.dfy`, module `Javatrix`: the class `Matrix`.
  - It holds an `array2<real>` buffer and the row and column counts.
  - `Valid()` is the class invariant: the buffer has exactly `m` rows of
    `n` columns.
  - `Cells()` is the buffer's current contents as a grid.
  - Methods that change cells say `modifies matrix` and give the new
    `Cells()` in terms of `old(Cells())`.
  - Methods that build a matrix return a `fresh` object with a `fresh` buffer.
- `scenarios.dfy`, module `Scenarios`: client code. It proves the end-to-end
  properties from the methods' contracts alone: identity trace, transposing
  twice, plus then minus, the packing round trip, and aliasing versus copying.
  It also holds lemmas on the concrete data of the repository's tests.

## Modelling decisions

- Entries are `real`, not IEEE doubles. Sums, differences and products are exact.
- Java exceptions become `Result<T> = Ok(value) | Err(error)`.
  - `IllegalArgument` models `IllegalArgumentException`.
  - `IndexOutOfBounds` models `ArrayIndexOutOfBoundsException`.
  - `Arithmetic` models the `ArithmeticException` from `% 0`.
- The `null` that `plus`, `minus`, `plusEquals` and `minusEquals` return on a
  shape mismatch is a `null` `Matrix?` reference. It is not an error.
- A Dafny constructor cannot fail, so the constructors that can throw are static
  methods returning `Result<Matrix>`:
  - `FromRows` models `Matrix(double[][])`;
  - `FromRowsQuick` models `Matrix(double[][], int, int)`;
  - `FromPacked` models `Matrix(double[], int)`.

  `Matrix(int, int)` and `Matrix(int, int, double)` cannot fail and are the
  constructors `Zeros` and `Filled`.
- A `double[][]` argument (the constructors' `A`) is a `seq<seq<real>>`. That is
  a snapshot of its rows, which may be jagged. A `double[]` argument is a
  `seq<real>`.
- `matrix`, `m` and `n` are `const`. Java only assigns them in constructors;
  afterwards only the buffer's cells change.
- Quirks of the code are kept as written:
  - The checked constructor reads `A[0]`, so an empty `A` fails with
    `IndexOutOfBounds`. `plus`, `minus`, `uminus`, `transpose` and `identity`
    build their result through that constructor, so they fail the same way
    when the result would have zero rows.
  - `transpose` therefore fails when `n == 0`. The others fail when `m == 0`.
  - The packed constructor computes `length % m` before anything else, so
    `m == 0` fails with `Arithmetic`.
  - The quick constructor reads `A[i][j]` for every `i < m`, `j < n` while it
    builds the matrix. A source too small for the claimed shape therefore fails
    during construction, not on a later access. With `n == 0` nothing is read,
    so any `m` is accepted.
  - `getColumnPackedCopy` packs row-major (`i*n + j`). `getRowPackedCopy`
    packs column-major (`i*m + j` holds entry `(j, i)`). The packed
    constructor unpacks row-major.
  - The repository's tests expect the opposite in all three places
    (`MatrixTest.java:63-73`, `478`, `567`). The model follows the code.
    `Scenarios.TestGridPackings` and `Scenarios.TestPackedUnpacking` state
    what the code produces on the tests' own data.
- `plusEquals` and `minusEquals` also work when `B` is the receiver itself.
  Each cell is read before it is written. The contracts give the result in
  terms of the old values of both operands and hold under that aliasing.

## Model

| member | source | states |
|---|---|---|
| `Javatrix.Matrix.Zeros` | Javatrix/src/Javatrix/Matrix.java:83-88 | a fresh `m × n` buffer whose every entry is 0 |
| `Javatrix.Matrix.Filled` | Javatrix/src/Javatrix/Matrix.java:97-105 | a fresh `m × n` buffer whose every entry is `s` |
| `Javatrix.Matrix.FromRows` | Javatrix/src/Javatrix/Matrix.java:20-34 | fails exactly when `A` is empty (IndexOutOfBounds) or some later row's length differs from `A[0]`'s (IllegalArgument); otherwise `m = \|A\|`, `n = \|A[0]\|`, fresh buffer, cells equal `A` |
| `Javatrix.Matrix.FromRowsQuick` | Javatrix/src/Javatrix/Matrix.java:43-53 | fails with IndexOutOfBounds exactly when some cell `(i, j)`, `i < m`, `j < n`, lies outside `A`; otherwise a fresh `m × n` matrix holding the top-left block of `A` |
| `Javatrix.Matrix.FromPacked` | Javatrix/src/Javatrix/Matrix.java:62-75 | fails with Arithmetic when `m = 0` and with IllegalArgument exactly when `m` does not divide the length; otherwise `n = length / m` and entry `(i, j)` is `vals[i*n + j]` |
| `Javatrix.Matrix.Identity` | Javatrix/src/Javatrix/Matrix.java:443-452 | fails exactly when `m = 0`; otherwise a fresh `m × n` matrix with 1 at `(i, i)` and 0 everywhere else |
| `Javatrix.Matrix.Copy` | Javatrix/src/Javatrix/Matrix.java:112-120 | a fresh matrix with a fresh buffer, the same shape and the same cells |
| `Javatrix.Matrix.Clone` | Javatrix/src/Javatrix/Matrix.java:127-129 | the same as `Copy` |
| `Javatrix.Matrix.GetArrayCopy` | Javatrix/src/Javatrix/Matrix.java:135-143 | a fresh `m × n` buffer holding the same cells |
| `Javatrix.Matrix.GetArray` | Javatrix/src/Javatrix/Matrix.java:196-199 | the very buffer of the matrix, not a copy |
| `Javatrix.Matrix.GetRowDimension` | Javatrix/src/Javatrix/Matrix.java:216-219 | the number of rows of the buffer |
| `Javatrix.Matrix.GetColumnDimension` | Javatrix/src/Javatrix/Matrix.java:206-209 | the number of columns of the buffer |
| `Javatrix.Matrix.Get` | Javatrix/src/Javatrix/Matrix.java:227-237 | succeeds exactly when `0 <= i < m` and `0 <= j < n`, returning entry `(i, j)`; otherwise IndexOutOfBounds |
| `Javatrix.Matrix.Set` | Javatrix/src/Javatrix/Matrix.java:151-161 | succeeds exactly when `(i, j)` is in range, and then entry `(i, j)` is `s`; every other entry is unchanged in both cases |
| `Javatrix.Matrix.Plus` | Javatrix/src/Javatrix/Matrix.java:334-354 | `null` on a shape mismatch; IndexOutOfBounds when shapes match and `m = 0`; otherwise a fresh matrix of the elementwise sums; neither operand changes |
| `Javatrix.Matrix.Minus` | Javatrix/src/Javatrix/Matrix.java:361-381 | `null` on a shape mismatch; IndexOutOfBounds when shapes match and `m = 0`; otherwise a fresh matrix of the elementwise differences; neither operand changes |
| `Javatrix.Matrix.Uminus` | Javatrix/src/Javatrix/Matrix.java:570-578 | fails exactly when `m = 0`; otherwise a fresh matrix of the negated entries |
| `Javatrix.Matrix.Transpose` | Javatrix/src/Javatrix/Matrix.java:585-593 | fails exactly when `n = 0`; otherwise a fresh `n × m` matrix whose entry `(j, i)` is entry `(i, j)` |
| `Javatrix.Matrix.PlusEquals` | Javatrix/src/Javatrix/Matrix.java:416-436 | on matching shapes returns the receiver with every entry increased by `B`'s old entry; on a mismatch returns `null` and changes nothing |
| `Javatrix.Matrix.MinusEquals` | Javatrix/src/Javatrix/Matrix.java:389-408 | on matching shapes returns the receiver with every entry decreased by `B`'s old entry; on a mismatch returns `null` and changes nothing |
| `Javatrix.Matrix.TimesEquals` | Javatrix/src/Javatrix/Matrix.java:459-470 | returns the receiver with every entry multiplied by `s` |
| `Javatrix.Matrix.Trace` | Javatrix/src/Javatrix/Matrix.java:183-189 | the sum of entries `(i, i)` for `i < min(m, n)` |
| `Javatrix.Matrix.NormInF` | Javatrix/src/Javatrix/Matrix.java:493-510 | the maximum absolute row sum: at least 0 and every row's sum, and equal to some row's sum when `m > 0` |
| `Javatrix.Matrix.Norm1` | Javatrix/src/Javatrix/Matrix.java:516-533 | the maximum absolute column sum: at least 0 and every column's sum, and equal to some column's sum when `n > 0` |
| `Javatrix.Matrix.GetColumnPackedCopy` | Javatrix/src/Javatrix/Matrix.java:540-548 | a fresh array of length `m*n` holding the rows end to end (row-major, despite the name) |
| `Javatrix.Matrix.GetRowPackedCopy` | Javatrix/src/Javatrix/Matrix.java:555-563 | a fresh array of length `m*n` holding the columns end to end (column-major, despite the name) |
| `Grids.FlattenLength` | Javatrix/src/Javatrix/Matrix.java:541 | the row-major packing of an `m × n` grid has length `m*n` |
| `Grids.FlattenIndex` | Javatrix/src/Javatrix/Matrix.java:544 | row-major packing puts entry `(i, j)` at index `i*n + j` |
| `Grids.RowPackedIndex` | Javatrix/src/Javatrix/Matrix.java:559 | column-major packing puts entry `(j, i)` at index `i*m + j` |
| `Grids.UnpackFlatten` | Javatrix/src/Javatrix/Matrix.java:62-75 | unpacking the row-major packing with the same `m` gives back the grid |
| `Grids.FlattenUnpack` | Javatrix/src/Javatrix/Matrix.java:540-548 | packing what the packed constructor unpacked gives back the original array |
| `Grids.TransposeTwice` | Javatrix/src/Javatrix/Matrix.java:585-593 | transposing twice gives back the grid |
| `Grids.SubAdd` | Javatrix/src/Javatrix/Matrix.java:334-381 | subtracting `B` after adding `B` gives back the grid |
| `Grids.SubIsAddNeg` | Javatrix/src/Javatrix/Matrix.java:570-578 | `A - B` equals `A + (-B)`: `minus` agrees with `plus` of `uminus` |
| `Grids.IdentityTrace` | Javatrix/src/Javatrix/Matrix.java:443-452 | the trace of the `m × n` identity is `min(m, n)` |
| `Grids.NormInfIsMaxRowSum` | Javatrix/src/Javatrix/Matrix.java:493-510 | the running maximum started at 0 is at least 0 and every absolute row sum, and equals one of them when there is a row |
| `Grids.Norm1IsMaxColSum` | Javatrix/src/Javatrix/Matrix.java:516-533 | the running maximum started at 0 is at least 0 and every absolute column sum, and equals one of them when there is a column |
| `Grids.Norm1IsNormInfOfTranspose` | Javatrix/src/Javatrix/Matrix.java:493-533 | the 1-norm of a grid is the infinity norm of its transpose |
| `Grids.ZeroNorms` | Javatrix/src/Javatrix/Matrix.java:493-533 | both norms of a zero grid are 0 |
| `Scenarios.IdentityTrace` | Javatrix/src/Javatrix/Matrix.java:183-189 | `identity(m, n).trace()` is `min(m, n)`, and building the identity fails exactly when `m = 0` |
| `Scenarios.TransposeTwice` | Javatrix/src/Javatrix/Matrix.java:585-593 | `transpose().transpose()` succeeds exactly when `m > 0` and `n > 0`, and then has the original shape and entries |
| `Scenarios.PlusThenMinus` | Javatrix/src/Javatrix/Matrix.java:334-381 | `plus(B).minus(B)` has the original entries when shapes match and `m > 0`, and is `null` on a mismatch |
| `Scenarios.ColumnPackedRoundTrip` | Javatrix/src/Javatrix/Matrix.java:540-548 | the packed constructor applied to `getColumnPackedCopy()` with the same `m` rebuilds the matrix, and fails exactly when `m = 0` |
| `Scenarios.WriteThroughLiveBuffer` | Javatrix/src/Javatrix/MatrixTest.java:27-34 | a write into the array `getArray` returned changes that entry of the matrix and no other |
| `Scenarios.WriteToCopy` | Javatrix/src/Javatrix/MatrixTest.java:155-171 | a `set` on a copy changes the copy and leaves the original unchanged |
| `Scenarios.WriteToArrayCopy` | Javatrix/src/Javatrix/MatrixTest.java:181-187 | a write into the array `getArrayCopy` returned leaves the matrix unchanged |
| `Scenarios.TestGridNorms` | Javatrix/src/Javatrix/MatrixTest.java:340-345 | on the tests' 3×3 grid, `norm1` is 1.8 and `normInF` is 2.4 |
| `Scenarios.TestGridPackings` | Javatrix/src/Javatrix/MatrixTest.java:473-480 | on the tests' 3×3 grid, the row-major packing is `[.1, .2, …, .9]`, and the column order the test expects is what `getRowPackedCopy` gives |
| `Scenarios.TestPackedUnpacking` | Javatrix/src/Javatrix/MatrixTest.java:61-67 | the packed constructor with two rows unpacks `0..9` row by row, not into the columns the test expects |

## Left out

- The three `print` overloads (`Matrix.java:245-327`): they write formatted
  text to `System.out` or a `PrintWriter` through `DecimalFormat` and
  `String.format`; that library behaviour is not modelled.
- `random` (`Matrix.java:169-178`): it draws from `java.util.Random`, a
  nondeterministic source.
- `normF` (`Matrix.java:476-487`): it is `Math.sqrt` of a floating-point sum;
  square roots of reals are not modelled.
- IEEE-754 behaviour (rounding, NaN, infinities): entries are exact reals.
- The diagnostic line printed by `plus`, `minus`, `plusEquals` and
  `minusEquals` on a shape mismatch: only the `null` result is modelled.
- Negative dimensions: sizes are `nat`, so the `NegativeArraySizeException`
  of a negative `m` or `n` is not modelled. Java's 32-bit `int` overflow of
  `m*n` or `i*n + j` is not modelled either.
- `null` rows inside a `double[][]` argument (a `NullPointerException`): a
  row sequence cannot hold `null`.
- A `null` `A` or `vals` passed to the constructors, or a `null` `B` passed to
  `plus`, `minus`, `plusEquals` or `minusEquals`, makes the source throw
  `NullPointerException` (for example at `Matrix.java:22`, `64`, `336`); the
  model's non-null parameter types rule these calls out.
- Aliasing between a `double[][]` argument and the caller: arguments are value
  snapshots, which matches the constructors, since they copy every entry.
- `getArray` returns Java's `double[][]`, whose rows are separate objects. In
  the model it returns the single `array2` buffer, so a row of the buffer
  cannot be swapped out for another array.
- `times`, `arrayTimes`, `arrayTimesEquals`, `arrayLeftDivide`,
  `arrayRightDivide` and their in-place forms, the `getMatrix` and `setMatrix`
  overloads, `constructWithCopy`, `read` and `print(int, int)`: the
  repository's tests call them, but this `Matrix.java` does not define them.
