/** The value-level view of a dense matrix: a grid is a sequence of rows of
    real numbers. Every operation of the Matrix class is specified by one of
    the functions below, and the algebraic facts the class promises are the
    lemmas about them. */
module Grids {

  /** g has exactly m rows, each of exactly n entries. */
  predicate IsGrid(g: seq<seq<real>>, m: nat, n: nat) {
    |g| == m && forall i :: 0 <= i < m ==> |g[i]| == n
  }

  function Min(a: nat, b: nat): nat {
    if a < b then a else b
  }

  /** The larger of a running maximum and a candidate, in the shape the norm
      loops use: the candidate replaces the maximum only when it is larger. */
  function Max(best: real, candidate: real): (r: real)
    ensures r >= best && r >= candidate && (r == best || r == candidate)
  {
    if candidate > best then candidate else best
  }

  function Abs(x: real): (r: real)
    ensures r >= 0.0 && (r == x || r == -x)
  {
    if x < 0.0 then -x else x
  }

  // ---------------------------------------------------------------------
  // Grids built from scratch

  /** The m-by-n grid whose every entry is s. */
  function Constant(m: nat, n: nat, s: real): (g: seq<seq<real>>)
    ensures IsGrid(g, m, n)
    ensures forall i, j :: 0 <= i < m && 0 <= j < n ==> g[i][j] == s
  {
    seq(m, i => seq(n, j => s))
  }

  /** The m-by-n grid with 1 on the main diagonal and 0 everywhere else. */
  function Identity(m: nat, n: nat): (g: seq<seq<real>>)
    ensures IsGrid(g, m, n)
    ensures forall i, j :: 0 <= i < m && 0 <= j < n ==> g[i][j] == if i == j then 1.0 else 0.0
  {
    seq(m, i => seq(n, j => if i == j then 1.0 else 0.0))
  }

  /** The top-left m-by-n block of a (possibly jagged) sequence of rows that
      is large enough to hold it. */
  predicate Covers(a: seq<seq<real>>, m: nat, n: nat) {
    n == 0 || (m <= |a| && forall i :: 0 <= i < m ==> n <= |a[i]|)
  }

  function Crop(a: seq<seq<real>>, m: nat, n: nat): (g: seq<seq<real>>)
    requires Covers(a, m, n)
    ensures IsGrid(g, m, n)
    ensures forall i, j :: 0 <= i < m && 0 <= j < n ==> g[i][j] == a[i][j]
  {
    seq(m, i requires 0 <= i < m => seq(n, j requires 0 <= j < n => a[i][j]))
  }

  /** Every row has the length of the first one. */
  predicate Rectangular(a: seq<seq<real>>) {
    |a| > 0 && forall i :: 0 < i < |a| ==> |a[i]| == |a[0]|
  }

  // ---------------------------------------------------------------------
  // Elementwise arithmetic and transposition

  function Add(a: seq<seq<real>>, b: seq<seq<real>>, m: nat, n: nat): (c: seq<seq<real>>)
    requires IsGrid(a, m, n) && IsGrid(b, m, n)
    ensures IsGrid(c, m, n)
  {
    seq(m, i requires 0 <= i < m => seq(n, j requires 0 <= j < n => a[i][j] + b[i][j]))
  }

  function Sub(a: seq<seq<real>>, b: seq<seq<real>>, m: nat, n: nat): (c: seq<seq<real>>)
    requires IsGrid(a, m, n) && IsGrid(b, m, n)
    ensures IsGrid(c, m, n)
  {
    seq(m, i requires 0 <= i < m => seq(n, j requires 0 <= j < n => a[i][j] - b[i][j]))
  }

  function Neg(a: seq<seq<real>>, m: nat, n: nat): (c: seq<seq<real>>)
    requires IsGrid(a, m, n)
    ensures IsGrid(c, m, n)
  {
    seq(m, i requires 0 <= i < m => seq(n, j requires 0 <= j < n => -a[i][j]))
  }

  function Scale(a: seq<seq<real>>, m: nat, n: nat, s: real): (c: seq<seq<real>>)
    requires IsGrid(a, m, n)
    ensures IsGrid(c, m, n)
  {
    seq(m, i requires 0 <= i < m => seq(n, j requires 0 <= j < n => a[i][j] * s))
  }

  /** The n-by-m grid whose entry (j, i) is entry (i, j) of a. */
  function Transpose(a: seq<seq<real>>, m: nat, n: nat): (t: seq<seq<real>>)
    requires IsGrid(a, m, n)
    ensures IsGrid(t, n, m)
  {
    seq(n, j requires 0 <= j < n => seq(m, i requires 0 <= i < m => a[i][j]))
  }

  // ---------------------------------------------------------------------
  // Reductions

  /** The sum of the first k diagonal entries. */
  function DiagSum(g: seq<seq<real>>, k: nat): real
    requires k <= |g| && forall i :: 0 <= i < k ==> i < |g[i]|
  {
    if k == 0 then 0.0 else DiagSum(g, k - 1) + g[k - 1][k - 1]
  }

  /** The sum of the diagonal entries (i, i) for i < min(m, n). */
  function Trace(g: seq<seq<real>>, m: nat, n: nat): real
    requires IsGrid(g, m, n)
  {
    DiagSum(g, Min(m, n))
  }

  /** The sum of the absolute values of the first k entries of a row. */
  function RowAbsSum(row: seq<real>, k: nat): real
    requires k <= |row|
  {
    if k == 0 then 0.0 else RowAbsSum(row, k - 1) + Abs(row[k - 1])
  }

  /** The sum of the absolute values of the first k entries of column j. */
  function ColAbsSum(g: seq<seq<real>>, m: nat, n: nat, j: nat, k: nat): real
    requires IsGrid(g, m, n) && j < n && k <= m
  {
    if k == 0 then 0.0 else ColAbsSum(g, m, n, j, k - 1) + Abs(g[k - 1][j])
  }

  /** The running maximum, started at 0, of the absolute row sums of the
      first k rows. */
  function MaxRowSum(g: seq<seq<real>>, m: nat, n: nat, k: nat): real
    requires IsGrid(g, m, n) && k <= m
  {
    if k == 0 then 0.0 else Max(MaxRowSum(g, m, n, k - 1), RowAbsSum(g[k - 1], n))
  }

  /** The running maximum, started at 0, of the absolute column sums of the
      first k columns. */
  function MaxColSum(g: seq<seq<real>>, m: nat, n: nat, k: nat): real
    requires IsGrid(g, m, n) && k <= n
  {
    if k == 0 then 0.0 else Max(MaxColSum(g, m, n, k - 1), ColAbsSum(g, m, n, k - 1, m))
  }

  /** The infinity norm: the maximum absolute row sum (0 when there are no rows). */
  function NormInf(g: seq<seq<real>>, m: nat, n: nat): real
    requires IsGrid(g, m, n)
  {
    MaxRowSum(g, m, n, m)
  }

  /** The 1-norm: the maximum absolute column sum (0 when there are no columns). */
  function Norm1(g: seq<seq<real>>, m: nat, n: nat): real
    requires IsGrid(g, m, n)
  {
    MaxColSum(g, m, n, n)
  }

  // ---------------------------------------------------------------------
  // Packing

  /** The rows of g laid end to end (row-major order). */
  function Flatten(g: seq<seq<real>>): seq<real> {
    if g == [] then [] else Flatten(g[..|g| - 1]) + g[|g| - 1]
  }

  /** The inverse of row-major packing: row i of the m-by-n result is
      vals[i*n .. i*n + n]. */
  function Unpack(vals: seq<real>, m: nat, n: nat): (g: seq<seq<real>>)
    requires |vals| == m * n
    ensures IsGrid(g, m, n)
  {
    seq(m, i requires 0 <= i < m =>
      seq(n, j requires 0 <= j < n => IndexInRange(i, j, m, n); vals[i * n + j]))
  }

  lemma MulLe(a: nat, b: nat, n: nat)
    requires a <= b
    ensures a * n <= b * n
  {
  }

  lemma IndexInRange(i: nat, j: nat, m: nat, n: nat)
    requires i < m && j < n
    ensures i * n + j < m * n
  {
    MulLe(i + 1, m, n);
    assert (i + 1) * n == i * n + n;
  }

  lemma MulDiv(m: nat, n: nat)
    requires m > 0
    ensures (m * n) % m == 0 && (m * n) / m == n
  {
    var k := m * n;
    assert k == m * (k / m) + k % m;
    var d := k / m - n;
    assert m * d == - (k % m);
    if d > 0 {
      MulLe(1, d, m);
    }
  }

  // ---------------------------------------------------------------------
  // Lemmas

  lemma {:induction false} FlattenLength(g: seq<seq<real>>, m: nat, n: nat)
    requires IsGrid(g, m, n)
    ensures |Flatten(g)| == m * n
  {
    if m > 0 {
      FlattenLength(g[..m - 1], m - 1, n);
      assert (m - 1) * n + n == m * n;
    }
  }

  /** Row-major packing puts entry (i, j) at index i*n + j. */
  lemma {:induction false} FlattenIndex(g: seq<seq<real>>, m: nat, n: nat, i: nat, j: nat)
    requires IsGrid(g, m, n) && i < m && j < n
    ensures |Flatten(g)| == m * n
    ensures i * n + j < m * n && Flatten(g)[i * n + j] == g[i][j]
  {
    FlattenLength(g, m, n);
    IndexInRange(i, j, m, n);
    var init := g[..m - 1];
    FlattenLength(init, m - 1, n);
    assert Flatten(g) == Flatten(init) + g[m - 1];
    if i < m - 1 {
      FlattenIndex(init, m - 1, n, i, j);
    } else {
      assert i * n + j == |Flatten(init)| + j;
    }
  }

  /** Column-major packing (the row-major packing of the transpose) puts
      entry (j, i) at index i*m + j. */
  lemma RowPackedIndex(g: seq<seq<real>>, m: nat, n: nat, i: nat, j: nat)
    requires IsGrid(g, m, n) && i < n && j < m
    ensures |Flatten(Transpose(g, m, n))| == m * n
    ensures i * m + j < m * n && Flatten(Transpose(g, m, n))[i * m + j] == g[j][i]
  {
    FlattenIndex(Transpose(g, m, n), n, m, i, j);
    assert n * m == m * n;
  }

  /** Unpacking a row-major packing gives back the grid. */
  lemma UnpackFlatten(g: seq<seq<real>>, m: nat, n: nat)
    requires IsGrid(g, m, n)
    ensures |Flatten(g)| == m * n && Unpack(Flatten(g), m, n) == g
  {
    FlattenLength(g, m, n);
    var u := Unpack(Flatten(g), m, n);
    forall i | 0 <= i < m
      ensures u[i] == g[i]
    {
      forall j | 0 <= j < n
        ensures u[i][j] == g[i][j]
      {
        FlattenIndex(g, m, n, i, j);
      }
    }
  }

  /** Packing an unpacked array gives back the array. */
  lemma FlattenUnpack(vals: seq<real>, m: nat, n: nat)
    requires |vals| == m * n
    ensures Flatten(Unpack(vals, m, n)) == vals
  {
    var u := Unpack(vals, m, n);
    FlattenLength(u, m, n);
    forall k | 0 <= k < m * n
      ensures Flatten(u)[k] == vals[k]
    {
      SplitIndex(k, m, n);
      FlattenIndex(u, m, n, k / n, k % n);
    }
  }

  /** Every index below m*n is i*n + j for a row i < m and a column j < n. */
  lemma SplitIndex(k: nat, m: nat, n: nat)
    requires k < m * n
    ensures n > 0 && k / n < m && k % n < n && k == (k / n) * n + k % n
  {
  }

  /** Transposing twice gives back the grid. */
  lemma TransposeTwice(g: seq<seq<real>>, m: nat, n: nat)
    requires IsGrid(g, m, n)
    ensures Transpose(Transpose(g, m, n), n, m) == g
  {
    var tt := Transpose(Transpose(g, m, n), n, m);
    forall i | 0 <= i < m
      ensures tt[i] == g[i]
    {
    }
  }

  /** Subtracting what was added gives back the grid. */
  lemma SubAdd(a: seq<seq<real>>, b: seq<seq<real>>, m: nat, n: nat)
    requires IsGrid(a, m, n) && IsGrid(b, m, n)
    ensures Sub(Add(a, b, m, n), b, m, n) == a
  {
    var c := Sub(Add(a, b, m, n), b, m, n);
    forall i | 0 <= i < m
      ensures c[i] == a[i]
    {
    }
  }

  /** Subtraction is addition of the negation. */
  lemma SubIsAddNeg(a: seq<seq<real>>, b: seq<seq<real>>, m: nat, n: nat)
    requires IsGrid(a, m, n) && IsGrid(b, m, n)
    ensures Sub(a, b, m, n) == Add(a, Neg(b, m, n), m, n)
  {
    var c, d := Sub(a, b, m, n), Add(a, Neg(b, m, n), m, n);
    forall i | 0 <= i < m
      ensures c[i] == d[i]
    {
    }
  }

  lemma {:induction false} IdentityDiagSum(m: nat, n: nat, k: nat)
    requires k <= Min(m, n)
    ensures DiagSum(Identity(m, n), k) == k as real
  {
    if k > 0 {
      IdentityDiagSum(m, n, k - 1);
    }
  }

  /** The trace of the m-by-n identity is min(m, n). */
  lemma IdentityTrace(m: nat, n: nat)
    ensures Trace(Identity(m, n), m, n) == Min(m, n) as real
  {
    IdentityDiagSum(m, n, Min(m, n));
  }

  lemma {:induction false} RowAbsSumNonNegative(row: seq<real>, k: nat)
    requires k <= |row|
    ensures RowAbsSum(row, k) >= 0.0
  {
    if k > 0 {
      RowAbsSumNonNegative(row, k - 1);
    }
  }

  /** The running row maximum is at least 0 and every row sum it has seen,
      and it is 0 or one of those sums. */
  lemma {:induction false} MaxRowSumBounds(g: seq<seq<real>>, m: nat, n: nat, k: nat)
    requires IsGrid(g, m, n) && k <= m
    ensures MaxRowSum(g, m, n, k) >= 0.0
    ensures forall i :: 0 <= i < k ==> RowAbsSum(g[i], n) <= MaxRowSum(g, m, n, k)
    ensures MaxRowSum(g, m, n, k) == 0.0 ||
            exists i :: 0 <= i < k && MaxRowSum(g, m, n, k) == RowAbsSum(g[i], n)
  {
    if k > 0 {
      MaxRowSumBounds(g, m, n, k - 1);
    }
  }

  /** The infinity norm is the largest absolute row sum and is never negative. */
  lemma NormInfIsMaxRowSum(g: seq<seq<real>>, m: nat, n: nat)
    requires IsGrid(g, m, n)
    ensures NormInf(g, m, n) >= 0.0
    ensures forall i :: 0 <= i < m ==> RowAbsSum(g[i], n) <= NormInf(g, m, n)
    ensures m > 0 ==> exists i :: 0 <= i < m && NormInf(g, m, n) == RowAbsSum(g[i], n)
  {
    MaxRowSumBounds(g, m, n, m);
    if m > 0 && NormInf(g, m, n) == 0.0 {
      RowAbsSumNonNegative(g[0], n);
      assert RowAbsSum(g[0], n) == 0.0;
    }
  }

  lemma {:induction false} ColAbsSumIsTransposedRow(g: seq<seq<real>>, m: nat, n: nat, j: nat, k: nat)
    requires IsGrid(g, m, n) && j < n && k <= m
    ensures ColAbsSum(g, m, n, j, k) == RowAbsSum(Transpose(g, m, n)[j], k)
  {
    if k > 0 {
      ColAbsSumIsTransposedRow(g, m, n, j, k - 1);
    }
  }

  lemma {:induction false} MaxColSumIsTransposedMaxRowSum(g: seq<seq<real>>, m: nat, n: nat, k: nat)
    requires IsGrid(g, m, n) && k <= n
    ensures MaxColSum(g, m, n, k) == MaxRowSum(Transpose(g, m, n), n, m, k)
  {
    if k > 0 {
      MaxColSumIsTransposedMaxRowSum(g, m, n, k - 1);
      ColAbsSumIsTransposedRow(g, m, n, k - 1, m);
    }
  }

  /** The 1-norm of a grid is the infinity norm of its transpose. */
  lemma Norm1IsNormInfOfTranspose(g: seq<seq<real>>, m: nat, n: nat)
    requires IsGrid(g, m, n)
    ensures Norm1(g, m, n) == NormInf(Transpose(g, m, n), n, m)
  {
    MaxColSumIsTransposedMaxRowSum(g, m, n, n);
  }

  /** The 1-norm is the largest absolute column sum and is never negative. */
  lemma Norm1IsMaxColSum(g: seq<seq<real>>, m: nat, n: nat)
    requires IsGrid(g, m, n)
    ensures Norm1(g, m, n) >= 0.0
    ensures forall j :: 0 <= j < n ==> ColAbsSum(g, m, n, j, m) <= Norm1(g, m, n)
    ensures n > 0 ==> exists j :: 0 <= j < n && Norm1(g, m, n) == ColAbsSum(g, m, n, j, m)
  {
    var t := Transpose(g, m, n);
    Norm1IsNormInfOfTranspose(g, m, n);
    NormInfIsMaxRowSum(t, n, m);
    forall j | 0 <= j < n
      ensures ColAbsSum(g, m, n, j, m) == RowAbsSum(t[j], m)
    {
      ColAbsSumIsTransposedRow(g, m, n, j, m);
    }
  }

  lemma {:induction false} ZeroRowAbsSum(row: seq<real>, k: nat)
    requires k <= |row| && forall j :: 0 <= j < |row| ==> row[j] == 0.0
    ensures RowAbsSum(row, k) == 0.0
  {
    if k > 0 {
      ZeroRowAbsSum(row, k - 1);
    }
  }

  /** Both norms of a zero grid are 0. */
  lemma ZeroNorms(m: nat, n: nat)
    ensures NormInf(Constant(m, n, 0.0), m, n) == 0.0
    ensures Norm1(Constant(m, n, 0.0), m, n) == 0.0
  {
    var z := Constant(m, n, 0.0);
    forall i | 0 <= i < m
      ensures RowAbsSum(z[i], n) == 0.0
    {
      ZeroRowAbsSum(z[i], n);
    }
    NormInfIsMaxRowSum(z, m, n);
    var t := Transpose(z, m, n);
    forall j | 0 <= j < n
      ensures RowAbsSum(t[j], m) == 0.0
    {
      ZeroRowAbsSum(t[j], m);
    }
    Norm1IsNormInfOfTranspose(z, m, n);
    NormInfIsMaxRowSum(t, n, m);
  }
}
