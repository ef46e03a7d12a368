/** The Javatrix Matrix class: a dense m-by-n table of reals held in a
    two-dimensional buffer, with its constructors, bounds-checked access,
    copies, elementwise arithmetic, reductions and packed copies. */
module Javatrix {
  import Grids

  /** The exceptions the class throws. Java's `null` result of the shape
      checks is not one of them: it is a `null` Matrix reference. */
  datatype Error =
    | IllegalArgument   // jagged rows, or a packed length that m does not divide
    | IndexOutOfBounds  // an index outside the buffer, including A[0] of an empty A
    | Arithmetic        // the remainder by zero rows in the packed constructor

  datatype Result<T> = Ok(value: T) | Err(error: Error)

  /** A snapshot of a two-dimensional buffer as a grid. */
  function Rows(a: array2<real>): (g: seq<seq<real>>)
    reads a
    ensures Grids.IsGrid(g, a.Length0, a.Length1)
    ensures forall i, j :: 0 <= i < a.Length0 && 0 <= j < a.Length1 ==> g[i][j] == a[i, j]
  {
    seq(a.Length0, i requires 0 <= i < a.Length0 reads a =>
      seq(a.Length1, j requires 0 <= j < a.Length1 reads a => a[i, j]))
  }

  /** A buffer that agrees with a grid of its shape cell by cell is that grid. */
  lemma RowsAre(a: array2<real>, g: seq<seq<real>>)
    requires Grids.IsGrid(g, a.Length0, a.Length1)
    requires forall i, j :: 0 <= i < a.Length0 && 0 <= j < a.Length1 ==> a[i, j] == g[i][j]
    ensures Rows(a) == g
  {
    var r := Rows(a);
    forall i | 0 <= i < a.Length0
      ensures r[i] == g[i]
    {
    }
  }

  class Matrix {
    /** The buffer, its row count and its column count. None of the three is
        reassigned after construction; only the cells of the buffer change. */
    const matrix: array2<real>
    const m: nat
    const n: nat

    /** The buffer has exactly m rows of n columns. */
    ghost predicate Valid() {
      matrix.Length0 == m && matrix.Length1 == n
    }

    /** The current contents, row by row. */
    ghost function Cells(): (g: seq<seq<real>>)
      reads matrix
      requires Valid()
      ensures Grids.IsGrid(g, m, n)
    {
      Rows(matrix)
    }

    // -------------------------------------------------------------------
    // Construction

    /** Matrix(int m, int n): an m-by-n matrix of zeros. */
    constructor Zeros(m: nat, n: nat)
      ensures Valid() && this.m == m && this.n == n && fresh(matrix)
      ensures Cells() == Grids.Constant(m, n, 0.0)
    {
      this.m, this.n := m, n;
      matrix := new real[m, n]((_, _) => 0.0);
      new;
      RowsAre(matrix, Grids.Constant(m, n, 0.0));
    }

    /** Matrix(int m, int n, double s): an m-by-n matrix with every entry s. */
    constructor Filled(m: nat, n: nat, s: real)
      ensures Valid() && this.m == m && this.n == n && fresh(matrix)
      ensures Cells() == Grids.Constant(m, n, s)
    {
      this.m, this.n := m, n;
      matrix := new real[m, n]((_, _) => 0.0);
      new;
      for i := 0 to m
        invariant forall p, q :: 0 <= p < i && 0 <= q < n ==> matrix[p, q] == s
      {
        for j := 0 to n
          invariant forall p, q :: 0 <= p < i && 0 <= q < n ==> matrix[p, q] == s
          invariant forall q :: 0 <= q < j ==> matrix[i, q] == s
        {
          matrix[i, j] := s;
        }
      }
      RowsAre(matrix, Grids.Constant(m, n, s));
    }

    /** Matrix(double[][] A), the checked constructor. Reading A[0] fails on
        an empty A; a later row whose length differs from the first one's is
        rejected; otherwise the rows are copied into a fresh buffer. */
    static method FromRows(A: seq<seq<real>>) returns (r: Result<Matrix>)
      ensures r.Ok? <==> Grids.Rectangular(A)
      ensures |A| == 0 ==> r == Err(IndexOutOfBounds)
      ensures |A| > 0 && !Grids.Rectangular(A) ==> r == Err(IllegalArgument)
      ensures r.Ok? ==> fresh(r.value) && fresh(r.value.matrix) && r.value.Valid()
      ensures r.Ok? ==> r.value.m == |A| && r.value.n == |A[0]| && r.value.Cells() == A
    {
      if |A| == 0 {
        return Err(IndexOutOfBounds);
      }
      var m, n := |A|, |A[0]|;
      for i := 1 to m
        invariant forall p :: 0 < p < i ==> |A[p]| == n
      {
        if |A[i]| != n {
          return Err(IllegalArgument);
        }
      }
      var M := new Matrix.Zeros(m, n);
      for i := 0 to m
        invariant forall p, q :: 0 <= p < i && 0 <= q < n ==> M.matrix[p, q] == A[p][q]
      {
        for j := 0 to n
          invariant forall p, q :: 0 <= p < i && 0 <= q < n ==> M.matrix[p, q] == A[p][q]
          invariant forall q :: 0 <= q < j ==> M.matrix[i, q] == A[i][q]
        {
          M.matrix[i, j] := A[i][j];
        }
      }
      RowsAre(M.matrix, A);
      return Ok(M);
    }

    /** Matrix(double[][] A, int m, int n), the quick constructor: no shape
        check, so reading A[i][j] for some i < m, j < n outside A fails
        during construction. */
    static method FromRowsQuick(A: seq<seq<real>>, m: nat, n: nat) returns (r: Result<Matrix>)
      ensures r.Ok? <==> Grids.Covers(A, m, n)
      ensures r.Err? ==> r.error == IndexOutOfBounds
      ensures r.Ok? ==> fresh(r.value) && fresh(r.value.matrix) && r.value.Valid()
      ensures r.Ok? ==> r.value.m == m && r.value.n == n && r.value.Cells() == Grids.Crop(A, m, n)
    {
      var M := new Matrix.Zeros(m, n);
      for i := 0 to m
        invariant n > 0 ==> i <= |A| && forall p :: 0 <= p < i ==> n <= |A[p]|
        invariant forall p, q :: 0 <= p < i && 0 <= q < n ==> M.matrix[p, q] == A[p][q]
      {
        for j := 0 to n
          invariant j > 0 ==> i < |A| && j <= |A[i]|
          invariant forall p, q :: 0 <= p < i && 0 <= q < n ==> M.matrix[p, q] == A[p][q]
          invariant forall q :: 0 <= q < j ==> M.matrix[i, q] == A[i][q]
        {
          if i >= |A| || j >= |A[i]| {
            return Err(IndexOutOfBounds);
          }
          M.matrix[i, j] := A[i][j];
        }
      }
      RowsAre(M.matrix, Grids.Crop(A, m, n));
      return Ok(M);
    }

    /** Matrix(double[] vals, int m), the packed constructor: the remainder
        by m needs m > 0, m must divide the length, and entry (i, j) is
        vals[i*n + j] with n = length / m. */
    static method FromPacked(vals: seq<real>, m: nat) returns (r: Result<Matrix>)
      ensures r.Ok? <==> m > 0 && |vals| % m == 0
      ensures m == 0 ==> r == Err(Arithmetic)
      ensures m > 0 && |vals| % m != 0 ==> r == Err(IllegalArgument)
      ensures r.Ok? ==> fresh(r.value) && fresh(r.value.matrix) && r.value.Valid()
      ensures r.Ok? ==> r.value.m == m && r.value.n == |vals| / m && |vals| == m * r.value.n
      ensures r.Ok? ==> r.value.Cells() == Grids.Unpack(vals, m, |vals| / m)
    {
      if m == 0 {
        return Err(Arithmetic);
      }
      if |vals| % m != 0 {
        return Err(IllegalArgument);
      }
      var n := |vals| / m;
      assert |vals| == m * n;
      var M := new Matrix.Zeros(m, n);
      ghost var u := Grids.Unpack(vals, m, n);
      for i := 0 to m
        invariant forall p, q :: 0 <= p < i && 0 <= q < n ==> M.matrix[p, q] == u[p][q]
      {
        for j := 0 to n
          invariant forall p, q :: 0 <= p < i && 0 <= q < n ==> M.matrix[p, q] == u[p][q]
          invariant forall q :: 0 <= q < j ==> M.matrix[i, q] == u[i][q]
        {
          Grids.IndexInRange(i, j, m, n);
          M.matrix[i, j] := vals[i * n + j];
        }
      }
      RowsAre(M.matrix, Grids.Unpack(vals, m, n));
      return Ok(M);
    }

    /** identity(m, n): ones on the diagonal, built in an array that then goes
        through the checked constructor, so zero rows fail there. */
    static method Identity(m: nat, n: nat) returns (r: Result<Matrix>)
      ensures r.Ok? <==> m > 0
      ensures m == 0 ==> r == Err(IndexOutOfBounds)
      ensures r.Ok? ==> fresh(r.value) && fresh(r.value.matrix) && r.value.Valid()
      ensures r.Ok? ==> r.value.m == m && r.value.n == n && r.value.Cells() == Grids.Identity(m, n)
    {
      var data := new real[m, n]((_, _) => 0.0);
      var i := 0;
      while i < m && i < n
        invariant 0 <= i <= m && i <= n
        invariant forall p, q :: 0 <= p < m && 0 <= q < n ==>
          data[p, q] == if p == q && p < i then 1.0 else 0.0
      {
        data[i, i] := 1.0;
        i := i + 1;
      }
      RowsAre(data, Grids.Identity(m, n));
      r := FromRows(Rows(data));
    }

    // -------------------------------------------------------------------
    // Copies and the live buffer

    /** copy(): a new matrix with its own buffer holding the same values. */
    method Copy() returns (M: Matrix)
      requires Valid()
      ensures fresh(M) && fresh(M.matrix) && M.Valid()
      ensures M.m == m && M.n == n && M.Cells() == Cells()
    {
      M := new Matrix.Zeros(m, n);
      for i := 0 to m
        invariant forall p, q :: 0 <= p < i && 0 <= q < n ==> M.matrix[p, q] == matrix[p, q]
      {
        for j := 0 to n
          invariant forall p, q :: 0 <= p < i && 0 <= q < n ==> M.matrix[p, q] == matrix[p, q]
          invariant forall q :: 0 <= q < j ==> M.matrix[i, q] == matrix[i, q]
        {
          M.matrix[i, j] := matrix[i, j];
        }
      }
      RowsAre(M.matrix, Cells());
    }

    /** clone(): the same as copy(). */
    method Clone() returns (M: Matrix)
      requires Valid()
      ensures fresh(M) && fresh(M.matrix) && M.Valid()
      ensures M.m == m && M.n == n && M.Cells() == Cells()
    {
      M := Copy();
    }

    /** getArrayCopy(): a fresh buffer holding the same values. */
    method GetArrayCopy() returns (copy: array2<real>)
      requires Valid()
      ensures fresh(copy) && copy.Length0 == m && copy.Length1 == n
      ensures Rows(copy) == Cells()
    {
      copy := new real[m, n]((_, _) => 0.0);
      for i := 0 to m
        invariant forall p, q :: 0 <= p < i && 0 <= q < n ==> copy[p, q] == matrix[p, q]
      {
        for j := 0 to n
          invariant forall p, q :: 0 <= p < i && 0 <= q < n ==> copy[p, q] == matrix[p, q]
          invariant forall q :: 0 <= q < j ==> copy[i, q] == matrix[i, q]
        {
          copy[i, j] := matrix[i, j];
        }
      }
      RowsAre(copy, Cells());
    }

    /** getArray(): the live buffer itself, so writes through it are writes
        to this matrix. */
    method GetArray() returns (a: array2<real>)
      requires Valid()
      ensures a == matrix && Rows(a) == Cells()
    {
      a := matrix;
    }

    // -------------------------------------------------------------------
    // Shape and element access

    /** getRowDimension(): the number of rows of the buffer. */
    function GetRowDimension(): (r: nat)
      requires Valid()
      ensures r == matrix.Length0
    {
      m
    }

    /** getColumnDimension(): the number of columns of the buffer. */
    function GetColumnDimension(): (r: nat)
      requires Valid()
      ensures r == matrix.Length1
    {
      n
    }

    /** get(i, j): entry (i, j), or IndexOutOfBounds outside [0,m) x [0,n). */
    method Get(i: int, j: int) returns (r: Result<real>)
      requires Valid()
      ensures r.Ok? <==> 0 <= i < m && 0 <= j < n
      ensures r.Ok? ==> r.value == Cells()[i][j]
      ensures r.Err? ==> r.error == IndexOutOfBounds
    {
      if 0 <= i < m && 0 <= j < n {
        return Ok(matrix[i, j]);
      } else {
        return Err(IndexOutOfBounds);
      }
    }

    /** set(i, j, s): entry (i, j) becomes s and no other entry changes, or
        IndexOutOfBounds, changing nothing, outside [0,m) x [0,n). */
    method Set(i: int, j: int, s: real) returns (r: Result<()>)
      requires Valid()
      modifies matrix
      ensures r.Ok? <==> 0 <= i < m && 0 <= j < n
      ensures r.Err? ==> r.error == IndexOutOfBounds
      ensures r.Ok? ==> matrix[i, j] == s
      ensures forall p, q :: 0 <= p < m && 0 <= q < n && (p != i || q != j) ==>
        matrix[p, q] == old(matrix[p, q])
      ensures Cells() == if r.Ok? then old(Cells())[i := old(Cells())[i][j := s]] else old(Cells())
    {
      if 0 <= i < m && 0 <= j < n {
        matrix[i, j] := s;
        RowsAre(matrix, old(Cells())[i := old(Cells())[i][j := s]]);
        return Ok(());
      } else {
        RowsAre(matrix, old(Cells()));
        return Err(IndexOutOfBounds);
      }
    }

    // -------------------------------------------------------------------
    // Arithmetic returning a new matrix

    /** plus(B): null on a shape mismatch; otherwise the sum in a matrix made
        by the checked constructor, which fails when there are no rows. */
    method Plus(B: Matrix) returns (r: Result<Matrix?>)
      requires Valid() && B.Valid()
      ensures B.m != m || B.n != n ==> r == Ok(null)
      ensures B.m == m && B.n == n && m == 0 ==> r == Err(IndexOutOfBounds)
      ensures B.m == m && B.n == n && m > 0 ==> r.Ok? && r.value != null
      ensures r.Ok? && r.value != null ==>
        fresh(r.value) && fresh(r.value.matrix) && r.value.Valid() && r.value.m == m && r.value.n == n &&
        r.value.Cells() == Grids.Add(Cells(), B.Cells(), m, n)
      ensures unchanged(matrix, B.matrix)
    {
      if B.m == m && B.n == n {
        var made := FromRows(Grids.Constant(m, n, 0.0));
        if made.Err? {
          return Err(made.error);
        }
        var C := made.value;
        for i := 0 to m
          invariant forall p, q :: 0 <= p < i && 0 <= q < n ==> C.matrix[p, q] == matrix[p, q] + B.matrix[p, q]
        {
          for j := 0 to n
            invariant forall p, q :: 0 <= p < i && 0 <= q < n ==> C.matrix[p, q] == matrix[p, q] + B.matrix[p, q]
            invariant forall q :: 0 <= q < j ==> C.matrix[i, q] == matrix[i, q] + B.matrix[i, q]
          {
            var b := B.Get(i, j);
            var _ := C.Set(i, j, matrix[i, j] + b.value);
          }
        }
        RowsAre(C.matrix, Grids.Add(Cells(), B.Cells(), m, n));
        return Ok(C);
      } else {
        return Ok(null);
      }
    }

    /** minus(B): null on a shape mismatch; otherwise the difference in a
        matrix made by the checked constructor, which fails when there are no
        rows. */
    method Minus(B: Matrix) returns (r: Result<Matrix?>)
      requires Valid() && B.Valid()
      ensures B.m != m || B.n != n ==> r == Ok(null)
      ensures B.m == m && B.n == n && m == 0 ==> r == Err(IndexOutOfBounds)
      ensures B.m == m && B.n == n && m > 0 ==> r.Ok? && r.value != null
      ensures r.Ok? && r.value != null ==>
        fresh(r.value) && fresh(r.value.matrix) && r.value.Valid() && r.value.m == m && r.value.n == n &&
        r.value.Cells() == Grids.Sub(Cells(), B.Cells(), m, n)
      ensures unchanged(matrix, B.matrix)
    {
      if B.m == m && B.n == n {
        var made := FromRows(Grids.Constant(m, n, 0.0));
        if made.Err? {
          return Err(made.error);
        }
        var C := made.value;
        for i := 0 to m
          invariant forall p, q :: 0 <= p < i && 0 <= q < n ==> C.matrix[p, q] == matrix[p, q] - B.matrix[p, q]
        {
          for j := 0 to n
            invariant forall p, q :: 0 <= p < i && 0 <= q < n ==> C.matrix[p, q] == matrix[p, q] - B.matrix[p, q]
            invariant forall q :: 0 <= q < j ==> C.matrix[i, q] == matrix[i, q] - B.matrix[i, q]
          {
            var b := B.Get(i, j);
            var _ := C.Set(i, j, matrix[i, j] - b.value);
          }
        }
        RowsAre(C.matrix, Grids.Sub(Cells(), B.Cells(), m, n));
        return Ok(C);
      } else {
        return Ok(null);
      }
    }

    /** uminus(): the negation, built in an array that then goes through the
        checked constructor, so zero rows fail there. */
    method Uminus() returns (r: Result<Matrix>)
      requires Valid()
      ensures r.Ok? <==> m > 0
      ensures m == 0 ==> r == Err(IndexOutOfBounds)
      ensures r.Ok? ==> fresh(r.value) && fresh(r.value.matrix) && r.value.Valid()
      ensures r.Ok? ==> r.value.m == m && r.value.n == n && r.value.Cells() == Grids.Neg(Cells(), m, n)
    {
      var A := new real[m, n]((_, _) => 0.0);
      for i := 0 to m
        invariant forall p, q :: 0 <= p < i && 0 <= q < n ==> A[p, q] == -matrix[p, q]
      {
        for j := 0 to n
          invariant forall p, q :: 0 <= p < i && 0 <= q < n ==> A[p, q] == -matrix[p, q]
          invariant forall q :: 0 <= q < j ==> A[i, q] == -matrix[i, q]
        {
          A[i, j] := -matrix[i, j];
        }
      }
      RowsAre(A, Grids.Neg(Cells(), m, n));
      r := FromRows(Rows(A));
    }

    /** transpose(): the n-by-m transpose, built in an array that then goes
        through the checked constructor, so a matrix without columns (whose
        transpose has no rows) fails there. */
    method Transpose() returns (r: Result<Matrix>)
      requires Valid()
      ensures r.Ok? <==> n > 0
      ensures n == 0 ==> r == Err(IndexOutOfBounds)
      ensures r.Ok? ==> fresh(r.value) && fresh(r.value.matrix) && r.value.Valid()
      ensures r.Ok? ==> r.value.m == n && r.value.n == m && r.value.Cells() == Grids.Transpose(Cells(), m, n)
    {
      var A := new real[n, m]((_, _) => 0.0);
      for i := 0 to m
        invariant forall p, q :: 0 <= p < i && 0 <= q < n ==> A[q, p] == matrix[p, q]
      {
        for j := 0 to n
          invariant forall p, q :: 0 <= p < i && 0 <= q < n ==> A[q, p] == matrix[p, q]
          invariant forall q :: 0 <= q < j ==> A[q, i] == matrix[i, q]
        {
          A[j, i] := matrix[i, j];
        }
      }
      RowsAre(A, Grids.Transpose(Cells(), m, n));
      r := FromRows(Rows(A));
    }

    // -------------------------------------------------------------------
    // Arithmetic in place

    /** plusEquals(B): on matching shapes every entry gains B's entry and the
        result is this matrix; on a mismatch the result is null and nothing
        changes. B may be this matrix itself. */
    method PlusEquals(B: Matrix) returns (r: Matrix?)
      requires Valid() && B.Valid()
      modifies matrix
      ensures B.m == m && B.n == n ==> r == this && Cells() == Grids.Add(old(Cells()), old(B.Cells()), m, n)
      ensures B.m != m || B.n != n ==> r == null && Cells() == old(Cells())
    {
      if B.m == m && B.n == n {
        for i := 0 to m
          invariant forall p, q :: 0 <= p < m && 0 <= q < n ==>
            matrix[p, q] == if p < i then old(matrix[p, q]) + old(B.matrix[p, q]) else old(matrix[p, q])
          invariant forall p, q :: i <= p < m && 0 <= q < n ==> B.matrix[p, q] == old(B.matrix[p, q])
        {
          for j := 0 to n
            invariant forall p, q :: 0 <= p < m && 0 <= q < n ==>
              matrix[p, q] == if p < i || (p == i && q < j) then old(matrix[p, q]) + old(B.matrix[p, q]) else old(matrix[p, q])
            invariant forall p, q :: 0 <= p < m && 0 <= q < n && (p > i || (p == i && q >= j)) ==>
              B.matrix[p, q] == old(B.matrix[p, q])
          {
            var b := B.Get(i, j);
            matrix[i, j] := matrix[i, j] + b.value;
          }
        }
        RowsAre(matrix, Grids.Add(old(Cells()), old(B.Cells()), m, n));
        return this;
      } else {
        return null;
      }
    }

    /** minusEquals(B): on matching shapes every entry loses B's entry and the
        result is this matrix; on a mismatch the result is null and nothing
        changes. B may be this matrix itself. */
    method MinusEquals(B: Matrix) returns (r: Matrix?)
      requires Valid() && B.Valid()
      modifies matrix
      ensures B.m == m && B.n == n ==> r == this && Cells() == Grids.Sub(old(Cells()), old(B.Cells()), m, n)
      ensures B.m != m || B.n != n ==> r == null && Cells() == old(Cells())
    {
      if B.m == m && B.n == n {
        for i := 0 to m
          invariant forall p, q :: 0 <= p < m && 0 <= q < n ==>
            matrix[p, q] == if p < i then old(matrix[p, q]) - old(B.matrix[p, q]) else old(matrix[p, q])
          invariant forall p, q :: i <= p < m && 0 <= q < n ==> B.matrix[p, q] == old(B.matrix[p, q])
        {
          for j := 0 to n
            invariant forall p, q :: 0 <= p < m && 0 <= q < n ==>
              matrix[p, q] == if p < i || (p == i && q < j) then old(matrix[p, q]) - old(B.matrix[p, q]) else old(matrix[p, q])
            invariant forall p, q :: 0 <= p < m && 0 <= q < n && (p > i || (p == i && q >= j)) ==>
              B.matrix[p, q] == old(B.matrix[p, q])
          {
            var b := B.Get(i, j);
            matrix[i, j] := matrix[i, j] - b.value;
          }
        }
        RowsAre(matrix, Grids.Sub(old(Cells()), old(B.Cells()), m, n));
        return this;
      } else {
        return null;
      }
    }

    /** timesEquals(s): every entry is multiplied by s; the result is this
        matrix. */
    method TimesEquals(s: real) returns (r: Matrix)
      requires Valid()
      modifies matrix
      ensures r == this && Cells() == Grids.Scale(old(Cells()), m, n, s)
    {
      for i := 0 to m
        invariant forall p, q :: 0 <= p < m && 0 <= q < n ==>
          matrix[p, q] == if p < i then old(matrix[p, q]) * s else old(matrix[p, q])
      {
        for j := 0 to n
          invariant forall p, q :: 0 <= p < m && 0 <= q < n ==>
            matrix[p, q] == if p < i || (p == i && q < j) then old(matrix[p, q]) * s else old(matrix[p, q])
        {
          matrix[i, j] := matrix[i, j] * s;
        }
      }
      RowsAre(matrix, Grids.Scale(old(Cells()), m, n, s));
      return this;
    }

    // -------------------------------------------------------------------
    // Reductions

    /** trace(): the sum of entries (i, i) for i < min(m, n). */
    method Trace() returns (sum: real)
      requires Valid()
      ensures sum == Grids.Trace(Cells(), m, n)
    {
      ghost var g := Cells();
      sum := 0.0;
      var i := 0;
      while i < m && i < n
        invariant 0 <= i <= m && i <= n
        invariant sum == Grids.DiagSum(g, i)
      {
        sum := sum + matrix[i, i];
        i := i + 1;
      }
    }

    /** normInF(): the largest absolute row sum, starting from 0. */
    method NormInF() returns (sum: real)
      requires Valid()
      ensures sum == Grids.NormInf(Cells(), m, n)
      ensures sum >= 0.0 && forall i :: 0 <= i < m ==> Grids.RowAbsSum(Cells()[i], n) <= sum
      ensures m > 0 ==> exists i :: 0 <= i < m && sum == Grids.RowAbsSum(Cells()[i], n)
    {
      ghost var g := Cells();
      sum := 0.0;
      for i := 0 to m
        invariant sum == Grids.MaxRowSum(g, m, n, i)
      {
        var temp := 0.0;
        for j := 0 to n
          invariant temp == Grids.RowAbsSum(g[i], j)
        {
          temp := temp + Grids.Abs(matrix[i, j]);
        }
        if temp > sum {
          sum := temp;
        }
      }
      Grids.NormInfIsMaxRowSum(g, m, n);
    }

    /** norm1(): the largest absolute column sum, starting from 0. */
    method Norm1() returns (sum: real)
      requires Valid()
      ensures sum == Grids.Norm1(Cells(), m, n)
      ensures sum >= 0.0 && forall j :: 0 <= j < n ==> Grids.ColAbsSum(Cells(), m, n, j, m) <= sum
      ensures n > 0 ==> exists j :: 0 <= j < n && sum == Grids.ColAbsSum(Cells(), m, n, j, m)
    {
      ghost var g := Cells();
      sum := 0.0;
      for i := 0 to n
        invariant sum == Grids.MaxColSum(g, m, n, i)
      {
        var temp := 0.0;
        for j := 0 to m
          invariant temp == Grids.ColAbsSum(g, m, n, i, j)
        {
          temp := temp + Grids.Abs(matrix[j, i]);
        }
        if temp > sum {
          sum := temp;
        }
      }
      Grids.Norm1IsMaxColSum(g, m, n);
    }

    // -------------------------------------------------------------------
    // Packed copies

    /** getColumnPackedCopy(): despite its name, a row-major packing; entry
        (i, j) goes to index i*n + j of a fresh array of length m*n. */
    method GetColumnPackedCopy() returns (copy: array<real>)
      requires Valid()
      ensures fresh(copy) && copy.Length == m * n
      ensures copy[..] == Grids.Flatten(Cells())
    {
      ghost var g := Cells();
      copy := new real[m * n](_ => 0.0);
      for i := 0 to m
        invariant i * n <= m * n
        invariant copy[..i * n] == Grids.Flatten(g[..i])
      {
        Grids.MulLe(i + 1, m, n);
        for j := 0 to n
          invariant i * n + j <= m * n
          invariant copy[..i * n + j] == Grids.Flatten(g[..i]) + g[i][..j]
        {
          copy[i * n + j] := matrix[i, j];
          assert copy[..i * n + j + 1] == copy[..i * n + j] + [g[i][j]];
          assert g[i][..j + 1] == g[i][..j] + [g[i][j]];
        }
        assert g[..i + 1][..i] == g[..i];
        assert (i + 1) * n == i * n + n;
      }
      assert g[..m] == g;
    }

    /** getRowPackedCopy(): despite its name, a column-major packing; entry
        (j, i) goes to index i*m + j of a fresh array of length m*n. */
    method GetRowPackedCopy() returns (copy: array<real>)
      requires Valid()
      ensures fresh(copy) && copy.Length == m * n
      ensures copy[..] == Grids.Flatten(Grids.Transpose(Cells(), m, n))
    {
      ghost var t := Grids.Transpose(Cells(), m, n);
      copy := new real[m * n](_ => 0.0);
      assert m * n == n * m;
      for i := 0 to n
        invariant i * m <= n * m
        invariant copy[..i * m] == Grids.Flatten(t[..i])
      {
        Grids.MulLe(i + 1, n, m);
        for j := 0 to m
          invariant i * m + j <= n * m
          invariant copy[..i * m + j] == Grids.Flatten(t[..i]) + t[i][..j]
        {
          copy[i * m + j] := matrix[j, i];
          assert copy[..i * m + j + 1] == copy[..i * m + j] + [t[i][j]];
          assert t[i][..j + 1] == t[i][..j] + [t[i][j]];
        }
        assert t[..i + 1][..i] == t[..i];
        assert (i + 1) * m == i * m + m;
      }
      assert t[..n] == t;
    }
  }
}
