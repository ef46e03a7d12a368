/** Client code of the Matrix class: the properties its callers rely on,
    proved from the methods' contracts alone. */
module Scenarios {
  import Grids
  import opened Javatrix

  /** identity(m, n).trace() is min(m, n); building the identity fails when
      there are no rows. */
  method IdentityTrace(m: nat, n: nat) returns (r: Result<real>)
    ensures r.Ok? <==> m > 0
    ensures r.Ok? ==> r.value == Grids.Min(m, n) as real
  {
    var made := Matrix.Identity(m, n);
    if made.Err? {
      return Err(made.error);
    }
    var t := made.value.Trace();
    Grids.IdentityTrace(m, n);
    return Ok(t);
  }

  /** A.transpose().transpose() has A's shape and entries whenever neither
      transpose has zero rows. */
  method TransposeTwice(A: Matrix) returns (r: Result<Matrix>)
    requires A.Valid()
    ensures r.Ok? <==> A.m > 0 && A.n > 0
    ensures r.Ok? ==> r.value.Valid() && r.value.m == A.m && r.value.n == A.n
    ensures r.Ok? ==> r.value.Cells() == A.Cells()
  {
    var once := A.Transpose();
    if once.Err? {
      return once;
    }
    r := once.value.Transpose();
    Grids.TransposeTwice(A.Cells(), A.m, A.n);
  }

  /** A.plus(B).minus(B) has A's entries when the shapes match and there is
      at least one row. */
  method PlusThenMinus(A: Matrix, B: Matrix) returns (r: Result<Matrix?>)
    requires A.Valid() && B.Valid()
    ensures A.m == B.m && A.n == B.n && A.m > 0 ==>
      r.Ok? && r.value != null && r.value.Valid() && r.value.Cells() == A.Cells()
    ensures A.m == B.m && A.n == B.n && A.m == 0 ==> r == Err(IndexOutOfBounds)
    ensures (A.m != B.m || A.n != B.n) ==> r == Ok(null)
  {
    var sum := A.Plus(B);
    if sum.Err? || sum.value == null {
      return sum;
    }
    r := sum.value.Minus(B);
    Grids.SubAdd(A.Cells(), B.Cells(), A.m, A.n);
  }

  /** Feeding getColumnPackedCopy() back into the packed constructor with
      the same row count rebuilds the matrix; with no rows the packed
      constructor fails on the remainder by zero. */
  method ColumnPackedRoundTrip(A: Matrix) returns (r: Result<Matrix>)
    requires A.Valid()
    ensures r.Ok? <==> A.m > 0
    ensures A.m == 0 ==> r == Err(Arithmetic)
    ensures r.Ok? ==> r.value.Valid() && r.value.m == A.m && r.value.n == A.n
    ensures r.Ok? ==> r.value.Cells() == A.Cells()
  {
    var packed := A.GetColumnPackedCopy();
    if A.m > 0 {
      Grids.MulDiv(A.m, A.n);
    }
    r := Matrix.FromPacked(packed[..], A.m);
    Grids.UnpackFlatten(A.Cells(), A.m, A.n);
  }

  /** A write through the array getArray() returns is a write to the
      matrix. */
  method WriteThroughLiveBuffer(M: Matrix, i: nat, j: nat, s: real)
    requires M.Valid() && i < M.m && j < M.n
    modifies M.matrix
    ensures M.Cells() == old(M.Cells())[i := old(M.Cells())[i][j := s]]
  {
    var a := M.GetArray();
    a[i, j] := s;
    RowsAre(M.matrix, old(M.Cells())[i := old(M.Cells())[i][j := s]]);
  }

  /** A write to a copy leaves the original unchanged. */
  method WriteToCopy(M: Matrix, i: nat, j: nat, s: real) returns (C: Matrix)
    requires M.Valid() && i < M.m && j < M.n
    ensures C.Valid() && C != M && C.matrix != M.matrix
    ensures C.Cells() == M.Cells()[i := M.Cells()[i][j := s]]
    ensures M.Cells() == old(M.Cells())
  {
    C := M.Copy();
    var _ := C.Set(i, j, s);
    RowsAre(C.matrix, M.Cells()[i := M.Cells()[i][j := s]]);
  }

  /** A write to the array getArrayCopy() returns leaves the matrix
      unchanged. */
  method WriteToArrayCopy(M: Matrix, i: nat, j: nat, s: real) returns (a: array2<real>)
    requires M.Valid() && i < M.m && j < M.n
    ensures a != M.matrix && Rows(a) == M.Cells()[i := M.Cells()[i][j := s]]
    ensures M.Cells() == old(M.Cells())
  {
    a := M.GetArrayCopy();
    a[i, j] := s;
    RowsAre(a, M.Cells()[i := M.Cells()[i][j := s]]);
  }

  /** The 3-by-3 grid of the repository's norm and packing tests. */
  function TestGrid(): (g: seq<seq<real>>)
    ensures Grids.IsGrid(g, 3, 3)
  {
    [[0.1, 0.2, 0.3], [0.4, 0.5, 0.6], [0.7, 0.8, 0.9]]
  }

  /** Its 1-norm is 1.8 (the last column) and its infinity norm 2.4 (the
      last row). */
  lemma TestGridNorms()
    ensures Grids.Norm1(TestGrid(), 3, 3) == 1.8
    ensures Grids.NormInf(TestGrid(), 3, 3) == 2.4
  {
  }

  /** getColumnPackedCopy lays this grid out row by row, not in the column
      order [0.1, 0.4, 0.7, ...] that the repository's test expects;
      getRowPackedCopy gives that column order. */
  lemma TestGridPackings()
    ensures Grids.Flatten(TestGrid()) == [0.1, 0.2, 0.3, 0.4, 0.5, 0.6, 0.7, 0.8, 0.9]
    ensures Grids.Flatten(Grids.Transpose(TestGrid(), 3, 3)) == [0.1, 0.4, 0.7, 0.2, 0.5, 0.8, 0.3, 0.6, 0.9]
  {
    var g, t := TestGrid(), Grids.Transpose(TestGrid(), 3, 3);
    FlattenThree(g);
    assert t[0] == [0.1, 0.4, 0.7] && t[1] == [0.2, 0.5, 0.8] && t[2] == [0.3, 0.6, 0.9];
    FlattenThree(t);
  }

  lemma FlattenThree(g: seq<seq<real>>)
    requires |g| == 3
    ensures Grids.Flatten(g) == g[0] + g[1] + g[2]
  {
    assert g[..1][..0] == [] && g[..2][..1] == g[..1] && g[..3][..2] == g[..2] && g[..3] == g;
    assert Grids.Flatten(g[..1]) == g[0];
    assert Grids.Flatten(g[..2]) == g[0] + g[1];
  }

  /** The packed constructor unpacks [0, 1, ..., 9] with two rows row by
      row, not into the columns [[0, 2, 4, 6, 8], [1, 3, 5, 7, 9]] that the
      repository's test expects. */
  lemma TestPackedUnpacking()
    ensures Grids.Unpack([0.0, 1.0, 2.0, 3.0, 4.0, 5.0, 6.0, 7.0, 8.0, 9.0], 2, 5) ==
      [[0.0, 1.0, 2.0, 3.0, 4.0], [5.0, 6.0, 7.0, 8.0, 9.0]]
  {
    var u := Grids.Unpack([0.0, 1.0, 2.0, 3.0, 4.0, 5.0, 6.0, 7.0, 8.0, 9.0], 2, 5);
    assert u[0] == [0.0, 1.0, 2.0, 3.0, 4.0];
    assert u[1] == [5.0, 6.0, 7.0, 8.0, 9.0];
  }
}
