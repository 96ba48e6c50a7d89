/** The linear algebra calls of class AMath, over the arrays their callers hand in. */
module LinearAlgebra {
  import opened RealSums
  import opened Matrices
  import opened FlatMatrix
  import opened LuDecomposition
  import opened LuCorrectness
  import opened Determinant
  import opened LuDeterminant
  import opened Elimination
  import opened Substitution
  import opened Columns
  import opened LeastSquares
  import opened NormalEquations

  /** An index vector brought to length n: cut short, or extended with zeros. */
  function Resized(idx: seq<int>, n: nat): (r: seq<int>)
    ensures |r| == n
  {
    if n <= |idx| then idx[..n] else idx + seq(n - |idx|, _ => 0)
  }

  lemma DetOfRun(A: Matrix, n: nat, idx: seq<int>)
    requires Shape(A, n, n) && Nonsingular(A, n) && |idx| == n && !HasZeroRow(A)
    ensures var r := Decomposed(A, n, idx); Signed(r.np, Diagonal(r.m, n)) == Det(A, n)
  {
    hide Nonsingular, Det, Diagonal;
    StartHolds(A, n, LuStart(A, idx));
    PivotProduct(A, n, LuStart(A, idx));
  }

  lemma ZeroRowSingular(A: Matrix, n: nat)
    requires Shape(A, n, n)
    ensures HasZeroRow(A) ==> !Nonsingular(A, n)
  {
    if Nonsingular(A, n) {
      NonsingularNoZeroRow(A, n);
    }
  }

  /** The product of the diagonal entries, walking the flat array with stride n + 1. */
  method DiagonalProduct(n: nat, a: array<real>) returns (t: real)
    requires a.Length == n * n
    ensures t == Diagonal(Rows(a[..], n, n), n)
  {
    hide Pos, Mul;
    t := 1.0;
    var ptr := 0;
    FirstRow(n);
    for i := 0 to n
      invariant ptr == Pos(n, i, 0) + i
      invariant t == Diagonal(Rows(a[..], n, n), i)
    {
      PosInside(n, n, i, i);
      GetCell(a[..], n, n, i, i);
      t := Mul(t, a[ptr]);
      ptr := ptr + (n + 1);
    }
  }

  ghost predicate IsIdentity(I: Matrix, n: nat)
  {
    forall i, j :: 0 <= i < n && 0 <= j < n ==> At(I, i, j) == if i == j then 1.0 else 0.0
  }

  method IdentityArray(n: nat) returns (y: array<real>)
    ensures fresh(y) && y.Length == n * n && IsIdentity(Rows(y[..], n, n), n)
  {
    hide Pos, Rows;
    y := new real[n * n](_ => 0.0);
    ZeroRows(y[..], n);
    var yptr := 0;
    FirstRow(n);
    for i := 0 to n
      invariant yptr == Pos(n, i, 0) + i
      invariant forall t, j :: 0 <= t < n && 0 <= j < n ==>
        At(Rows(y[..], n, n), t, j) == if t == j && t < i then 1.0 else 0.0
    {
      PosInside(n, n, i, i);
      ghost var s := y[..];
      SetCell(s, n, n, i, i, 1.0);
      y[yptr] := 1.0;
      assert y[..] == s[Pos(n, i, i) := 1.0];
      ghost var M1, M2 := Rows(s, n, n), Rows(y[..], n, n);
      forall t, j | 0 <= t < n && 0 <= j < n
        ensures At(M2, t, j) == if t == i && j == i then 1.0 else At(M1, t, j)
      {
        assert M2[t] == if t == i then M1[i][i := 1.0] else M1[t];
      }
      yptr := yptr + (n + 1);
    }
  }

  lemma ZeroRows(s: seq<real>, n: nat)
    requires |s| == n * n && forall p :: 0 <= p < |s| ==> s[p] == 0.0
    ensures forall t, j :: 0 <= t < n && 0 <= j < n ==> At(Rows(s, n, n), t, j) == 0.0
  {
    hide Pos;
    forall t, j | 0 <= t < n && 0 <= j < n
      ensures At(Rows(s, n, n), t, j) == 0.0
    {
      GetCell(s, n, n, t, j);
    }
  }

  /** Solving for the columns of the identity gives the inverse, on both sides. */
  lemma InverseByColumns(A: Matrix, n: nat, m: Matrix, idx: seq<int>, I: Matrix, Y: Matrix)
    requires Shape(A, n, n) && Shape(I, n, n) && Shape(Y, n, n) && IsIdentity(I, n) && Nonsingular(A, n)
    requires Factors(A, n, m, idx, n) && Regular(m, n, idx)
    requires forall j :: 0 <= j < n ==> Column(Y, j) == Solution(m, n, idx, Column(I, j))
    ensures IsInverse(A, Y, n) && IsInverse(Y, A, n)
  {
    hide Mul, Solution, Factors, Regular, Nonsingular;
    forall i, j | 0 <= i < n && 0 <= j < n
      ensures Product(A, Y, n, i, j) == if i == j then 1.0 else 0.0
    {
      SolutionSolves(A, n, m, idx, Column(I, j));
      assert Row(A, n, i, Column(Y, j)) == El(Column(I, j), i);
      SumEq(n, t => Mul(At(A, i, t), At(Y, t, j)), t => Mul(At(A, i, t), El(Column(Y, j), t)));
    }
    LeftInverse(A, Y, n);
  }

  lemma LeftInverse(A: Matrix, B: Matrix, n: nat)
    requires Shape(A, n, n) && Shape(B, n, n) && Nonsingular(A, n) && IsInverse(A, B, n)
    ensures IsInverse(B, A, n)
  {
    hide Nonsingular, Product;
    forall i, j | 0 <= i < n && 0 <= j < n
      ensures Product(B, A, n, i, j) == if i == j then 1.0 else 0.0
    {
      LeftEntry(A, B, n, i, j);
    }
  }

  lemma LeftEntry(A: Matrix, B: Matrix, n: nat, i: nat, j: nat)
    requires Shape(A, n, n) && Shape(B, n, n) && Nonsingular(A, n) && IsInverse(A, B, n) && i < n && j < n
    ensures Product(B, A, n, i, j) == if i == j then 1.0 else 0.0
  {
    hide Nonsingular, At, Row, Product, IsInverse;
    var x := seq(n, t => Product(B, A, n, t, j));
    var e := seq(n, t => if t == j then 1.0 else 0.0);
    forall t | 0 <= t < n
      ensures Row(A, n, t, x) == At(A, t, j) == Row(A, n, t, e)
    {
      ApplyProduct(A, B, n, t, j, x);
      UnitColumn(A, n, t, j, e);
    }
    SolutionUnique(A, n, Column(A, j), x, e);
    assert x[i] == Product(B, A, n, i, j);
  }

  lemma UnitColumn(A: Matrix, n: nat, i: nat, j: nat, e: Vector)
    requires i < n && j < n && |e| == n && forall t :: 0 <= t < n ==> e[t] == if t == j then 1.0 else 0.0
    ensures Row(A, n, i, e) == At(A, i, j)
  {
    hide Mul, At;
    SumSingle(n, j, t => Mul(At(A, i, t), El(e, t)));
  }

  /** A (B a_j) = (A B) a_j = a_j. */
  lemma ApplyProduct(A: Matrix, B: Matrix, n: nat, i: nat, j: nat, x: Vector)
    requires i < n && j < n && IsInverse(A, B, n)
    requires |x| == n && forall t :: 0 <= t < n ==> x[t] == Product(B, A, n, t, j)
    ensures Row(A, n, i, x) == At(A, i, j)
  {
    hide Mul, At;
    var l, W, c := t => At(A, i, t), (t, s) => At(B, t, s), s => At(A, s, j);
    ProductApply(n, n, l, W, c);
    forall t | 0 <= t < n
      ensures El(x, t) == Sum(n, s => Mul(W(t, s), c(s)))
    {
      SumEq(n, s => Mul(At(B, t, s), At(A, s, j)), s => Mul(W(t, s), c(s)));
    }
    SumEq(n, t => Mul(At(A, i, t), El(x, t)), t => Mul(l(t), Sum(n, s => Mul(W(t, s), c(s)))));
    var d := s => Mul(Sum(n, t => Mul(l(t), W(t, s))), c(s));
    forall s | 0 <= s < n
      ensures d(s) == if s == i then At(A, i, j) else 0.0
    {
      SumEq(n, t => Mul(l(t), W(t, s)), t => Mul(At(A, i, t), At(B, t, s)));
      assert d(s) == Mul(Product(A, B, n, i, s), c(s));
    }
    SumSingle(n, i, d);
  }

  class AMath {
    var n: int
    var np: int
    var luptr: array?<real>
    var idx: seq<int>

    constructor ()
      ensures Valid() && np < 0
    {
      n, np, luptr, idx := -1, -1, null, [];
    }

    /** Holds between calls: a nonnegative np means that luptr and idx describe some decomposition. */
    ghost predicate Valid()
      reads this
    {
      && (n >= 0 ==> |idx| == n)
      && (np >= 0 ==> n >= 0 && luptr != null && luptr.Length == n * n && Indices(idx, n, n))
    }

    /** The stored factors multiply to A with its rows exchanged, and no pivot is zero. */
    ghost predicate Factored(A: Matrix)
      reads this, luptr
    {
      && np >= 0 && n >= 0 && luptr != null && luptr.Length == n * n
      && Factors(A, n, Rows(luptr[..], n, n), idx, n) && Regular(Rows(luptr[..], n, n), n, idx)
    }

    /** Decomposes in place. Accepts exactly the matrices without a zero row. */
    method LUdcmp(size: nat, a: array<real>) returns (ok: bool)
      requires Valid() && a.Length == size * size
      modifies this, a
      ensures Valid() && n == size && luptr == a && ok == (np >= 0)
      ensures ok == !HasZeroRow(old(Rows(a[..], size, size)))
      ensures !ok ==> a[..] == old(a[..])
      ensures ok ==>
        var r := Decomposed(old(Rows(a[..], size, size)), size, Resized(old(idx), size));
        Rows(a[..], size, size) == r.m && idx == r.idx && np == r.np
      ensures Nonsingular(old(Rows(a[..], size, size)), size) ==>
        ok && Factored(old(Rows(a[..], size, size)))
    {
      hide Nonsingular, Factors, Regular, Scales, HasZeroRow, LuRun, Rows;
      ghost var A := Rows(a[..], size, size);
      ghost var start := Resized(idx, size);
      idx := Resized(idx, size);
      n, np, luptr := size, 0, a;
      var scale;
      ok, scale := RowScales(size, a);
      if Nonsingular(A, size) {
        NonsingularNoZeroRow(A, size);
      }
      if !ok {
        np := -1;
        return;
      }
      idx, np := ReduceAll(size, a, scale, idx);
      RunIndices(LuStart(A, start), size, size);
      if Nonsingular(A, size) {
        RunFactors(A, size, start);
      }
    }

    /** Solves with the stored factors; x may be the same array as b. */
    method LUsolve(b: array<real>, x: array<real>) returns (ok: bool)
      requires Valid() && x != luptr
      requires np >= 0 ==> b.Length == x.Length == n
      modifies x
      ensures ok == (np >= 0)
      ensures !ok ==> x[..] == old(x[..])
      ensures ok && Regular(Rows(luptr[..], n, n), n, idx) ==>
        x[..] == Solution(Rows(luptr[..], n, n), n, idx, old(b[..]))
      ensures forall A :: Factored(A) ==> Solves(A, n, x[..], old(b[..]))
    {
      hide Factors, Rows, Forward, Back, Exchanged, Solves;
      if np < 0 {
        return false;
      }
      ghost var v := b[..];
      if x != b {
        forall i | 0 <= i < n {
          x[i] := b[i];
        }
      }
      assert x[..] == v;
      ForwardInPlace(n, luptr, idx, x);
      BackInPlace(n, luptr, x);
      forall A | Factored(A)
        ensures Solves(A, n, x[..], v)
      {
        SolutionSolves(A, n, Rows(luptr[..], n, n), idx, v);
      }
      ok := true;
    }

    /** Solves for m right-hand sides, the columns of b. */
    method LUsolveColumns(m: nat, b: array<real>, x: array<real>) returns (ok: bool)
      requires Valid() && x != luptr
      requires np >= 0 ==> b.Length == x.Length == n * m
      modifies x
      ensures ok == (np >= 0)
      ensures !ok ==> x[..] == old(x[..])
      ensures ok && Regular(Rows(luptr[..], n, n), n, idx) ==>
        forall j :: 0 <= j < m ==>
          Column(Rows(x[..], n, m), j) == Solution(Rows(luptr[..], n, n), n, idx, old(Column(Rows(b[..], n, m), j)))
      ensures forall A, j :: Factored(A) && 0 <= j < m ==>
        Solves(A, n, Column(Rows(x[..], n, m), j), old(Column(Rows(b[..], n, m), j)))
    {
      hide Factors, Rows, Solution, Column, Solves;
      if np < 0 {
        return false;
      }
      var col := new real[n];
      ghost var M, B := Rows(luptr[..], n, n), Rows(b[..], n, m);
      for j := 0 to m
        invariant fresh(col) && luptr[..] == old(luptr[..])
        invariant x != b ==> b[..] == old(b[..])
        invariant forall j' :: j <= j' < m ==> Column(Rows(b[..], n, m), j') == Column(B, j')
        invariant Regular(M, n, idx) ==>
          forall j' :: 0 <= j' < j ==> Column(Rows(x[..], n, m), j') == Solution(M, n, idx, Column(B, j'))
      {
        GetColumn(n, m, b, j, col);
        var _ := LUsolve(col, col);
        PutColumn(n, m, x, j, col);
      }
      forall A, j | Factored(A) && 0 <= j < m
        ensures Solves(A, n, Column(Rows(x[..], n, m), j), Column(B, j))
      {
        SolutionSolves(A, n, M, idx, Column(B, j));
      }
      ok := true;
    }

    /** The determinant of a nonsingular matrix; 0 when the matrix just found to have a zero row is asked for again.
        When the result is right: for a matrix array refused by the last call, exactly if the matrix is singular now.
        Otherwise it is right if the matrix is nonsingular or has a zero row, which can be told beforehand; for the
        remaining matrices the last disjunct only locates, in the array left behind, the zero that makes it right. */
    method LUDet(size: nat, a: array<real>) returns (t: real)
      requires Valid() && a.Length == size * size
      modifies this, a
      ensures Valid()
      ensures old(luptr == a && np < 0) || HasZeroRow(old(Rows(a[..], size, size))) ==> t == 0.0 && a[..] == old(a[..])
      ensures Nonsingular(old(Rows(a[..], size, size)), size) && !old(luptr == a && np < 0) ==>
        t == Det(old(Rows(a[..], size, size)), size)
      ensures t == Det(old(Rows(a[..], size, size)), size) <==>
        if old(luptr == a && np < 0) then !Nonsingular(old(Rows(a[..], size, size)), size)
        else Nonsingular(old(Rows(a[..], size, size)), size) || HasZeroRow(old(Rows(a[..], size, size)))
             || exists i :: 0 <= i < size && At(Rows(a[..], size, size), i, i) == 0.0
    {
      hide Factors, Rows, Decomposed, Nonsingular, HasZeroRow, Det, Diagonal, Regular, Scales, Mul, Pos, At;
      ghost var A, start := Rows(a[..], size, size), Resized(idx, size);
      DetDecides(A, size);
      if luptr == a && np < 0 {
        return 0.0;
      }
      var ok := LUdcmp(size, a);
      if !ok {
        ZeroRowSingular(A, size);
        return 0.0;
      }
      t := DiagonalProduct(size, a);
      DiagonalZero(Rows(a[..], size, size), size);
      if np % 2 != 0 {
        t := -t;
      }
      if Nonsingular(A, size) {
        DetOfRun(A, size, start);
      }
    }

    /** Replaces a nonsingular matrix by its inverse. */
    method MatrixInvert(size: nat, a: array<real>) returns (ok: bool)
      requires Valid() && a.Length == size * size
      modifies this, a
      ensures Valid()
      ensures ok == !HasZeroRow(old(Rows(a[..], size, size)))
      ensures !ok ==> a[..] == old(a[..])
      ensures Nonsingular(old(Rows(a[..], size, size)), size) ==>
        && IsInverse(old(Rows(a[..], size, size)), Rows(a[..], size, size), size)
        && IsInverse(Rows(a[..], size, size), old(Rows(a[..], size, size)), size)
    {
      hide Factors, Rows, Decomposed, Nonsingular, HasZeroRow, Regular, Scales, Solution, IsInverse, Column;
      ghost var A := Rows(a[..], size, size);
      var y := IdentityArray(size);
      ghost var I := Rows(y[..], size, size);
      ok := LUdcmp(size, a);
      if ok {
        ghost var M := Rows(a[..], size, size);
        var _ := LUsolveColumns(size, y, y);
        if Nonsingular(A, size) {
          InverseByColumns(A, size, M, idx, I, Rows(y[..], size, size));
        }
        ghost var Y := y[..];
        forall i | 0 <= i < size * size {
          a[i] := y[i];
        }
        assert a[..] == Y;
      }
    }

    /** Linear least squares: x holds n basis functions at m samples, y the sample values. */
    method LSFitLinear(m: nat, size: nat, x: array<real>, y: array<real>, c: array<real>) returns (ok: bool)
      requires Valid() && x.Length == size * m && y.Length == m && c.Length == size && c != x && c != y
      modifies this, c
      ensures Valid()
      ensures x[..] == old(x[..]) && y[..] == old(y[..])
      ensures ok == !HasZeroRow(Gram(Rows(x[..], size, m), m, size))
      ensures !ok ==> c[..] == old(c[..])
      ensures Nonsingular(Gram(Rows(x[..], size, m), m, size), size) ==>
        && Solves(Gram(Rows(x[..], size, m), m, size), size, c[..], Moments(Rows(x[..], size, m), m, size, y[..]))
        && forall c' ::
          Cost(Rows(x[..], size, m), m, size, y[..], c[..]) <= Cost(Rows(x[..], size, m), m, size, y[..], c')
    {
      hide Factors, Rows, Decomposed, Nonsingular, HasZeroRow, Regular, Scales, Solution, Gram, Moments, Solves, Cost;
      var A := new real[size * size](_ => 0.0);
      var Y := new real[size](_ => 0.0);
      NormalSystem(m, size, x, y, A, Y);
      ghost var X, v := Rows(x[..], size, m), y[..];
      ok := LUdcmp(size, A);
      if ok {
        var _ := LUsolve(Y, c);
      }
      if Nonsingular(Gram(X, m, size), size) {
        forall c'
          ensures Cost(X, m, size, v, c[..]) <= Cost(X, m, size, v, c')
        {
          Minimises(X, m, size, v, c[..], c');
        }
      }
    }
  }

  /** A refused array that now holds the identity still has the result 0. */
  method RefusedArray() returns (a: array<real>, t: real)
    ensures Rows(a[..], 1, 1) == [[1.0]] && Det([[1.0]], 1) == 1.0 && t == 0.0
  {
    hide Det, Nonsingular, Decomposed, Factors, Regular, HasZeroRow, At, Resized, Rows;
    var math := new AMath();
    a := new real[1](_ => 0.0);
    OneByOne(a[..]);
    var _ := math.LUdcmp(1, a);
    a[0] := 1.0;
    OneByOne(a[..]);
    t := math.LUDet(1, a);
    assert a[..] == [1.0];
    DetOne();
  }

  lemma DetOne()
    ensures Det([[1.0]], 1) == 1.0
  {
    DetTriangular([[1.0]], 1);
  }

  lemma OneByOne(s: seq<real>)
    requires |s| == 1
    ensures Rows(s, 1, 1) == [s] && (HasZeroRow(Rows(s, 1, 1)) <==> s[0] == 0.0)
  {
    var one := Rows(s, 1, 1);
    assert |one| == 1 && one[0] == s;
    assert ZeroRow(s) <==> s[0] == 0.0;
  }

  /** Inverting a copy and multiplying it with the original gives the identity. */
  method InverseTimesOriginal(size: nat, a: array<real>) returns (y: array<real>)
    requires a.Length == size * size && Nonsingular(Rows(a[..], size, size), size)
    ensures fresh(y) && y.Length == size * size && IsIdentity(Rows(y[..], size, size), size)
    ensures a[..] == old(a[..])
  {
    hide Nonsingular, Rows, Product;
    var inverse := Copied(a);
    var math := new AMath();
    var _ := math.MatrixInvert(size, inverse);
    y := new real[size * size];
    MatrixMultiply(size, size, size, inverse, a, y);
  }
}
