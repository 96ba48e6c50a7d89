/** Filling the matrix and the right-hand side of the least squares fit. */
module NormalEquations {
  import opened RealSums
  import opened Matrices
  import opened FlatMatrix
  import opened Columns
  import opened LeastSquares

  /** Row i of the flat samples starts at i m. */
  lemma RowInside(s: seq<real>, n: nat, m: nat, i: nat)
    requires |s| == n * m && i < n
    ensures 0 <= Pos(m, i, 0) && Pos(m, i, 0) + m <= |s|
    ensures forall k :: 0 <= k < m ==> El(s, Pos(m, i, 0) + k) == At(Rows(s, n, m), i, k)
  {
    hide Pos;
    RowsApart(m, i, n);
    NextRow(n, m, i);
    FirstRow(m);
    if i > 0 {
      RowsApart(m, 0, i);
    }
    LastRow(n, m);
    forall k | 0 <= k < m
      ensures El(s, Pos(m, i, 0) + k) == At(Rows(s, n, m), i, k)
    {
      GetCell(s, n, m, i, k);
      PosInside(n, m, i, k);
    }
  }

  lemma LastRow(n: nat, m: nat)
    ensures Pos(m, n, 0) == n * m
  {
  }

  method GramCell(m: nat, n: nat, x: array<real>, i: nat, j: nat) returns (t: real)
    requires x.Length == n * m && i < n && j < n
    ensures t == GramEntry(Rows(x[..], n, m), m, i, j)
  {
    hide Mul, Pos, Rows, At;
    ghost var s := x[..];
    RowInside(s, n, m, i);
    RowInside(s, n, m, j);
    var p, q := Pos(m, i, 0), Pos(m, j, 0);
    t := FlatDot(m, x, p, x, q);
    SumEq(m, k => Mul(El(s, p + k), El(s, q + k)), k => Mul(At(Rows(s, n, m), i, k), At(Rows(s, n, m), j, k)));
  }

  method MomentCell(m: nat, n: nat, x: array<real>, y: array<real>, i: nat) returns (t: real)
    requires x.Length == n * m && y.Length == m && i < n
    ensures t == Inner(Rows(x[..], n, m), m, i, y[..])
  {
    hide Mul, Pos, Rows, At;
    ghost var s, v := x[..], y[..];
    RowInside(s, n, m, i);
    var p := Pos(m, i, 0);
    t := FlatDot(m, x, p, y, 0);
    SumEq(m, k => Mul(El(s, p + k), El(v, 0 + k)), k => Mul(At(Rows(s, n, m), i, k), El(v, k)));
  }

  method NormalSystem(m: nat, n: nat, x: array<real>, y: array<real>, A: array<real>, Y: array<real>)
    requires x.Length == n * m && y.Length == m && A.Length == n * n && Y.Length == n
    requires A != x && A != y && Y != x && Y != y && Y != A
    modifies A, Y
    ensures Rows(A[..], n, n) == Gram(Rows(x[..], n, m), m, n)
    ensures Y[..] == Moments(Rows(x[..], n, m), m, n, y[..])
  {
    hide Mul, Pos, Rows, At, GramEntry, Inner;
    ghost var X, v := Rows(x[..], n, m), y[..];
    var Aptr := 0;
    FirstRow(n);
    for i := 0 to n
      invariant Aptr == Pos(n, i, 0) && Rows(x[..], n, m) == X && y[..] == v
      invariant forall t, j :: 0 <= t < i && 0 <= j < n ==> Rows(A[..], n, n)[t][j] == GramEntry(X, m, t, j)
      invariant forall t :: 0 <= t < i ==> Y[t] == Inner(X, m, t, v)
    {
      for j := 0 to n
        invariant Aptr == Pos(n, i, 0) + j && Rows(x[..], n, m) == X && y[..] == v
        invariant forall t :: 0 <= t < i ==> Y[t] == Inner(X, m, t, v)
        invariant forall t, j' :: 0 <= t <= i && 0 <= j' < (if t < i then n else j) ==>
          Rows(A[..], n, n)[t][j'] == GramEntry(X, m, t, j')
      {
        PosInside(n, n, i, j);
        var t := GramCell(m, n, x, i, j);
        ghost var s := A[..];
        SetCell(s, n, n, i, j, t);
        A[Aptr] := t;
        assert A[..] == s[Pos(n, i, j) := t];
        Aptr := Aptr + 1;
      }
      Y[i] := MomentCell(m, n, x, y, i);
      NextRow(n, n, i);
    }
    assert forall t :: 0 <= t < n ==> Rows(A[..], n, n)[t] == Gram(X, m, n)[t];
  }
}
