/** The loops of the LU decomposition, each over the flat array it overwrites. */
module Elimination {
  import opened RealSums
  import opened Matrices
  import opened FlatMatrix
  import opened LuDecomposition

  /** Reciprocal of the largest entry of each row; a zero row is reported instead. */
  method RowScales(n: nat, a: array<real>) returns (ok: bool, scale: seq<real>)
    requires a.Length == n * n
    ensures ok <==> !HasZeroRow(Rows(a[..], n, n))
    ensures ok ==> scale == Scales(Rows(a[..], n, n))
  {
    hide Mul, Pos;
    ghost var A := Rows(a[..], n, n);
    scale := seq(n, _ => 0.0);
    for i := 0 to n
      invariant |scale| == n
      invariant forall t :: 0 <= t < i ==> !ZeroRow(A[t]) && scale[t] == Scale(A[t])
    {
      var big := 0.0;
      var ptr := Pos(n, i, 0);
      for j := 0 to n
        invariant ptr == Pos(n, i, 0) + j
        invariant big == RowMax(A[i], j)
      {
        GetCell(a[..], n, n, i, j);
        PosInside(n, n, i, j);
        var t := Abs(a[ptr]);
        if t > big {
          big := t;
        }
        ptr := ptr + 1;
      }
      RowMaxZero(A[i]);
      if big == 0.0 {
        return false, scale;
      }
      scale := scale[i := 1.0 / big];
    }
    ok := true;
  }

  /** The row of largest scaled entry in column k, from row k on; imax is kept when all entries are zero. */
  method FindPivot(n: nat, a: array<real>, k: nat, scale: seq<real>, imax0: int) returns (imax: int)
    requires a.Length == n * n && k < n == |scale|
    ensures imax == PivotScan(Rows(a[..], n, n), scale, k, k, 0.0, imax0)
  {
    hide Mul, Pos;
    ghost var A := Rows(a[..], n, n);
    imax := imax0;
    var big := 0.0;
    var ptr1 := Pos(n, k, 0) + k;
    for i := k to n
      invariant i < n ==> ptr1 == Pos(n, i, 0) + k
      invariant PivotScan(A, scale, k, k, 0.0, imax0) == PivotScan(A, scale, k, i, big, imax)
    {
      GetCell(a[..], n, n, i, k);
      PosInside(n, n, i, k);
      var t := Mul(scale[i], Abs(a[ptr1]));
      if t > big {
        big, imax := t, i;
      }
      ptr1 := ptr1 + n;
    }
  }

  method ExchangeRows(n: nat, a: array<real>, p: nat, q: nat)
    requires a.Length == n * n && p < n && q < n && p != q
    modifies a
    ensures Rows(a[..], n, n) == Swap(old(Rows(a[..], n, n)), p, q)
  {
    hide Pos, At, Mixed;
    ghost var A := Rows(a[..], n, n);
    var ptr1, ptr2 := Pos(n, p, 0), Pos(n, q, 0);
    for j := 0 to n
      invariant ptr1 == Pos(n, p, 0) + j && ptr2 == Pos(n, q, 0) + j
      invariant Rows(a[..], n, n) == A[p := Mixed(A[q], A[p], j)][q := Mixed(A[p], A[q], j)]
    {
      MixedStep(A[q], A[p], j);
      MixedStep(A[p], A[q], j);
      ghost var s := a[..];
      ExchangeCells(s, n, p, q, j);
      PosInside(n, n, p, j);
      PosInside(n, n, q, j);
      var t := a[ptr1];
      a[ptr1] := a[ptr2];
      a[ptr2] := t;
      assert a[..] == s[ptr1 := s[ptr2]][ptr2 := s[ptr1]];
      ptr1, ptr2 := ptr1 + 1, ptr2 + 1;
    }
  }

  /** The row below the pivot with its columns up to h-1 done. */
  ghost function ReducedTo(row: Vector, pivot: Vector, k: nat, h: nat): (r: Vector)
    requires k < h <= |row| == |pivot| && pivot[k] != 0.0
    ensures |r| == |row|
    ensures h == |row| ==> r == EliminateRow(row, pivot, k)
  {
    seq(|row|, j requires 0 <= j < |row| => if j < h then EliminateRow(row, pivot, k)[j] else row[j])
  }

  lemma ReducedStep(row: Vector, pivot: Vector, k: nat, h: nat)
    requires k < h <= |row| == |pivot| && pivot[k] != 0.0
    ensures h == k + 1 ==> ReducedTo(row, pivot, k, h) == row[k := Div(row[k], pivot[k])]
    ensures h < |row| ==> ReducedTo(row, pivot, k, h)[h] == row[h]
    ensures h < |row| ==>
      ReducedTo(row, pivot, k, h + 1) == ReducedTo(row, pivot, k, h)[h := row[h] - Mul(Div(row[k], pivot[k]), pivot[h])]
  {
    hide Mul, Div;
    var l := Div(row[k], pivot[k]);
    var r, e := ReducedTo(row, pivot, k, h), EliminateRow(row, pivot, k);
    assert forall j :: 0 <= j < k ==> e[j] == row[j];
    assert e[k] == l;
    assert forall j :: k < j < |row| ==> e[j] == row[j] - Mul(l, pivot[j]);
    if h == k + 1 {
      assert forall j :: 0 <= j < |row| ==> r[j] == row[k := l][j];
    }
    if h < |row| {
      var r' := ReducedTo(row, pivot, k, h + 1);
      assert forall j :: 0 <= j < |row| ==> r'[j] == r[h := row[h] - Mul(l, pivot[h])][j];
    }
  }

  /** Subtract the multiple of row k that clears column k of row i, and keep the multiplier there. */
  method ReduceRow(n: nat, a: array<real>, k: nat, i: nat)
    requires a.Length == n * n && k < i < n && Rows(a[..], n, n)[k][k] != 0.0
    modifies a
    ensures var A := old(Rows(a[..], n, n));
      Rows(a[..], n, n) == A[i := EliminateRow(A[i], A[k], k)]
  {
    hide Pos, At, Mul, Div, EliminateRow, ReducedTo;
    ghost var A := Rows(a[..], n, n);
    var ptr, ptr1 := Pos(n, k, 0), Pos(n, i, 0);
    PosInside(n, n, k, k);
    PosInside(n, n, i, k);
    GetCell(a[..], n, n, k, k);
    GetCell(a[..], n, n, i, k);
    var t := Div(a[ptr1 + k], a[ptr + k]);
    SetCell(a[..], n, n, i, k, t);
    a[ptr1 + k] := t;
    ReducedStep(A[i], A[k], k, k + 1);
    for j := k + 1 to n
      invariant Rows(a[..], n, n) == A[i := ReducedTo(A[i], A[k], k, j)]
    {
      ReducedStep(A[i], A[k], k, j);
      PosInside(n, n, i, j);
      PosInside(n, n, k, j);
      GetCell(a[..], n, n, i, j);
      GetCell(a[..], n, n, k, j);
      SetCell(a[..], n, n, i, j, a[ptr1 + j] - Mul(t, a[ptr + j]));
      a[ptr1 + j] := a[ptr1 + j] - Mul(t, a[ptr + j]);
    }
  }

  /** Clear column k below the pivot, one row at a time. */
  method ReduceBelow(n: nat, a: array<real>, k: nat)
    requires a.Length == n * n && k < n && Rows(a[..], n, n)[k][k] != 0.0
    modifies a
    ensures Rows(a[..], n, n) == Eliminated(old(Rows(a[..], n, n)), n, k, n)
  {
    hide Pos, At, Mul, Div, EliminateRow;
    ghost var A := Rows(a[..], n, n);
    for i := k + 1 to n
      invariant Rows(a[..], n, n) == Eliminated(A, n, k, i)
    {
      ReduceRow(n, a, k, i);
    }
  }

  /** Bring row p into place k and keep the pivot away from zero. */
  method PlacePivot(n: nat, a: array<real>, k: nat, p: nat)
    requires a.Length == n * n && k < n && p < n
    modifies a
    ensures Rows(a[..], n, n) == InPlace(old(Rows(a[..], n, n)), n, k, p)
  {
    hide Pos, At;
    if k != p {
      ExchangeRows(n, a, k, p);
    }
    GetCell(a[..], n, n, k, k);
    SetCell(a[..], n, n, k, k, TINY);
    PosInside(n, n, k, k);
    var ptr := Pos(n, k, 0);
    if a[ptr + k] == 0.0 {
      a[ptr + k] := TINY;
    }
  }

  /** One column: search, exchange, clear. */
  method ReduceColumn(n: nat, a: array<real>, k: nat, scale0: seq<real>, idx0: seq<int>, np0: int, imax0: int)
    returns (scale: seq<real>, idx: seq<int>, np: int, imax: int)
    requires a.Length == n * n && k < n == |scale0| == |idx0| && 0 <= imax0 < n
    modifies a
    ensures LuState(Rows(a[..], n, n), scale, idx, np, imax)
         == LuStep(LuState(old(Rows(a[..], n, n)), scale0, idx0, np0, imax0), n, k)
  {
    hide Pos, At, Mul, PivotScan, InPlace, Eliminated, Rows;
    scale, idx, np := scale0, idx0, np0;
    imax := FindPivot(n, a, k, scale, imax0);
    PivotScanRange(Rows(a[..], n, n), scale, k, k, 0.0, imax0);
    PlacePivot(n, a, k, imax);
    if k != imax {
      np := np + 1;
      scale := scale[imax := scale[k]];
    }
    idx := idx[k := imax];
    ReduceBelow(n, a, k);
  }

  method ReduceAll(n: nat, a: array<real>, scale0: seq<real>, idx0: seq<int>) returns (idx: seq<int>, np: int)
    requires a.Length == n * n && n == |scale0| == |idx0|
    modifies a
    ensures var r := LuRun(LuState(old(Rows(a[..], n, n)), scale0, idx0, 0, 0), n, n);
      Rows(a[..], n, n) == r.m && idx == r.idx && np == r.np
  {
    hide LuStep, Rows;
    ghost var s := LuState(Rows(a[..], n, n), scale0, idx0, 0, 0);
    var scale, imax := scale0, 0;
    idx, np := idx0, 0;
    for k := 0 to n
      invariant LuRun(s, n, k) == LuState(Rows(a[..], n, n), scale, idx, np, imax)
    {
      scale, idx, np, imax := ReduceColumn(n, a, k, scale, idx, np, imax);
    }
  }
}
