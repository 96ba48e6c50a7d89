/** What the in-place LU decomposition computes, as functions on matrices, and what that means. */
module LuDecomposition {
  import opened RealSums
  import opened Matrices

  const TINY: real := 0.000000000000000000000000000001

  function Abs(x: real): real
  {
    if x < 0.0 then -x else x
  }

  // ---- the algorithm, one column at a time

  /** The matrix being overwritten, the row scales, the exchanges so far, their number, and the last pivot row. */
  datatype LuState = LuState(m: Matrix, scale: Vector, idx: seq<int>, np: int, imax: int)

  /** Largest absolute value among the first j entries. */
  function RowMax(row: Vector, j: nat): real
    requires j <= |row|
  {
    if j == 0 then 0.0
    else
      var big := RowMax(row, j - 1);
      if Abs(row[j - 1]) > big then Abs(row[j - 1]) else big
  }

  predicate ZeroRow(row: Vector)
  {
    forall j :: 0 <= j < |row| ==> row[j] == 0.0
  }

  predicate HasZeroRow(A: Matrix)
  {
    exists i :: 0 <= i < |A| && ZeroRow(A[i])
  }

  function Scale(row: Vector): (r: real)
    requires !ZeroRow(row)
    ensures r > 0.0
  {
    RowMaxZero(row);
    1.0 / RowMax(row, |row|)
  }

  function Scales(A: Matrix): (r: Vector)
    requires !HasZeroRow(A)
    ensures |r| == |A|
    ensures forall i :: 0 <= i < |A| ==> r[i] > 0.0
  {
    seq(|A|, i requires 0 <= i < |A| => Scale(A[i]))
  }

  lemma {:induction false} RowMaxPrefix(row: Vector, j: nat)
    requires j <= |row|
    ensures RowMax(row, j) >= 0.0
    ensures RowMax(row, j) == 0.0 <==> forall t :: 0 <= t < j ==> row[t] == 0.0
  {
    if j > 0 {
      RowMaxPrefix(row, j - 1);
    }
  }

  lemma RowMaxZero(row: Vector)
    ensures RowMax(row, |row|) >= 0.0
    ensures RowMax(row, |row|) == 0.0 <==> ZeroRow(row)
  {
    RowMaxPrefix(row, |row|);
  }

  /** Scaled size of the candidate pivot in row i. */
  function Weight(m: Matrix, scale: Vector, k: nat, i: int): real
  {
    Mul(El(scale, i), Abs(At(m, i, k)))
  }

  /** The pivot search from row i on: big and imax are what it holds when it reaches row i. */
  function PivotScan(m: Matrix, scale: Vector, k: nat, i: nat, big: real, imax: int): int
    decreases |m| - i
  {
    if i >= |m| then imax
    else
      var t := Weight(m, scale, k, i);
      if t > big then PivotScan(m, scale, k, i + 1, t, i) else PivotScan(m, scale, k, i + 1, big, imax)
  }

  function EliminateRow(row: Vector, pivot: Vector, k: nat): (r: Vector)
    requires k < |row| == |pivot| && pivot[k] != 0.0
    ensures |r| == |row|
  {
    seq(|row|, j requires 0 <= j < |row| =>
      if j < k then row[j]
      else if j == k then Div(row[k], pivot[k])
      else row[j] - Mul(Div(row[k], pivot[k]), pivot[j]))
  }

  /** Rows k+1 up to h-1 have been cleared below the pivot. */
  function Eliminated(m: Matrix, n: nat, k: nat, h: nat): (r: Matrix)
    requires Shape(m, n, n) && k < h <= n && m[k][k] != 0.0
    ensures Shape(r, n, n)
  {
    seq(n, i requires 0 <= i < n => if k < i < h then EliminateRow(m[i], m[k], k) else m[i])
  }

  ghost predicate Sized(s: LuState, n: nat)
  {
    && Shape(s.m, n, n) && |s.scale| == n && |s.idx| == n
    && 0 <= s.imax && (n > 0 ==> s.imax < n)
  }

  lemma {:induction false} PivotScanRange(m: Matrix, scale: Vector, k: nat, i: nat, big: real, imax: int)
    requires 0 <= imax < |m|
    ensures 0 <= PivotScan(m, scale, k, i, big, imax) < |m|
    decreases |m| - i
  {
    if i < |m| {
      var t := Weight(m, scale, k, i);
      if t > big {
        PivotScanRange(m, scale, k, i + 1, t, i);
      } else {
        PivotScanRange(m, scale, k, i + 1, big, imax);
      }
    }
  }

  /** Row p exchanged into place k, a zero pivot replaced by TINY. */
  function InPlace(m: Matrix, n: nat, k: nat, p: int): (r: Matrix)
    requires Shape(m, n, n) && k < n && 0 <= p < n
    ensures Shape(r, n, n) && r[k][k] != 0.0
  {
    var m1 := Swap(m, k, p);
    if m1[k][k] == 0.0 then m1[k := m1[k][k := TINY]] else m1
  }

  /** Column k: choose the pivot row and bring it into place. */
  function Pivoted(s: LuState, n: nat, k: nat): (r: LuState)
    requires Sized(s, n) && k < n
    ensures Sized(r, n) && r.m[k][k] != 0.0
    ensures r.imax == r.idx[k] == PivotScan(s.m, s.scale, k, k, 0.0, s.imax)
  {
    PivotScanRange(s.m, s.scale, k, k, 0.0, s.imax);
    var p := PivotScan(s.m, s.scale, k, k, 0.0, s.imax);
    LuState(InPlace(s.m, n, k, p), s.scale[p := s.scale[k]], s.idx[k := p], if k != p then s.np + 1 else s.np, p)
  }

  function LuStep(s: LuState, n: nat, k: nat): (r: LuState)
    requires Sized(s, n) && k < n
    ensures Sized(r, n)
  {
    var p := Pivoted(s, n, k);
    p.(m := Eliminated(p.m, n, k, n))
  }

  function LuRun(s: LuState, n: nat, k: nat): (r: LuState)
    requires Sized(s, n) && k <= n
    ensures Sized(r, n)
  {
    if k == 0 then s else LuStep(LuRun(s, n, k - 1), n, k - 1)
  }

  /** idx is whatever the index vector held before the call. */
  function LuStart(A: Matrix, idx: seq<int>): LuState
    requires !HasZeroRow(A)
  {
    LuState(A, Scales(A), idx, 0, 0)
  }

  /** The whole decomposition of a matrix without a zero row. */
  function Decomposed(A: Matrix, n: nat, idx: seq<int>): (r: LuState)
    requires Shape(A, n, n) && !HasZeroRow(A) && |idx| == n
    ensures Sized(r, n)
  {
    LuRun(LuStart(A, idx), n, n)
  }

  // ---- the two factors stored in one matrix

  /** Unit lower factor after k columns. */
  function Lower(m: Matrix, k: nat, i: int, t: int): real
  {
    if i == t then 1.0 else if t < i && t < k then At(m, i, t) else 0.0
  }

  /** What is left of the matrix after k columns; upper triangular once k == n. */
  function Upper(m: Matrix, k: nat, t: int, j: int): real
  {
    if j < t && j < k then 0.0 else At(m, t, j)
  }

  function Recombined(m: Matrix, n: nat, k: nat, i: int, j: int): real
  {
    Sum(n, t => Mul(Lower(m, k, i, t), Upper(m, k, t, j)))
  }

  function Min(a: nat, b: nat): nat
  {
    if a < b then a else b
  }

  /** The same entry with the zero terms of the product left out. */
  function Entry(m: Matrix, k: nat, i: nat, j: nat): real
  {
    Sum(Min(Min(i, j), k), t => Mul(At(m, i, t), At(m, t, j))) +
    if j < i && j < k then Mul(At(m, i, j), At(m, j, j)) else At(m, i, j)
  }

  function Term(m: Matrix, k: nat, i: int, j: int, t: int): real
  {
    Mul(Lower(m, k, i, t), Upper(m, k, t, j))
  }

  lemma TermValue(m: Matrix, k: nat, i: nat, j: nat, t: nat)
    ensures t < i && t < j && t < k ==> Term(m, k, i, j, t) == Mul(At(m, i, t), At(m, t, j))
    ensures j < t && j < k ==> Term(m, k, i, j, t) == 0.0
    ensures i < t || (t < i && k <= t) ==> Term(m, k, i, j, t) == 0.0
    ensures j < i && j < k && t == j ==> Term(m, k, i, j, t) == Mul(At(m, i, j), At(m, j, j))
    ensures !(j < i && j < k) && t == i ==> Term(m, k, i, j, t) == At(m, i, j)
  {
    hide Mul, Div;
  }

  lemma EntryIsProduct(m: Matrix, n: nat, k: nat, i: nat, j: nat)
    requires i < n && j < n && k <= n
    ensures Recombined(m, n, k, i, j) == Entry(m, k, i, j)
  {
    hide Mul;
    var f, g := t => Term(m, k, i, j, t), t => Mul(At(m, i, t), At(m, t, j));
    SumEq(n, t => Mul(Lower(m, k, i, t), Upper(m, k, t, j)), f);
    var q, last := Min(Min(i, j), k), if j < i && j < k then j else i;
    forall t | 0 <= t < q
      ensures f(t) == g(t)
    {
      TermValue(m, k, i, j, t);
    }
    forall t | q <= t < n && t != last
      ensures f(t) == 0.0
    {
      TermValue(m, k, i, j, t);
    }
    TermValue(m, k, i, j, last);
    SumTruncate(last + 1, n, f);
    SumTruncate(q, last, f);
    SumEq(q, f, g);
  }

  // ---- one column keeps the product

  lemma EntrySwapped(m: Matrix, n: nat, k: nat, p: int, i: nat, j: nat)
    requires Shape(m, n, n) && k <= p < n && i < n && j < n
    ensures Entry(Swap(m, k, p), k, i, j) == Entry(m, k, if i == k then p else if i == p then k else i, j)
  {
    hide Mul, Div;
    var m' := Swap(m, k, p);
    var i' := if i == k then p else if i == p then k else i;
    SumEq(Min(Min(i, j), k), t => Mul(At(m', i, t), At(m', t, j)), t => Mul(At(m, i', t), At(m, t, j)));
  }

  lemma CellEliminated(m: Matrix, n: nat, k: nat, i: nat, j: nat)
    requires Shape(m, n, n) && k < n && m[k][k] != 0.0 && i < n && j < n
    ensures var c := At(Eliminated(m, n, k, n), i, j);
      && (i <= k || j < k ==> c == At(m, i, j))
      && (i > k && j == k ==> Mul(c, At(m, k, k)) == At(m, i, k))
      && (i > k && j > k ==> c + Mul(At(Eliminated(m, n, k, n), i, k), At(m, k, j)) == At(m, i, j))
  {
    hide Mul, Div;
  }

  lemma EntryEliminated(m: Matrix, n: nat, k: nat, i: nat, j: nat)
    requires Shape(m, n, n) && k < n && m[k][k] != 0.0 && i < n && j < n
    ensures Entry(Eliminated(m, n, k, n), k + 1, i, j) == Entry(m, k, i, j)
  {
    hide Mul, Div;
    var m' := Eliminated(m, n, k, n);
    var f, f' := t => Mul(At(m, i, t), At(m, t, j)), t => Mul(At(m', i, t), At(m', t, j));
    CellEliminated(m, n, k, i, j);
    forall t | 0 <= t < Min(Min(i, j), k)
      ensures f'(t) == f(t)
    {
      CellEliminated(m, n, k, i, t);
      CellEliminated(m, n, k, t, j);
    }
    SumEq(Min(Min(i, j), k), f', f);
    if j < i && j <= k {
      CellEliminated(m, n, k, j, j);
    }
    if i > k && j > k {
      CellEliminated(m, n, k, k, j);
      assert Sum(k + 1, f') == Sum(k, f') + f'(k);
    }
  }

  // ---- substitution

  /** The products below the diagonal of row i, columns 0 up to i-1. */
  function Head(m: Matrix, i: nat, hi: nat, x: Vector): real
  {
    Sum(hi, j => Mul(At(m, i, j), El(x, j)))
  }

  /** The products right of the diagonal of row i, columns i+1 up to hi-1. */
  function Tail(m: Matrix, i: nat, hi: nat, x: Vector): real
  {
    Sum(hi, j => if i < j then Mul(At(m, i, j), El(x, j)) else 0.0)
  }

  /** Forward substitution with the unit lower factor, rows 0 up to i-1 done. */
  function Forward(m: Matrix, b: Vector, i: nat): (r: Vector)
    requires i <= |b|
    ensures |r| == |b|
  {
    if i == 0 then b
    else
      var x := Forward(m, b, i - 1);
      x[i - 1 := x[i - 1] - Head(m, i - 1, i - 1, x)]
  }

  /** Back substitution with the upper factor, rows n-1 down to i done. */
  function Back(m: Matrix, y: Vector, i: nat): (r: Vector)
    requires i <= |y|
    requires forall t :: i <= t < |y| ==> At(m, t, t) != 0.0
    ensures |r| == |y|
    decreases |y| - i
  {
    if i == |y| then y
    else
      var x := Back(m, y, i + 1);
      x[i := Div(x[i] - Tail(m, i, |y|, x), At(m, i, i))]
  }

  function LowerRow(m: Matrix, n: nat, k: nat, i: int, x: Vector): real
  {
    Sum(n, t => Mul(Lower(m, k, i, t), El(x, t)))
  }

  function UpperRow(m: Matrix, n: nat, k: nat, t: int, x: Vector): real
  {
    Sum(n, j => Mul(Upper(m, k, t, j), El(x, j)))
  }

  lemma HeadFrame(m: Matrix, i: nat, x: Vector, x': Vector)
    requires forall j :: 0 <= j < i ==> El(x, j) == El(x', j)
    ensures Head(m, i, i, x) == Head(m, i, i, x')
  {
    hide Mul;
    SumEq(i, j => Mul(At(m, i, j), El(x, j)), j => Mul(At(m, i, j), El(x', j)));
  }

  lemma TailFrame(m: Matrix, i: nat, hi: nat, x: Vector, x': Vector)
    requires forall j :: i < j < hi ==> El(x, j) == El(x', j)
    ensures Tail(m, i, hi, x) == Tail(m, i, hi, x')
  {
    hide Mul;
    SumEq(hi, j => if i < j then Mul(At(m, i, j), El(x, j)) else 0.0,
              j => if i < j then Mul(At(m, i, j), El(x', j)) else 0.0);
  }

  /** A row of the unit lower factor, seen from its diagonal. */
  lemma LowerRowSplit(m: Matrix, n: nat, i: nat, x: Vector)
    requires i < n
    ensures LowerRow(m, n, n, i, x) == Head(m, i, i, x) + El(x, i)
  {
    hide Mul;
    var f := t => Mul(Lower(m, n, i, t), El(x, t));
    SumTruncate(i + 1, n, f);
    SumEq(i, f, j => Mul(At(m, i, j), El(x, j)));
  }

  /** A row of the upper factor, seen from its diagonal. */
  lemma UpperRowSplit(m: Matrix, n: nat, k: nat, i: nat, x: Vector)
    requires i < n && i <= k
    ensures UpperRow(m, n, k, i, x) == Mul(At(m, i, i), El(x, i)) + Tail(m, i, n, x)
  {
    hide Mul;
    var f := j => Mul(Upper(m, k, i, j), El(x, j));
    var d := j => if j == i then Mul(At(m, i, i), El(x, i)) else 0.0;
    var g := j => if i < j then Mul(At(m, i, j), El(x, j)) else 0.0;
    SumSingle(n, i, d);
    SumAdd(n, d, g);
    SumEq(n, f, j => d(j) + g(j));
  }

  lemma {:induction false} ForwardSolves(m: Matrix, b: Vector, i: nat)
    requires i <= |b|
    ensures forall t :: 0 <= t < i ==> LowerRow(m, |b|, |b|, t, Forward(m, b, i)) == b[t]
    ensures forall t :: i <= t < |b| ==> Forward(m, b, i)[t] == b[t]
  {
    hide Mul, At, LowerRow, Head;
    if i > 0 {
      ForwardSolves(m, b, i - 1);
      var x, x' := Forward(m, b, i - 1), Forward(m, b, i);
      forall t | 0 <= t < i
        ensures LowerRow(m, |b|, |b|, t, x') == b[t]
      {
        LowerRowSplit(m, |b|, t, x);
        LowerRowSplit(m, |b|, t, x');
        HeadFrame(m, t, x, x');
      }
    }
  }

  lemma {:induction false} BackSolves(m: Matrix, y: Vector, k: nat, i: nat)
    requires i <= |y| <= k
    requires forall t :: i <= t < |y| ==> At(m, t, t) != 0.0
    ensures forall t :: i <= t < |y| ==> UpperRow(m, |y|, k, t, Back(m, y, i)) == y[t]
    ensures forall t :: 0 <= t < i ==> Back(m, y, i)[t] == y[t]
    decreases |y| - i
  {
    hide Mul, Div, At, UpperRow, Tail;
    if i < |y| {
      BackSolves(m, y, k, i + 1);
      var x, x' := Back(m, y, i + 1), Back(m, y, i);
      forall t | i <= t < |y|
        ensures UpperRow(m, |y|, k, t, x') == y[t]
      {
        UpperRowSplit(m, |y|, k, t, x);
        UpperRowSplit(m, |y|, k, t, x');
        TailFrame(m, t, |y|, x, x');
        MulLaws(At(m, i, i), x'[i], 0.0);
      }
    }
  }
}
