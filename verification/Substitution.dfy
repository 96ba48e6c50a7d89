/** The two substitution loops of LUsolve, over the vector they overwrite. */
module Substitution {
  import opened RealSums
  import opened Matrices
  import opened FlatMatrix
  import opened LuDecomposition

  /** Forward substitution leaves positions from i on alone, so an exchange there may come before or after. */
  lemma {:induction false} ForwardSwap(m: Matrix, b: Vector, i: nat, p: nat, q: nat)
    requires i <= p < |b| && i <= q < |b|
    ensures Forward(m, Swap(b, p, q), i) == Swap(Forward(m, b, i), p, q)
  {
    hide Head;
    if i > 0 {
      ForwardSwap(m, b, i - 1, p, q);
      HeadFrame(m, i - 1, Forward(m, b, i - 1), Forward(m, Swap(b, p, q), i - 1));
    }
  }

  lemma HeadZero(m: Matrix, i: nat, lo: nat, x: Vector)
    requires forall t :: 0 <= t < lo ==> El(x, t) == 0.0
    ensures Head(m, i, lo, x) == 0.0
  {
    hide Mul;
    SumZero(lo, j => Mul(At(m, i, j), El(x, j)));
  }

  lemma TailZero(m: Matrix, i: nat, x: Vector)
    ensures Tail(m, i, i + 1, x) == 0.0
  {
    hide Mul;
    SumZero(i + 1, j => if i < j then Mul(At(m, i, j), El(x, j)) else 0.0);
  }

  /** sum0 minus the products of row i with x, columns lo up to i-1. */
  method SubtractHead(n: nat, lu: array<real>, i: nat, lo: nat, x: array<real>, sum0: real) returns (sum: real)
    requires lu.Length == n * n && x.Length == n && lo <= i < n
    ensures (forall t :: 0 <= t < lo ==> x[t] == 0.0) ==> sum == sum0 - Head(Rows(lu[..], n, n), i, i, x[..])
  {
    hide Mul, Pos, At, Rows;
    ghost var M, v := Rows(lu[..], n, n), x[..];
    var ptr := Pos(n, i, 0);
    if forall t :: 0 <= t < lo ==> x[t] == 0.0 {
      HeadZero(M, i, lo, v);
    }
    sum := sum0;
    for j := lo to i
      invariant sum == sum0 - Head(M, i, j, v) + Head(M, i, lo, v)
    {
      Stored(lu[..], n, i, j);
      sum := sum - Mul(lu[ptr + j], x[j]);
    }
  }

  /** x[i] minus the products of row i with x, columns i+1 up to n-1. */
  method SubtractTail(n: nat, lu: array<real>, i: nat, x: array<real>) returns (sum: real)
    requires lu.Length == n * n && x.Length == n && i < n
    ensures sum == x[i] - Tail(Rows(lu[..], n, n), i, n, x[..])
  {
    hide Mul, Pos, At, Rows;
    ghost var M, v := Rows(lu[..], n, n), x[..];
    var ptr := Pos(n, i, 0);
    TailZero(M, i, v);
    sum := x[i];
    for j := i + 1 to n
      invariant sum == x[i] - Tail(M, i, j, v)
    {
      Stored(lu[..], n, i, j);
      sum := sum - Mul(lu[ptr + j], x[j]);
    }
  }

  /** Where entry (i, j) lies in the flat array. */
  lemma Stored(s: seq<real>, n: nat, i: nat, j: nat)
    requires |s| == n * n && i < n && j < n
    ensures 0 <= Pos(n, i, 0) + j < |s|
    ensures s[Pos(n, i, 0) + j] == At(Rows(s, n, n), i, j)
  {
    hide Pos;
    PosInside(n, n, i, j);
    GetCell(s, n, n, i, j);
  }

  ghost predicate Downward(idx: seq<int>)
  {
    forall t :: 0 <= t < |idx| ==> t <= idx[t]
  }

  /** Applies the exchanges and the unit lower factor together, in place. ii skips the leading zeros. */
  method ForwardInPlace(n: nat, lu: array<real>, idx: seq<int>, x: array<real>)
    requires lu.Length == n * n && x.Length == n && lu != x && Indices(idx, n, n)
    modifies x
    ensures Downward(idx) ==>
      x[..] == Forward(Rows(lu[..], n, n), Exchanged(old(x[..]), idx, n), n)
  {
    hide Rows, Head, Forward, Exchanged;
    ghost var M, b := Rows(lu[..], n, n), x[..];
    var ii := 0;
    StartForward(M, b, idx);
    for i := 0 to n
      invariant 0 <= ii <= i
      invariant Downward(idx) ==> forall t :: 0 <= t < (if ii == 0 then i else ii - 1) ==> x[t] == 0.0
      invariant Downward(idx) ==> x[..] == Forward(M, Exchanged(b, idx, i), i)
    {
      ghost var before := x[..];
      var k := idx[i];
      var sum := x[k];
      x[k] := x[i];
      if ii != 0 {
        sum := SubtractHead(n, lu, i, ii - 1, x, sum);
      } else {
        if sum != 0.0 {
          ii := i + 1;
        }
        if Downward(idx) {
          HeadZero(M, i, i, x[..]);
        }
      }
      ghost var z := x[..];
      x[i] := sum;
      if Downward(idx) {
        assert x[..] == Swap(before, i, k)[i := sum];
        ForwardStep(M, b, idx, i, before, z, x[..]);
      }
    }
  }

  lemma ForwardStep(m: Matrix, b: Vector, idx: seq<int>, i: nat, x: Vector, z: Vector, x': Vector)
    requires i < |b| == |x| == |z| && Indices(idx, |b|, |b|) && i <= idx[i]
    requires x == Forward(m, Exchanged(b, idx, i), i)
    requires forall t :: 0 <= t < i ==> z[t] == x[t]
    requires x' == Swap(x, i, idx[i])[i := x[idx[i]] - Head(m, i, i, z)]
    ensures x' == Forward(m, Exchanged(b, idx, i + 1), i + 1)
  {
    hide Head;
    ForwardSwap(m, Exchanged(b, idx, i), i, i, idx[i]);
    HeadFrame(m, i, Swap(x, i, idx[i]), z);
  }

  lemma StartForward(m: Matrix, b: Vector, idx: seq<int>)
    requires Indices(idx, |b|, |b|)
    ensures Forward(m, Exchanged(b, idx, 0), 0) == b
  {
  }

  /** Solves with the upper factor, in place, from the last row up. */
  method BackInPlace(n: nat, lu: array<real>, x: array<real>)
    requires lu.Length == n * n && x.Length == n && lu != x
    modifies x
    ensures (forall t :: 0 <= t < n ==> At(Rows(lu[..], n, n), t, t) != 0.0) ==>
      x[..] == Back(Rows(lu[..], n, n), old(x[..]), 0)
  {
    hide Rows, Tail, Div, At;
    ghost var M, y := Rows(lu[..], n, n), x[..];
    ghost var pivots := forall t :: 0 <= t < n ==> At(M, t, t) != 0.0;
    for i := n downto 0
      invariant pivots ==> x[..] == Back(M, y, i)
    {
      ghost var z := x[..];
      var sum := SubtractTail(n, lu, i, x);
      Stored(lu[..], n, i, i);
      var q := MachineDiv(sum, lu[Pos(n, i, 0) + i]);
      x[i] := q;
      assert x[..] == z[i := q];
    }
  }
}
