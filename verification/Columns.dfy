/** Columns of flat matrices, their copies, and products. */
module Columns {
  import opened RealSums
  import opened Matrices
  import opened FlatMatrix

  method GetColumn(h: nat, w: nat, b: array<real>, j: nat, col: array<real>)
    requires b.Length == h * w && col.Length == h && j < w && b != col
    modifies col
    ensures col[..] == Column(Rows(b[..], h, w), j)
  {
    hide Pos;
    var ptr := j;
    FirstRow(w);
    for i := 0 to h
      invariant ptr == Pos(w, i, 0) + j
      invariant forall t :: 0 <= t < i ==> col[t] == At(Rows(b[..], h, w), t, j)
    {
      PosInside(h, w, i, j);
      GetCell(b[..], h, w, i, j);
      col[i] := b[ptr];
      ptr := ptr + w;
    }
  }

  method PutColumn(h: nat, w: nat, x: array<real>, j: nat, col: array<real>)
    requires x.Length == h * w && col.Length == h && j < w && x != col
    modifies x
    ensures Column(Rows(x[..], h, w), j) == col[..]
    ensures forall j' :: 0 <= j' < w && j' != j ==>
      Column(Rows(x[..], h, w), j') == old(Column(Rows(x[..], h, w), j'))
  {
    hide Pos, Rows;
    ghost var M := Rows(x[..], h, w);
    var ptr := j;
    FirstRow(w);
    for i := 0 to h
      invariant ptr == Pos(w, i, 0) + j
      invariant forall t, j' :: 0 <= t < h && 0 <= j' < w ==>
        At(Rows(x[..], h, w), t, j') == if j' == j && t < i then col[t] else At(M, t, j')
    {
      PosInside(h, w, i, j);
      ghost var s := x[..];
      SetCell(s, h, w, i, j, col[i]);
      x[ptr] := col[i];
      assert x[..] == s[Pos(w, i, j) := col[i]];
      ghost var M1, M2 := Rows(s, h, w), Rows(x[..], h, w);
      forall t, j' | 0 <= t < h && 0 <= j' < w
        ensures At(M2, t, j') == if t == i && j' == j then col[i] else At(M1, t, j')
      {
        assert M2[t] == if t == i then M1[i][j := col[i]] else M1[t];
      }
      ptr := ptr + w;
    }
  }

  /** One entry of a matrix product. */
  method DotInto(m: nat, p: nat, n: nat, L: array<real>, R: array<real>, j: nat, i: nat) returns (sum: real)
    requires L.Length == m * p && R.Length == p * n && j < m && i < n
    ensures sum == Product(Rows(L[..], m, p), Rows(R[..], p, n), p, j, i)
  {
    hide Pos, Mul;
    ghost var A, B := Rows(L[..], m, p), Rows(R[..], p, n);
    sum := 0.0;
    var Lptr, Rptr := Pos(p, j, 0), i;
    FirstRow(n);
    for k := 0 to p
      invariant Lptr == Pos(p, j, 0) + k && Rptr == Pos(n, k, 0) + i
      invariant sum == Product(A, B, k, j, i)
    {
      PosInside(m, p, j, k);
      PosInside(p, n, k, i);
      GetCell(L[..], m, p, j, k);
      GetCell(R[..], p, n, k, i);
      sum := sum + Mul(L[Lptr], R[Rptr]);
      Lptr, Rptr := Lptr + 1, Rptr + n;
    }
  }

  method Copied(a: array<real>) returns (c: array<real>)
    ensures fresh(c) && c[..] == a[..]
  {
    c := new real[a.Length](i requires 0 <= i < a.Length reads a => a[i]);
  }

  /** Y may be L or R: both are copied first. */
  method MatrixMultiply(m: nat, p: nat, n: nat, L: array<real>, R: array<real>, Y: array<real>)
    requires L.Length == m * p && R.Length == p * n && Y.Length == m * n
    modifies Y
    ensures forall j, i :: 0 <= j < m && 0 <= i < n ==>
      At(Rows(Y[..], m, n), j, i) == Product(old(Rows(L[..], m, p)), old(Rows(R[..], p, n)), p, j, i)
  {
    hide Pos, Product, Rows;
    var Lt := Copied(L);
    var Rt := Copied(R);
    ghost var A, B := Rows(Lt[..], m, p), Rows(Rt[..], p, n);
    var Yptr := 0;
    FirstRow(n);
    for j := 0 to m
      invariant Yptr == Pos(n, j, 0) && Lt[..] == old(L[..]) && Rt[..] == old(R[..])
      invariant forall j', i' :: 0 <= j' < j && 0 <= i' < n ==>
        At(Rows(Y[..], m, n), j', i') == Product(A, B, p, j', i')
    {
      for i := 0 to n
        invariant Yptr == Pos(n, j, 0) + i && Lt[..] == old(L[..]) && Rt[..] == old(R[..])
        invariant forall j', i' :: 0 <= j' <= j && 0 <= i' < (if j' < j then n else i) ==>
          At(Rows(Y[..], m, n), j', i') == Product(A, B, p, j', i')
      {
        PosInside(m, n, j, i);
        var sum := DotInto(m, p, n, Lt, Rt, j, i);
        ghost var s := Y[..];
        SetCell(s, m, n, j, i, sum);
        Y[Yptr] := sum;
        assert Y[..] == s[Pos(n, j, i) := sum];
        Yptr := Yptr + 1;
      }
      NextRow(m, n, j);
    }
  }

  lemma NextRow(h: nat, w: nat, i: nat)
    requires i < h
    ensures Pos(w, i + 1, 0) == Pos(w, i, 0) + w
  {
  }

  lemma FirstRow(w: nat)
    ensures Pos(w, 0, 0) == 0
  {
  }

  function FlatSum(u: seq<real>, l: int, v: seq<real>, r: int, m: nat): real
  {
    Sum(m, k => Mul(El(u, l + k), El(v, r + k)))
  }

  /** The product of m consecutive entries of L and R, from the given offsets on. */
  method FlatDot(m: nat, L: array<real>, l: nat, R: array<real>, r: nat) returns (t: real)
    requires l + m <= L.Length && r + m <= R.Length
    ensures t == FlatSum(L[..], l, R[..], r, m)
  {
    hide Mul;
    t := 0.0;
    for k := 0 to m
      invariant t == FlatSum(L[..], l, R[..], r, k)
    {
      ghost var u, v := L[..], R[..];
      assert FlatSum(u, l, v, r, k + 1) == FlatSum(u, l, v, r, k) + Mul(El(u, l + k), El(v, r + k));
      assert El(u, l + k) == L[l + k] && El(v, r + k) == R[r + k];
      t := t + Mul(L[l + k], R[r + k]);
    }
  }
}
