/** Square systems of linear equations over the reals. */
module Matrices {
  import opened RealSums

  type Vector = seq<real>
  type Matrix = seq<Vector>

  /** Entry access is total, so that sums can range over it freely. */
  function El(v: Vector, i: int): real
  {
    if 0 <= i < |v| then v[i] else 0.0
  }

  function At(A: Matrix, i: int, j: int): real
  {
    if 0 <= i < |A| then El(A[i], j) else 0.0
  }

  ghost predicate Shape(A: Matrix, rows: nat, cols: nat)
  {
    |A| == rows && forall i :: 0 <= i < rows ==> |A[i]| == cols
  }

  /** Component i of the product A x. */
  function Row(A: Matrix, n: nat, i: int, x: Vector): real
  {
    Sum(n, j => Mul(At(A, i, j), El(x, j)))
  }

  ghost predicate Solves(A: Matrix, n: nat, x: Vector, b: Vector)
  {
    forall i :: 0 <= i < n ==> Row(A, n, i, x) == El(b, i)
  }

  ghost predicate InKernel(A: Matrix, n: nat, v: Vector)
  {
    forall i :: 0 <= i < n ==> Row(A, n, i, v) == 0.0
  }

  ghost predicate IsZero(v: Vector)
  {
    forall i :: 0 <= i < |v| ==> v[i] == 0.0
  }

  /** Only the zero vector is mapped to zero. */
  ghost predicate Nonsingular(A: Matrix, n: nat)
  {
    forall v: Vector :: |v| == n && InKernel(A, n, v) ==> IsZero(v)
  }

  /** Entry (i, j) of the product of two square matrices. */
  function Product(A: Matrix, B: Matrix, n: nat, i: int, j: int): real
  {
    Sum(n, t => Mul(At(A, i, t), At(B, t, j)))
  }

  ghost predicate IsInverse(A: Matrix, B: Matrix, n: nat)
  {
    forall i, j :: 0 <= i < n && 0 <= j < n ==> Product(A, B, n, i, j) == if i == j then 1.0 else 0.0
  }

  // ---- row exchanges

  function Swap<T>(s: seq<T>, p: int, q: int): (r: seq<T>)
    requires 0 <= p < |s| && 0 <= q < |s|
    ensures |r| == |s|
  {
    s[p := s[q]][q := s[p]]
  }

  /** The first k of n index entries name rows. */
  ghost predicate Indices(idx: seq<int>, n: nat, k: nat)
  {
    |idx| == n && k <= n && forall t :: 0 <= t < k ==> 0 <= idx[t] < n
  }

  /** s after the exchanges (0, idx[0]), (1, idx[1]), ..., (k-1, idx[k-1]), in that order. */
  function Exchanged<T>(s: seq<T>, idx: seq<int>, k: nat): (r: seq<T>)
    requires k <= |idx| <= |s|
    requires forall t :: 0 <= t < k ==> 0 <= idx[t] < |s|
    ensures |r| == |s|
  {
    if k == 0 then s else Swap(Exchanged(s, idx, k - 1), k - 1, idx[k - 1])
  }

  lemma SwapSolves(A: Matrix, n: nat, x: Vector, b: Vector, p: int, q: int)
    requires |A| == n == |b| && 0 <= p < n && 0 <= q < n
    ensures Solves(Swap(A, p, q), n, x, Swap(b, p, q)) <==> Solves(A, n, x, b)
  {
    hide Mul;
    var A', b' := Swap(A, p, q), Swap(b, p, q);
    forall i | 0 <= i < n
      ensures Row(A', n, i, x) == Row(A, n, if i == p then q else if i == q then p else i, x)
    {
      var i' := if i == p then q else if i == q then p else i;
      SumEq(n, j => Mul(At(A', i, j), El(x, j)), j => Mul(At(A, i', j), El(x, j)));
    }
    forall i | 0 <= i < n
      ensures Row(A, n, i, x) == Row(A', n, if i == p then q else if i == q then p else i, x)
    {
      var i' := if i == p then q else if i == q then p else i;
      SumEq(n, j => Mul(At(A, i, j), El(x, j)), j => Mul(At(A', i', j), El(x, j)));
    }
  }

  /** Exchanging equations does not change what solves them. */
  lemma {:induction false} ExchangedSolves(A: Matrix, n: nat, x: Vector, b: Vector, idx: seq<int>, k: nat)
    requires |A| == n == |b| && Indices(idx, n, k)
    ensures Solves(Exchanged(A, idx, k), n, x, Exchanged(b, idx, k)) <==> Solves(A, n, x, b)
  {
    if k > 0 {
      ExchangedSolves(A, n, x, b, idx, k - 1);
      SwapSolves(Exchanged(A, idx, k - 1), n, x, Exchanged(b, idx, k - 1), k - 1, idx[k - 1]);
    }
  }

  /** Later exchanges in idx do not matter to the first k of them. */
  lemma {:induction false} ExchangedPrefix<T>(s: seq<T>, idx: seq<int>, idx': seq<int>, k: nat)
    requires k <= |idx| <= |s| && |idx'| == |idx|
    requires forall t :: 0 <= t < k ==> 0 <= idx[t] < |s| && idx'[t] == idx[t]
    ensures Exchanged(s, idx, k) == Exchanged(s, idx', k)
  {
    if k > 0 {
      ExchangedPrefix(s, idx, idx', k - 1);
    }
  }

  lemma ColumnFactor(n: nat, l: int -> real, c: int -> real, xj: real)
    ensures Mul(Sum(n, t => Mul(l(t), c(t))), xj) == Sum(n, t => Mul(l(t), Mul(c(t), xj)))
  {
    hide Mul;
    var f := t => Mul(l(t), c(t));
    MulLaws(Sum(n, f), xj, 0.0);
    SumScale(n, xj, f);
    forall t: int
      ensures Mul(xj, f(t)) == Mul(l(t), Mul(c(t), xj))
    {
      MulLaws(xj, f(t), 0.0);
      MulLaws(l(t), c(t), xj);
    }
    SumEq(n, t => Mul(xj, f(t)), t => Mul(l(t), Mul(c(t), xj)));
  }

  /** Associativity: (l W) x = l (W x). */
  lemma ProductApply(p: nat, n: nat, l: int -> real, W: (int, int) -> real, x: int -> real)
    ensures Sum(n, j => Mul(Sum(p, t => Mul(l(t), W(t, j))), x(j)))
         == Sum(p, t => Mul(l(t), Sum(n, j => Mul(W(t, j), x(j)))))
  {
    hide Mul;
    var g := (t, j) => Mul(l(t), Mul(W(t, j), x(j)));
    var left := j => Mul(Sum(p, t => Mul(l(t), W(t, j))), x(j));
    var right := t => Mul(l(t), Sum(n, j => Mul(W(t, j), x(j))));
    forall j: int
      ensures left(j) == Sum(p, t => g(t, j))
    {
      var c := t => W(t, j);
      ColumnFactor(p, l, c, x(j));
      SumEq(p, t => Mul(l(t), W(t, j)), t => Mul(l(t), c(t)));
      SumEq(p, t => Mul(l(t), Mul(c(t), x(j))), t => g(t, j));
    }
    forall t: int
      ensures right(t) == Sum(n, j => g(t, j))
    {
      var f := j => Mul(W(t, j), x(j));
      SumScale(n, l(t), f);
      SumEq(n, j => Mul(l(t), f(j)), j => g(t, j));
    }
    SumEq(n, left, j => Sum(p, t => g(t, j)));
    SumEq(p, right, t => Sum(n, j => g(t, j)));
    SumSwap(p, n, g);
  }
}
