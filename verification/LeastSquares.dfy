/** Why solving the normal equations fits best. Rows of X are basis functions, columns are samples. */
module LeastSquares {
  import opened RealSums
  import opened Matrices

  /** Value of the fitted combination at sample k. */
  function Fitted(X: Matrix, n: nat, c: Vector, k: int): real
  {
    Sum(n, i => Mul(At(X, i, k), El(c, i)))
  }

  function Residual(X: Matrix, n: nat, y: Vector, c: Vector, k: int): real
  {
    El(y, k) - Fitted(X, n, c, k)
  }

  /** The sum of squared residuals over m samples. */
  function Cost(X: Matrix, m: nat, n: nat, y: Vector, c: Vector): real
  {
    Sum(m, k => Sq(Residual(X, n, y, c, k)))
  }

  function Inner(X: Matrix, m: nat, i: int, y: Vector): real
  {
    Sum(m, k => Mul(At(X, i, k), El(y, k)))
  }

  function GramEntry(X: Matrix, m: nat, i: int, j: int): real
  {
    Sum(m, k => Mul(At(X, i, k), At(X, j, k)))
  }

  function Gram(X: Matrix, m: nat, n: nat): (G: Matrix)
    ensures Shape(G, n, n)
  {
    seq(n, i => seq(n, j => GramEntry(X, m, i, j)))
  }

  function Moments(X: Matrix, m: nat, n: nat, y: Vector): (b: Vector)
    ensures |b| == n
  {
    seq(n, i => Inner(X, m, i, y))
  }

  /** Row i of the Gram matrix applied to c: basis function i against the fitted values. */
  lemma GramRow(X: Matrix, m: nat, n: nat, i: nat, c: Vector)
    requires i < n
    ensures Row(Gram(X, m, n), n, i, c) == Sum(m, k => Mul(At(X, i, k), Fitted(X, n, c, k)))
  {
    hide Mul, At, El;
    var l, W, e := k => At(X, i, k), (k, j) => At(X, j, k), j => El(c, j);
    ProductApply(m, n, l, W, e);
    forall j | 0 <= j < n
      ensures At(Gram(X, m, n), i, j) == Sum(m, k => Mul(l(k), W(k, j)))
    {
      GramAt(X, m, n, i, j);
      SumEq(m, k => Mul(At(X, i, k), At(X, j, k)), k => Mul(l(k), W(k, j)));
    }
    SumEq(n, j => Mul(At(Gram(X, m, n), i, j), El(c, j)), j => Mul(Sum(m, k => Mul(l(k), W(k, j))), e(j)));
    forall k: int
      ensures Fitted(X, n, c, k) == Sum(n, j => Mul(W(k, j), e(j)))
    {
      SumEq(n, j => Mul(At(X, j, k), El(c, j)), j => Mul(W(k, j), e(j)));
    }
    SumEq(m, k => Mul(At(X, i, k), Fitted(X, n, c, k)), k => Mul(l(k), Sum(n, j => Mul(W(k, j), e(j)))));
  }

  lemma GramAt(X: Matrix, m: nat, n: nat, i: nat, j: nat)
    requires i < n && j < n
    ensures At(Gram(X, m, n), i, j) == GramEntry(X, m, i, j)
  {
  }

  /** r, one value a sample, against basis function i. */
  function Against(X: Matrix, m: nat, r: int -> real, i: int): real
  {
    Sum(m, k => Mul(r(k), At(X, i, k)))
  }

  /** The residuals of a solution of the normal equations are orthogonal to every basis function. */
  lemma NormalEquations(X: Matrix, m: nat, n: nat, y: Vector, c: Vector, i: nat)
    requires i < n && Solves(Gram(X, m, n), n, c, Moments(X, m, n, y))
    ensures Against(X, m, k => Residual(X, n, y, c, k), i) == 0.0
  {
    hide Mul, At, El, Fitted, Gram, Row;
    GramRow(X, m, n, i, c);
    MomentAt(X, m, n, y, i);
    var e := k => Residual(X, n, y, c, k);
    var r := k => Mul(e(k), At(X, i, k));
    var f := k => Mul(At(X, i, k), Fitted(X, n, c, k));
    forall k: int
      ensures r(k) + f(k) == Mul(At(X, i, k), El(y, k))
    {
      MulLaws(Residual(X, n, y, c, k), At(X, i, k), 0.0);
      MulLaws(At(X, i, k), El(y, k), Fitted(X, n, c, k));
    }
    SumAdd(m, r, f);
    SumEq(m, k => r(k) + f(k), k => Mul(At(X, i, k), El(y, k)));
    assert Row(Gram(X, m, n), n, i, c) == El(Moments(X, m, n, y), i);
  }

  lemma MomentAt(X: Matrix, m: nat, n: nat, y: Vector, i: nat)
    requires i < n
    ensures El(Moments(X, m, n, y), i) == Inner(X, m, i, y)
  {
  }

  /** ... and hence to every fitted combination. */
  lemma Orthogonal(X: Matrix, m: nat, n: nat, r: int -> real, d: Vector)
    requires forall i :: 0 <= i < n ==> Against(X, m, r, i) == 0.0
    ensures Sum(m, k => Mul(r(k), Fitted(X, n, d, k))) == 0.0
  {
    hide Mul, At, El;
    var W, e := (k, i) => At(X, i, k), i => El(d, i);
    ProductApply(m, n, r, W, e);
    var z := i => Mul(Sum(m, k => Mul(r(k), W(k, i))), e(i));
    forall i | 0 <= i < n
      ensures z(i) == 0.0
    {
      assert Against(X, m, r, i) == 0.0;
      SumEq(m, k => Mul(r(k), At(X, i, k)), k => Mul(r(k), W(k, i)));
      assert z(i) == Mul(Against(X, m, r, i), e(i));
    }
    SumZero(n, z);
    forall k: int
      ensures Fitted(X, n, d, k) == Sum(n, i => Mul(W(k, i), e(i)))
    {
      SumEq(n, i => Mul(At(X, i, k), El(d, i)), i => Mul(W(k, i), e(i)));
    }
    SumEq(m, k => Mul(r(k), Fitted(X, n, d, k)), k => Mul(r(k), Sum(n, i => Mul(W(k, i), e(i)))));
  }

  ghost function Difference(c: Vector, c': Vector, n: nat): (d: Vector)
    ensures |d| == n && forall i :: 0 <= i < n ==> d[i] == El(c', i) - El(c, i)
  {
    seq(n, i => El(c', i) - El(c, i))
  }

  lemma FittedDifference(X: Matrix, n: nat, c: Vector, c': Vector, k: int)
    ensures Fitted(X, n, c', k) == Fitted(X, n, c, k) + Fitted(X, n, Difference(c, c', n), k)
  {
    hide Mul, At;
    var d := Difference(c, c', n);
    var f, g := i => Mul(At(X, i, k), El(c, i)), i => Mul(At(X, i, k), El(d, i));
    SumAdd(n, f, g);
    forall i | 0 <= i < n
      ensures Mul(At(X, i, k), El(c', i)) == f(i) + g(i)
    {
      MulLaws(At(X, i, k), El(c, i), El(d, i));
    }
    SumEq(n, i => Mul(At(X, i, k), El(c', i)), i => f(i) + g(i));
  }

  lemma SquareOfDifference(a: real, b: real)
    ensures Sq(a - b) == Sq(a) - 2.0 * Mul(a, b) + Sq(b)
  {
  }

  /** Moving away from the solution adds exactly the squared change of the fitted values. */
  lemma CostDifference(X: Matrix, m: nat, n: nat, y: Vector, c: Vector, c': Vector)
    requires Solves(Gram(X, m, n), n, c, Moments(X, m, n, y))
    ensures Cost(X, m, n, y, c') == Cost(X, m, n, y, c) + Sum(m, k => Sq(Fitted(X, n, Difference(c, c', n), k)))
  {
    hide Mul, Sq, Fitted, Solves, Gram, At;
    var d := Difference(c, c', n);
    var r, f := k => Residual(X, n, y, c, k), k => Fitted(X, n, d, k);
    forall i | 0 <= i < n
      ensures Against(X, m, r, i) == 0.0
    {
      NormalEquations(X, m, n, y, c, i);
    }
    Orthogonal(X, m, n, r, d);
    var cross, sq := k => Mul(r(k), Fitted(X, n, d, k)), k => Sq(f(k));
    var base := k => Sq(r(k));
    forall k: int
      ensures Sq(Residual(X, n, y, c', k)) == base(k) + (sq(k) + -(cross(k) + cross(k)))
    {
      FittedDifference(X, n, c, c', k);
      SquareOfDifference(r(k), f(k));
    }
    var twice := k => cross(k) + cross(k);
    var rest := k => sq(k) + -twice(k);
    SumAdd(m, cross, cross);
    SumNegate(m, twice);
    SumAdd(m, sq, k => -twice(k));
    SumEq(m, rest, k => sq(k) + (k => -twice(k))(k));
    SumAdd(m, base, rest);
    SumEq(m, k => Sq(Residual(X, n, y, c', k)), k => base(k) + rest(k));
    SumEq(m, k => Sq(Residual(X, n, y, c, k)), base);
    SumEq(m, k => Sq(Fitted(X, n, d, k)), sq);
  }

  /** No other coefficients give a smaller sum of squares. */
  lemma Minimises(X: Matrix, m: nat, n: nat, y: Vector, c: Vector, c': Vector)
    requires Solves(Gram(X, m, n), n, c, Moments(X, m, n, y))
    ensures Cost(X, m, n, y, c) <= Cost(X, m, n, y, c')
  {
    hide Cost, Solves, Sq, Fitted;
    CostDifference(X, m, n, y, c, c');
    SumNonneg(m, k => Sq(Fitted(X, n, Difference(c, c', n), k)));
  }

  /** With a nonsingular Gram matrix the minimum is reached only once. */
  lemma MinimumUnique(X: Matrix, m: nat, n: nat, y: Vector, c: Vector, c': Vector)
    requires Solves(Gram(X, m, n), n, c, Moments(X, m, n, y)) && Nonsingular(Gram(X, m, n), n)
    requires |c| == |c'| == n && Cost(X, m, n, y, c') == Cost(X, m, n, y, c)
    ensures c' == c
  {
    hide Cost, Solves, Sq, Fitted, Gram, Row, At, Mul;
    var d := Difference(c, c', n);
    CostDifference(X, m, n, y, c, c');
    var f := k => Fitted(X, n, d, k);
    SumEq(m, k => Sq(Fitted(X, n, d, k)), k => Sq(f(k)));
    SquaresZero(m, f);
    forall k | 0 <= k < m
      ensures Fitted(X, n, d, k) == 0.0
    {
      assert f(k) == 0.0;
    }
    forall i | 0 <= i < n
      ensures Row(Gram(X, m, n), n, i, d) == 0.0
    {
      GramRow(X, m, n, i, d);
      SumZero(m, k => Mul(At(X, i, k), Fitted(X, n, d, k)));
    }
    assert InKernel(Gram(X, m, n), n, d);
    forall i | 0 <= i < n
      ensures c'[i] == c[i]
    {
      assert d[i] == 0.0;
    }
  }

  /** Basis functions of which only the zero combination vanishes at every sample. */
  ghost predicate Independent(X: Matrix, m: nat, n: nat)
  {
    forall v: Vector :: |v| == n && (forall k :: 0 <= k < m ==> Fitted(X, n, v, k) == 0.0) ==> IsZero(v)
  }

  lemma KernelVanishes(X: Matrix, m: nat, n: nat, v: Vector)
    requires InKernel(Gram(X, m, n), n, v)
    ensures forall k :: 0 <= k < m ==> Fitted(X, n, v, k) == 0.0
  {
    hide Mul, At, Gram, Row, Fitted;
    var f := k => Fitted(X, n, v, k);
    forall i | 0 <= i < n
      ensures Against(X, m, f, i) == 0.0
    {
      GramRow(X, m, n, i, v);
      forall k: int
        ensures Mul(f(k), At(X, i, k)) == Mul(At(X, i, k), Fitted(X, n, v, k))
      {
        MulLaws(f(k), At(X, i, k), 0.0);
      }
      SumEq(m, k => Mul(f(k), At(X, i, k)), k => Mul(At(X, i, k), Fitted(X, n, v, k)));
    }
    Orthogonal(X, m, n, f, v);
    forall k: int
      ensures Mul(f(k), Fitted(X, n, v, k)) == Sq(f(k))
    {
    }
    SumEq(m, k => Mul(f(k), Fitted(X, n, v, k)), k => Sq(f(k)));
    SquaresZero(m, f);
    assert forall k :: 0 <= k < m ==> f(k) == 0.0;
  }

  /** The fit is well posed exactly when the basis functions are independent on the samples. */
  lemma GramNonsingular(X: Matrix, m: nat, n: nat)
    ensures Nonsingular(Gram(X, m, n), n) <==> Independent(X, m, n)
  {
    hide Gram, Fitted, Row, Mul, At;
    forall v: Vector | |v| == n
      ensures InKernel(Gram(X, m, n), n, v) <==> forall k :: 0 <= k < m ==> Fitted(X, n, v, k) == 0.0
    {
      if InKernel(Gram(X, m, n), n, v) {
        KernelVanishes(X, m, n, v);
      }
      if forall k :: 0 <= k < m ==> Fitted(X, n, v, k) == 0.0 {
        forall i | 0 <= i < n
          ensures Row(Gram(X, m, n), n, i, v) == 0.0
        {
          GramRow(X, m, n, i, v);
          SumZero(m, k => Mul(At(X, i, k), Fitted(X, n, v, k)));
        }
      }
    }
  }
}
