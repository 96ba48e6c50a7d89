/** For a nonsingular matrix the decomposition finds every pivot, factors the exchanged matrix, and solves. */
module LuCorrectness {
  import opened RealSums
  import opened Matrices
  import opened LuDecomposition

  /** What k columns of the decomposition establish while every pivot is found. */
  ghost predicate Invariant(A: Matrix, n: nat, s: LuState, k: nat)
  {
    && |A| == n && Sized(s, n) && k <= n
    && (forall t :: 0 <= t < n ==> s.scale[t] > 0.0)
    && (forall t :: 0 <= t < k ==> t <= s.idx[t] < n && s.m[t][t] != 0.0)
    && (forall i, j :: 0 <= i < n && 0 <= j < n ==> Entry(s.m, k, i, j) == At(Exchanged(A, s.idx, k), i, j))
  }

  /** Unit lower times upper, both read off m, is A with its rows exchanged. */
  ghost predicate Factors(A: Matrix, n: nat, m: Matrix, idx: seq<int>, k: nat)
  {
    && |A| == n && Indices(idx, n, k)
    && forall i, j :: 0 <= i < n && 0 <= j < n ==> Recombined(m, n, k, i, j) == At(Exchanged(A, idx, k), i, j)
  }

  lemma InvariantFactors(A: Matrix, n: nat, s: LuState, k: nat)
    requires Invariant(A, n, s, k)
    ensures Factors(A, n, s.m, s.idx, k)
  {
    hide Mul, Recombined, Entry, At;
    forall i, j | 0 <= i < n && 0 <= j < n
      ensures Recombined(s.m, n, k, i, j) == At(Exchanged(A, s.idx, k), i, j)
    {
      EntryIsProduct(s.m, n, k, i, j);
    }
  }

  /** Exchanges only reach downwards and no pivot is zero, so the substitutions are defined. */
  ghost predicate Regular(m: Matrix, n: nat, idx: seq<int>)
  {
    |idx| == n && forall t :: 0 <= t < n ==> t <= idx[t] < n && At(m, t, t) != 0.0
  }

  // ---- the pivot search

  /** The search returns the row of largest weight above big, and keeps imax if there is none. */
  lemma {:induction false} PivotScanMax(m: Matrix, scale: Vector, k: nat, i: nat, big: real, imax: int)
    ensures var p := PivotScan(m, scale, k, i, big, imax);
      || (p == imax && forall t :: i <= t < |m| ==> Weight(m, scale, k, t) <= big)
      || (i <= p < |m| && Weight(m, scale, k, p) > big
          && forall t :: i <= t < |m| ==> Weight(m, scale, k, t) <= Weight(m, scale, k, p))
    decreases |m| - i
  {
    if i < |m| {
      var t := Weight(m, scale, k, i);
      if t > big {
        PivotScanMax(m, scale, k, i + 1, t, i);
      } else {
        PivotScanMax(m, scale, k, i + 1, big, imax);
      }
    }
  }

  /** Some candidate is nonzero, so the row chosen is a candidate with a nonzero entry of greatest weight. */
  lemma PivotFound(s: LuState, n: nat, k: nat)
    requires Sized(s, n) && k < n
    requires forall t :: 0 <= t < n ==> s.scale[t] > 0.0
    requires exists i :: k <= i < n && s.m[i][k] != 0.0
    ensures var p := PivotScan(s.m, s.scale, k, k, 0.0, s.imax);
      k <= p < n && s.m[p][k] != 0.0
      && forall t :: k <= t < n ==> Weight(s.m, s.scale, k, t) <= Weight(s.m, s.scale, k, p)
  {
    hide Mul;
    PivotScanMax(s.m, s.scale, k, k, 0.0, s.imax);
    var i :| k <= i < n && s.m[i][k] != 0.0;
    assert Weight(s.m, s.scale, k, i) > 0.0;
  }

  // ---- one column keeps the invariant

  lemma SwapKeeps(A: Matrix, n: nat, s: LuState, k: nat)
    requires Invariant(A, n, s, k) && k < n
    requires exists i :: k <= i < n && s.m[i][k] != 0.0
    ensures var r := Pivoted(s, n, k);
      && k <= r.imax < n && r.m == Swap(s.m, k, r.imax)
      && Exchanged(A, r.idx, k + 1) == Swap(Exchanged(A, s.idx, k), k, r.imax)
      && forall i, j :: 0 <= i < n && 0 <= j < n ==> Entry(r.m, k, i, j) == At(Exchanged(A, r.idx, k + 1), i, j)
  {
    hide Mul, PivotScan, Entry;
    PivotFound(s, n, k);
    var r := Pivoted(s, n, k);
    ExchangedPrefix(A, s.idx, r.idx, k);
    forall i, j | 0 <= i < n && 0 <= j < n
      ensures Entry(r.m, k, i, j) == At(Exchanged(A, r.idx, k + 1), i, j)
    {
      EntrySwapped(s.m, n, k, r.imax, i, j);
    }
  }

  lemma StepKeeps(A: Matrix, n: nat, s: LuState, k: nat)
    requires Invariant(A, n, s, k) && k < n
    requires exists i :: k <= i < n && s.m[i][k] != 0.0
    ensures Invariant(A, n, LuStep(s, n, k), k + 1)
  {
    hide Mul, PivotScan, Entry, EliminateRow, Exchanged;
    SwapKeeps(A, n, s, k);
    var r, s', k' := Pivoted(s, n, k), LuStep(s, n, k), k + 1;
    forall i, j | 0 <= i < n && 0 <= j < n
      ensures Entry(s'.m, k', i, j) == At(Exchanged(A, s'.idx, k'), i, j)
    {
      EntryEliminated(r.m, n, k, i, j);
    }
  }

  lemma StartHolds(A: Matrix, n: nat, s: LuState)
    requires Shape(A, n, n) && Sized(s, n) && s.m == A
    requires forall t :: 0 <= t < n ==> s.scale[t] > 0.0
    ensures Invariant(A, n, s, 0)
  {
  }

  // ---- the exchanged matrix acts as lower after upper

  ghost function ZeroVector(n: nat): (r: Vector)
    ensures |r| == n && IsZero(r)
  {
    seq(n, _ => 0.0)
  }

  lemma FactoredRow(A: Matrix, n: nat, m: Matrix, idx: seq<int>, k: nat, i: nat, x: Vector)
    requires Factors(A, n, m, idx, k) && i < n
    ensures Row(Exchanged(A, idx, k), n, i, x)
         == Sum(n, t => Mul(Lower(m, k, i, t), UpperRow(m, n, k, t, x)))
  {
    hide Mul, Exchanged, Lower, Upper, At, El;
    var A' := Exchanged(A, idx, k);
    var l, W, e := t => Lower(m, k, i, t), (t, j) => Upper(m, k, t, j), j => El(x, j);
    forall j: nat | j < n
      ensures At(A', i, j) == Sum(n, t => Mul(l(t), W(t, j)))
    {
      assert Recombined(m, n, k, i, j) == At(A', i, j);
      SumEq(n, t => Mul(Lower(m, k, i, t), Upper(m, k, t, j)), t => Mul(l(t), W(t, j)));
    }
    SumEq(n, j => Mul(At(A', i, j), El(x, j)), j => Mul(Sum(n, t => Mul(l(t), W(t, j))), e(j)));
    ProductApply(n, n, l, W, e);
    forall t: int
      ensures UpperRow(m, n, k, t, x) == Sum(n, j => Mul(W(t, j), e(j)))
    {
      SumEq(n, j => Mul(Upper(m, k, t, j), El(x, j)), j => Mul(W(t, j), e(j)));
    }
    SumEq(n, t => Mul(l(t), Sum(n, j => Mul(W(t, j), e(j)))),
             t => Mul(Lower(m, k, i, t), UpperRow(m, n, k, t, x)));
  }

  /** What upper maps to zero, the original matrix maps to zero. */
  lemma UpperKernel(A: Matrix, n: nat, m: Matrix, idx: seq<int>, k: nat, v: Vector)
    requires Factors(A, n, m, idx, k)
    requires forall t :: 0 <= t < n ==> UpperRow(m, n, k, t, v) == 0.0
    ensures InKernel(A, n, v)
  {
    hide Mul, Lower, UpperRow, Row;
    var A', zero := Exchanged(A, idx, k), ZeroVector(n);
    forall i | 0 <= i < n
      ensures Row(A', n, i, v) == 0.0
    {
      FactoredRow(A, n, m, idx, k, i, v);
      SumZero(n, t => Mul(Lower(m, k, i, t), UpperRow(m, n, k, t, v)));
    }
    ExchangedZero(n, idx, k);
    ExchangedSolves(A, n, v, zero, idx, k);
  }

  lemma {:induction false} ExchangedZero(n: nat, idx: seq<int>, k: nat)
    requires Indices(idx, n, k)
    ensures Exchanged(ZeroVector(n), idx, k) == ZeroVector(n)
  {
    if k > 0 {
      ExchangedZero(n, idx, k - 1);
    }
  }

  /** The vector that would lie in the kernel if column k had no candidate pivot. */
  ghost function Witness(m: Matrix, n: nat, k: nat): (v: Vector)
    requires k < n && forall t :: 0 <= t < k ==> At(m, t, t) != 0.0
    ensures |v| == n && v[k] == 1.0
  {
    Back(m, seq(k, t => -At(m, t, k)), 0) + [1.0] + seq(n - k - 1, _ => 0.0)
  }

  lemma WitnessRow(m: Matrix, n: nat, k: nat, t: nat)
    requires t < n && k < n && forall t :: 0 <= t < k ==> At(m, t, t) != 0.0
    requires forall i :: k <= i < n ==> At(m, i, k) == 0.0
    ensures UpperRow(m, n, k, t, Witness(m, n, k)) == 0.0
  {
    hide Mul, Back, At;
    var y := seq(k, t => -At(m, t, k));
    var x, v := Back(m, y, 0), Witness(m, n, k);
    var f := j => Mul(Upper(m, k, t, j), El(v, j));
    SumTruncate(k + 1, n, f);
    if t < k {
      BackSolves(m, y, k, 0);
      assert UpperRow(m, k, k, t, x) == y[t];
      assert f(k) == At(m, t, k);
      assert Sum(k + 1, f) == Sum(k, f) + f(k);
      SumEq(k, f, j => Mul(Upper(m, k, t, j), El(x, j)));
    } else {
      SumZero(k, f);
    }
  }

  /** A nonsingular matrix leaves a candidate in every column. */
  lemma PivotExists(A: Matrix, n: nat, s: LuState, k: nat)
    requires Invariant(A, n, s, k) && k < n && Nonsingular(A, n)
    ensures exists i :: k <= i < n && s.m[i][k] != 0.0
  {
    hide Mul, Entry, UpperRow, Row;
    if forall i :: k <= i < n ==> s.m[i][k] == 0.0 {
      forall t | 0 <= t < n
        ensures UpperRow(s.m, n, k, t, Witness(s.m, n, k)) == 0.0
      {
        WitnessRow(s.m, n, k, t);
      }
      InvariantFactors(A, n, s, k);
      UpperKernel(A, n, s.m, s.idx, k, Witness(s.m, n, k));
    }
  }

  /** Every pivot is found: neither a stale row nor TINY ever enters. */
  lemma {:induction false} RunKeeps(A: Matrix, n: nat, s: LuState, k: nat)
    requires Invariant(A, n, s, 0) && k <= n && Nonsingular(A, n)
    ensures Invariant(A, n, LuRun(s, n, k), k)
  {
    hide Nonsingular, Entry, LuStep;
    if k > 0 {
      RunKeeps(A, n, s, k - 1);
      PivotExists(A, n, LuRun(s, n, k - 1), k - 1);
      StepKeeps(A, n, LuRun(s, n, k - 1), k - 1);
    }
  }

  // ---- solving with the factors

  /** Both substitutions after the exchanges. */
  ghost function Solution(m: Matrix, n: nat, idx: seq<int>, b: Vector): (x: Vector)
    requires Regular(m, n, idx) && |b| == n
    ensures |x| == n
  {
    Back(m, Forward(m, Exchanged(b, idx, n), n), 0)
  }

  lemma SolutionSolves(A: Matrix, n: nat, m: Matrix, idx: seq<int>, b: Vector)
    requires Factors(A, n, m, idx, n) && Regular(m, n, idx) && |b| == n
    ensures Solves(A, n, Solution(m, n, idx, b), b)
  {
    hide Mul, Row, UpperRow, Forward, Back, Lower;
    var A', b' := Exchanged(A, idx, n), Exchanged(b, idx, n);
    var y := Forward(m, b', n);
    var x := Back(m, y, 0);
    ForwardSolves(m, b', n);
    BackSolves(m, y, n, 0);
    forall i | 0 <= i < n
      ensures Row(A', n, i, x) == b'[i]
    {
      FactoredRow(A, n, m, idx, n, i, x);
      SumEq(n, t => Mul(Lower(m, n, i, t), UpperRow(m, n, n, t, x)), t => Mul(Lower(m, n, i, t), El(y, t)));
    }
    ExchangedSolves(A, n, x, b, idx, n);
  }

  /** A nonsingular system has at most one solution. */
  lemma SolutionUnique(A: Matrix, n: nat, b: Vector, x: Vector, x': Vector)
    requires Nonsingular(A, n) && |x| == |x'| == n
    requires Solves(A, n, x, b) && Solves(A, n, x', b)
    ensures x == x'
  {
    var d := seq(n, j requires 0 <= j < n => x[j] - x'[j]);
    forall i | 0 <= i < n
      ensures Row(A, n, i, d) == 0.0
    {
      RowMinus(A, n, i, x, x', d);
    }
    assert InKernel(A, n, d);
    forall j | 0 <= j < n
      ensures x[j] == x'[j]
    {
      assert d[j] == 0.0;
    }
  }

  lemma RowMinus(A: Matrix, n: nat, i: int, x: Vector, x': Vector, d: Vector)
    requires forall j :: 0 <= j < n ==> El(d, j) == El(x, j) - El(x', j)
    ensures Row(A, n, i, d) == Row(A, n, i, x) - Row(A, n, i, x')
  {
    hide Mul;
    var f, g, h := j => Mul(At(A, i, j), El(x, j)), j => Mul(At(A, i, j), El(x', j)), j => Mul(At(A, i, j), El(d, j));
    SumAdd(n, g, h);
    forall j | 0 <= j < n
      ensures f(j) == g(j) + h(j)
    {
      MulLaws(At(A, i, j), El(x', j), El(d, j));
    }
    SumEq(n, f, j => g(j) + h(j));
  }

  /** Such a matrix has no zero row, so the scale check never rejects it. */
  lemma NonsingularNoZeroRow(A: Matrix, n: nat)
    requires Shape(A, n, n) && Nonsingular(A, n)
    ensures !HasZeroRow(A)
  {
    hide Mul, Nonsingular, Invariant;
    if i :| 0 <= i < n && ZeroRow(A[i]) {
      var s0 := LuState(A, seq(n, _ => 1.0), seq(n, _ => 0), 0, 0);
      assert Invariant(A, n, s0, 0) by {
        StartHolds(A, n, s0);
      }
      RunKeeps(A, n, s0, n);
      var b := ZeroVector(n)[i := 1.0];
      var x := SolutionOf(A, n, LuRun(s0, n, n), b);
      SumZero(n, j => Mul(At(A, i, j), El(x, j)));
      assert Row(A, n, i, x) == El(b, i);
    }
  }

  lemma SolutionOf(A: Matrix, n: nat, s: LuState, b: Vector) returns (x: Vector)
    requires Invariant(A, n, s, n) && |b| == n
    ensures Solves(A, n, x, b) && |x| == n
  {
    hide Entry;
    InvariantFactors(A, n, s, n);
    SolutionSolves(A, n, s.m, s.idx, b);
    x := Solution(s.m, n, s.idx, b);
  }

  /** Conversely, factors with nonzero pivots exist only for nonsingular matrices. */
  lemma FactorsNonsingular(A: Matrix, n: nat, m: Matrix, idx: seq<int>)
    requires Factors(A, n, m, idx, n) && Regular(m, n, idx)
    ensures Nonsingular(A, n)
  {
    hide Mul, Row, UpperRow, Lower, At;
    forall v: Vector | |v| == n && InKernel(A, n, v)
      ensures IsZero(v)
    {
      var zero := ZeroVector(n);
      ExchangedZero(n, idx, n);
      ExchangedSolves(A, n, v, zero, idx, n);
      var u := seq(n, t => UpperRow(m, n, n, t, v));
      forall i | 0 <= i < n
        ensures LowerRow(m, n, n, i, u) == 0.0
      {
        FactoredRow(A, n, m, idx, n, i, v);
        SumEq(n, t => Mul(Lower(m, n, i, t), UpperRow(m, n, n, t, v)), t => Mul(Lower(m, n, i, t), El(u, t)));
      }
      LowerInjective(m, n, u, n);
      forall t | 0 <= t < n
        ensures UpperRow(m, n, n, t, v) == 0.0
      {
        assert u[t] == 0.0;
      }
      UpperInjective(m, n, v, 0);
    }
  }

  lemma {:induction false} LowerInjective(m: Matrix, n: nat, u: Vector, i: nat)
    requires |u| == n && i <= n
    requires forall t :: 0 <= t < n ==> LowerRow(m, n, n, t, u) == 0.0
    ensures forall t :: 0 <= t < i ==> u[t] == 0.0
  {
    hide Mul, At, LowerRow;
    if i > 0 {
      LowerInjective(m, n, u, i - 1);
      LowerRowSplit(m, n, i - 1, u);
      SumZero(i - 1, j => Mul(At(m, i - 1, j), El(u, j)));
    }
  }

  lemma {:induction false} UpperInjective(m: Matrix, n: nat, v: Vector, i: nat)
    requires |v| == n && i <= n
    requires forall t :: 0 <= t < n ==> UpperRow(m, n, n, t, v) == 0.0 && At(m, t, t) != 0.0
    ensures forall t :: i <= t < n ==> v[t] == 0.0
    decreases n - i
  {
    hide Mul, At, UpperRow;
    if i < n {
      UpperInjective(m, n, v, i + 1);
      UpperRowSplit(m, n, n, i, v);
      SumZero(n, j => if i < j then Mul(At(m, i, j), El(v, j)) else 0.0);
      if v[i] != 0.0 {
        MulNonzero(At(m, i, i), v[i]);
      }
    }
  }

  /** The whole run on a nonsingular matrix, whatever the index vector held before. */
  lemma RunFactors(A: Matrix, n: nat, idx: seq<int>)
    requires Shape(A, n, n) && Nonsingular(A, n) && |idx| == n && !HasZeroRow(A)
    ensures var r := Decomposed(A, n, idx);
      Factors(A, n, r.m, r.idx, n) && Regular(r.m, n, r.idx)
  {
    hide Nonsingular, Entry, Mul;
    var s := LuStart(A, idx);
    StartHolds(A, n, s);
    RunKeeps(A, n, s, n);
    InvariantFactors(A, n, LuRun(s, n, n), n);
  }

  lemma {:induction false} RunIndices(s: LuState, n: nat, k: nat)
    requires Sized(s, n) && s.np >= 0 && k <= n
    ensures Indices(LuRun(s, n, k).idx, n, k) && LuRun(s, n, k).np >= 0
  {
    hide PivotScan, InPlace, Eliminated;
    if k > 0 {
      RunIndices(s, n, k - 1);
    }
  }
}
