/** The product of the pivots, signed by the number of exchanges, is the determinant. */
module LuDeterminant {
  import opened RealSums
  import opened Matrices
  import opened LuDecomposition
  import opened LuCorrectness
  import opened Determinant

  /** The part of the matrix still to be made triangular after k columns. */
  function Work(m: Matrix, n: nat, k: nat): (r: Matrix)
    ensures Shape(r, n, n)
  {
    seq(n, t => seq(n, j => Upper(m, k, t, j)))
  }

  /** The determinant, or its negative, according to the parity of the number of exchanges. */
  function Signed(np: int, d: real): real
  {
    if np % 2 == 0 then d else -d
  }

  /** Rows k+1 up to h-1 already have column k cleared. */
  ghost function Partly(m: Matrix, n: nat, k: nat, h: nat): (r: Matrix)
    requires Shape(m, n, n) && k < h <= n && m[k][k] != 0.0
    ensures Shape(r, n, n)
  {
    seq(n, i => seq(n, j => if k < i < h then Upper(Eliminated(m, n, k, n), k + 1, i, j) else Upper(m, k, i, j)))
  }

  lemma ClearedCell(m: Matrix, n: nat, k: nat, i: nat, j: nat)
    requires Shape(m, n, n) && k < i < n && m[k][k] != 0.0 && j < n
    ensures Upper(Eliminated(m, n, k, n), k + 1, i, j)
         == Upper(m, k, i, j) + Mul(-Div(m[i][k], m[k][k]), Upper(m, k, k, j))
  {
    hide Mul, Div;
    var l := Div(m[i][k], m[k][k]);
    MulLaws(Upper(m, k, k, j), l, 0.0);
    MulLaws(l, Upper(m, k, k, j), 0.0);
    MulLaws(-l, Upper(m, k, k, j), 0.0);
  }

  lemma {:induction false} PartlyDet(m: Matrix, n: nat, k: nat, h: nat)
    requires Shape(m, n, n) && k < h <= n && m[k][k] != 0.0
    ensures Det(Partly(m, n, k, h), n) == Det(Work(m, n, k), n)
  {
    hide Mul, Det, Div, Upper, Eliminated;
    if h == k + 1 {
      DetEntries(Partly(m, n, k, h), Work(m, n, k), n);
    } else {
      hide Partly, At;
      PartlyDet(m, n, k, h - 1);
      NextRowCleared(m, n, k, h);
      DetAddRow(Partly(m, n, k, h), Partly(m, n, k, h - 1), -Div(m[h - 1][k], m[k][k]), n, h - 1, k);
    }
  }

  lemma NextRowCleared(m: Matrix, n: nat, k: nat, h: nat)
    requires Shape(m, n, n) && k + 1 < h <= n && m[k][k] != 0.0
    ensures var C, A := Partly(m, n, k, h), Partly(m, n, k, h - 1);
      && SameBut(A, C, n, h - 1)
      && forall j :: 0 <= j < n ==> At(C, h - 1, j) == At(A, h - 1, j) + Mul(-Div(m[h - 1][k], m[k][k]), At(A, k, j))
  {
    hide Mul, Div, Upper, Eliminated;
    forall j | 0 <= j < n {
      ClearedCell(m, n, k, h - 1, j);
    }
  }

  lemma EliminationDet(m: Matrix, n: nat, k: nat)
    requires Shape(m, n, n) && k < n && m[k][k] != 0.0
    ensures Det(Work(Eliminated(m, n, k, n), n, k + 1), n) == Det(Work(m, n, k), n)
  {
    hide Det, EliminateRow;
    PartlyDet(m, n, k, n);
    DetEntries(Work(Eliminated(m, n, k, n), n, k + 1), Partly(m, n, k, n), n);
  }

  lemma ExchangeDet(m: Matrix, n: nat, k: nat, p: nat)
    requires Shape(m, n, n) && k <= p < n
    ensures Det(Work(Swap(m, k, p), n, k), n) == if k == p then Det(Work(m, n, k), n) else -Det(Work(m, n, k), n)
  {
    hide Det;
    DetEntries(Work(Swap(m, k, p), n, k), Swap(Work(m, n, k), k, p), n);
    if k < p {
      DetSwap(Work(m, n, k), n, k, p);
    } else {
      assert Swap(Work(m, n, k), k, p) == Work(m, n, k);
    }
  }

  lemma StepDet(A: Matrix, n: nat, s: LuState, k: nat)
    requires Invariant(A, n, s, k) && k < n
    requires exists i :: k <= i < n && s.m[i][k] != 0.0
    ensures var r := LuStep(s, n, k);
      && Det(Work(r.m, n, k + 1), n) == (if r.np == s.np then Det(Work(s.m, n, k), n) else -Det(Work(s.m, n, k), n))
      && (r.np == s.np || r.np == s.np + 1)
  {
    hide Det, Work, Eliminated, PivotScan;
    SwapKeeps(A, n, s, k);
    var r := Pivoted(s, n, k);
    ExchangeDet(s.m, n, k, r.imax);
    EliminationDet(r.m, n, k);
  }

  lemma {:induction false} RunDet(A: Matrix, n: nat, s: LuState, k: nat)
    requires Sized(s, n) && Invariant(A, n, s, 0) && s.m == A && s.np == 0 && k <= n && Nonsingular(A, n)
    ensures var r := LuRun(s, n, k);
      Det(Work(r.m, n, k), n) == Signed(r.np, Det(A, n)) && r.np >= 0
  {
    hide Det, Nonsingular, Invariant, Work, LuStep;
    if k == 0 {
      StartDet(A, n);
    } else {
      RunDet(A, n, s, k - 1);
      RunKeeps(A, n, s, k - 1);
      PivotExists(A, n, LuRun(s, n, k - 1), k - 1);
      StepDet(A, n, LuRun(s, n, k - 1), k - 1);
    }
  }

  lemma StartDet(A: Matrix, n: nat)
    ensures Det(Work(A, n, 0), n) == Det(A, n)
  {
    DetEntries(Work(A, n, 0), A, n);
  }

  lemma {:induction false} SameDiagonal(A: Matrix, B: Matrix, k: nat)
    requires forall i :: 0 <= i < k ==> At(A, i, i) == At(B, i, i)
    ensures Diagonal(A, k) == Diagonal(B, k)
  {
    if k > 0 {
      SameDiagonal(A, B, k - 1);
    }
  }

  /** The signed product of the final diagonal is the determinant of the original matrix. */
  lemma PivotProduct(A: Matrix, n: nat, s: LuState)
    requires Sized(s, n) && Invariant(A, n, s, 0) && s.m == A && s.np == 0 && Nonsingular(A, n)
    ensures var r := LuRun(s, n, n); Signed(r.np, Diagonal(r.m, n)) == Det(A, n)
  {
    hide Det, Nonsingular, Invariant, LuStep, Mul;
    var r := LuRun(s, n, n);
    RunDet(A, n, s, n);
    DetTriangular(Work(r.m, n, n), n);
    SameDiagonal(Work(r.m, n, n), r.m, n);
  }

  // ---- the determinant decides nonsingularity

  /** As long as no column is without a candidate, the run keeps its invariant and the determinant up to sign;
      the first such column means that the determinant is zero. */
  lemma {:induction false} RunOrZero(A: Matrix, n: nat, s: LuState, k: nat)
    requires Sized(s, n) && Invariant(A, n, s, 0) && s.m == A && s.np == 0 && k <= n
    ensures var r := LuRun(s, n, k);
      Det(A, n) == 0.0
      || (Invariant(A, n, r, k) && Det(Work(r.m, n, k), n) == Signed(r.np, Det(A, n)) && r.np >= 0)
  {
    hide Det, Invariant, Work, LuStep;
    if k == 0 {
      StartDet(A, n);
    } else {
      RunOrZero(A, n, s, k - 1);
      var r := LuRun(s, n, k - 1);
      if Invariant(A, n, r, k - 1) {
        if exists i :: k - 1 <= i < n && r.m[i][k - 1] != 0.0 {
          StepKeeps(A, n, r, k - 1);
          StepDet(A, n, r, k - 1);
        } else {
          StalledWork(r.m, n, k - 1);
          DetStalled(Work(r.m, n, k - 1), n, k - 1);
        }
      }
    }
  }

  lemma StalledWork(m: Matrix, n: nat, k: nat)
    requires Shape(m, n, n) && k < n && forall i :: k <= i < n ==> m[i][k] == 0.0
    ensures Stalled(Work(m, n, k), n, k)
  {
  }

  /** A square matrix is nonsingular exactly when its determinant is not zero. */
  lemma DetDecides(A: Matrix, n: nat)
    requires Shape(A, n, n)
    ensures Nonsingular(A, n) <==> Det(A, n) != 0.0
  {
    hide Det, Nonsingular, Invariant, LuRun, Factors, Regular, Scales, Diagonal;
    if HasZeroRow(A) {
      var r :| 0 <= r < |A| && ZeroRow(A[r]);
      DetZeroRow(A, n, r);
      if Nonsingular(A, n) {
        NonsingularNoZeroRow(A, n);
      }
    } else {
      var idx := seq(n, _ => 0);
      var s := LuStart(A, idx);
      StartHolds(A, n, s);
      if Nonsingular(A, n) {
        PivotProduct(A, n, s);
        RunFactors(A, n, idx);
        PivotsNonzero(LuRun(s, n, n), n);
      } else {
        RunOrZero(A, n, s, n);
        if Invariant(A, n, LuRun(s, n, n), n) {
          InvariantFactors(A, n, LuRun(s, n, n), n);
          InvariantRegular(A, n, LuRun(s, n, n));
          FactorsNonsingular(A, n, LuRun(s, n, n).m, LuRun(s, n, n).idx);
        }
      }
    }
  }

  lemma PivotsNonzero(r: LuState, n: nat)
    requires Sized(r, n) && Regular(r.m, n, r.idx)
    ensures Diagonal(r.m, n) != 0.0
  {
    DiagonalZero(r.m, n);
  }

  lemma InvariantRegular(A: Matrix, n: nat, s: LuState)
    requires Invariant(A, n, s, n)
    ensures Regular(s.m, n, s.idx)
  {
  }
}
