/** What the decomposition does with a singular matrix that has no zero row. */
module LuSingular {
  import opened RealSums
  import opened Matrices
  import opened LuDecomposition
  import opened Determinant
  import opened LuDeterminant

  ghost const ONES: Matrix := [[1.0, 1.0], [1.0, 1.0]]

  lemma OnesSingular()
    ensures !Nonsingular(ONES, 2) && !HasZeroRow(ONES) && Shape(ONES, 2, 2)
  {
    var v := [1.0, -1.0];
    forall i | 0 <= i < 2
      ensures Row(ONES, 2, i, v) == 0.0
    {
      RowOfTwo(ONES, i, v);
    }
    assert InKernel(ONES, 2, v) && v[0] != 0.0;
    assert forall i :: 0 <= i < 2 ==> ONES[i][0] != 0.0;
  }

  lemma RowOfTwo(A: Matrix, i: int, v: Vector)
    ensures Row(A, 2, i, v) == Mul(At(A, i, 0), El(v, 0)) + Mul(At(A, i, 1), El(v, 1))
  {
    hide Mul, At, El;
    var f := j => Mul(At(A, i, j), El(v, j));
    assert Sum(2, f) == Sum(1, f) + f(1);
    assert Sum(1, f) == Sum(0, f) + f(0);
  }

  /** After the first column the second has no candidate left. */
  lemma FirstColumn()
    requires !HasZeroRow(ONES)
    ensures LuRun(LuStart(ONES, [0, 0]), 2, 1) == LuState([[1.0, 1.0], [1.0, 0.0]], [1.0, 1.0], [0, 0], 0, 0)
  {
    var s := LuStart(ONES, [0, 0]);
    assert RowMax([1.0, 1.0], 1) == 1.0;
    assert s.scale == [1.0, 1.0];
    assert PivotScan(s.m, s.scale, 0, 1, 1.0, 0) == PivotScan(s.m, s.scale, 0, 2, 1.0, 0) == 0;
    var e := EliminateRow([1.0, 1.0], [1.0, 1.0], 0);
    assert e[0] == 1.0 && e[1] == 0.0;
    var r := LuRun(s, 2, 1);
    assert r.m[0] == [1.0, 1.0] && r.m[1] == [1.0, 0.0];
  }

  /** The row of the previous search is exchanged in again, and an accepted result of -1 comes out. */
  lemma StalePivot()
    requires !HasZeroRow(ONES)
    ensures LuRun(LuStart(ONES, [0, 0]), 2, 2) == LuState([[1.0, 0.0], [1.0, 1.0]], [1.0, 1.0], [0, 0], 1, 0)
  {
    FirstColumn();
    var s := LuRun(LuStart(ONES, [0, 0]), 2, 1);
    assert Weight(s.m, s.scale, 1, 1) == 0.0;
    assert PivotScan(s.m, s.scale, 1, 1, 0.0, 0) == PivotScan(s.m, s.scale, 1, 2, 0.0, 0) == 0;
    var r := LuStep(s, 2, 1);
    assert r.m[0] == [1.0, 0.0] && r.m[1] == [1.0, 1.0];
  }

  /** The documented promise that a singular matrix is refused fails on this one: -1 is returned for 0. */
  lemma SingularAccepted()
    ensures !Nonsingular(ONES, 2) && !HasZeroRow(ONES) && Shape(ONES, 2, 2) && Det(ONES, 2) == 0.0
    ensures var r := Decomposed(ONES, 2, [0, 0]);
      r.np == 1 && Signed(r.np, Diagonal(r.m, 2)) == -1.0
  {
    hide Det, LuRun, Scales, Nonsingular, HasZeroRow;
    OnesSingular();
    DetEqualRows(ONES, 2, 0, 1);
    StalePivot();
    assert Diagonal([[1.0, 0.0], [1.0, 1.0]], 1) == 1.0;
  }

  // ---- a singular matrix for which the result is right all the same

  ghost const LUCKY: Matrix := [[1.0, 1.0, 1.0], [0.0, 1.0, 2.0], [1.0, 1.0, 1.0]]

  lemma LuckyScales()
    requires !HasZeroRow(LUCKY)
    ensures Scales(LUCKY) == [1.0, 0.5, 1.0]
  {
    assert RowMax(LUCKY[0], 1) == RowMax(LUCKY[0], 2) == RowMax(LUCKY[0], 3) == 1.0;
    assert RowMax(LUCKY[1], 1) == 0.0 && RowMax(LUCKY[1], 2) == 1.0 && RowMax(LUCKY[1], 3) == 2.0;
    assert RowMax(LUCKY[2], 1) == RowMax(LUCKY[2], 2) == RowMax(LUCKY[2], 3) == 1.0;
  }

  lemma LuckyFirst()
    requires !HasZeroRow(LUCKY)
    ensures LuRun(LuStart(LUCKY, [0, 0, 0]), 3, 1)
         == LuState([[1.0, 1.0, 1.0], [0.0, 1.0, 2.0], [1.0, 0.0, 0.0]], [1.0, 0.5, 1.0], [0, 0, 0], 0, 0)
  {
    LuckyScales();
    var s := LuStart(LUCKY, [0, 0, 0]);
    assert PivotScan(s.m, s.scale, 0, 1, 1.0, 0) == PivotScan(s.m, s.scale, 0, 2, 1.0, 0)
        == PivotScan(s.m, s.scale, 0, 3, 1.0, 0) == 0;
    var r := LuStep(s, 3, 0);
    assert r.m[0] == [1.0, 1.0, 1.0] && r.m[1] == [0.0, 1.0, 2.0] && r.m[2] == [1.0, 0.0, 0.0];
    assert LuRun(s, 3, 0) == s;
  }

  const MIDDLE: LuState :=
    LuState([[1.0, 1.0, 1.0], [0.0, 1.0, 2.0], [1.0, 0.0, 0.0]], [1.0, 0.5, 1.0], [0, 0, 0], 0, 0)

  lemma MiddlePivot()
    ensures PivotScan(MIDDLE.m, MIDDLE.scale, 1, 1, 0.0, 0) == 1
  {
    assert Weight(MIDDLE.m, MIDDLE.scale, 1, 1) == 0.5 && Weight(MIDDLE.m, MIDDLE.scale, 1, 2) == 0.0;
    assert PivotScan(MIDDLE.m, MIDDLE.scale, 1, 3, 0.5, 1) == 1;
    assert PivotScan(MIDDLE.m, MIDDLE.scale, 1, 2, 0.5, 1) == 1;
  }

  lemma MiddleStep()
    ensures LuStep(MIDDLE, 3, 1) == MIDDLE.(idx := [0, 1, 0], imax := 1)
  {
    hide PivotScan;
    MiddlePivot();
    var r := LuStep(MIDDLE, 3, 1);
    assert r.m[0] == [1.0, 1.0, 1.0] && r.m[1] == [0.0, 1.0, 2.0] && r.m[2] == [1.0, 0.0, 0.0];
  }

  lemma LuckySecond()
    requires !HasZeroRow(LUCKY)
    ensures LuRun(LuStart(LUCKY, [0, 0, 0]), 3, 2) == MIDDLE.(idx := [0, 1, 0], imax := 1)
  {
    hide LuStep, LuStart;
    LuckyFirst();
    MiddleStep();
  }

  lemma LuckyThird()
    requires !HasZeroRow(LUCKY)
    ensures LuRun(LuStart(LUCKY, [0, 0, 0]), 3, 3).m == [[1.0, 1.0, 1.0], [1.0, 0.0, 0.0], [0.0, 1.0, 2.0]]
  {
    LuckySecond();
    var s := LuRun(LuStart(LUCKY, [0, 0, 0]), 3, 2);
    assert Weight(s.m, s.scale, 2, 2) == 0.0;
    assert PivotScan(s.m, s.scale, 2, 2, 0.0, 1) == PivotScan(s.m, s.scale, 2, 3, 0.0, 1) == 1;
    var r := LuStep(s, 3, 2);
    assert r.m[0] == [1.0, 1.0, 1.0] && r.m[1] == [1.0, 0.0, 0.0] && r.m[2] == [0.0, 1.0, 2.0];
  }

  /** This one is accepted too, with a stale row, but a zero lands on the diagonal and the product is 0. */
  lemma SingularRight()
    ensures !Nonsingular(LUCKY, 3) && !HasZeroRow(LUCKY) && Shape(LUCKY, 3, 3) && Det(LUCKY, 3) == 0.0
    ensures Diagonal(Decomposed(LUCKY, 3, [0, 0, 0]).m, 3) == 0.0
  {
    hide Det, LuRun, Scales, Nonsingular, HasZeroRow, Diagonal;
    LuckyRows();
    DetEqualRows(LUCKY, 3, 0, 2);
    DetDecides(LUCKY, 3);
    LuckyThird();
    var m := Decomposed(LUCKY, 3, [0, 0, 0]).m;
    DiagonalZero(m, 3);
    assert At(m, 1, 1) == 0.0;
  }

  lemma LuckyRows()
    ensures !HasZeroRow(LUCKY)
  {
    assert LUCKY[0][0] != 0.0 && LUCKY[1][1] != 0.0 && LUCKY[2][0] != 0.0;
    assert forall i :: 0 <= i < 3 ==> !ZeroRow(LUCKY[i]);
  }
}
