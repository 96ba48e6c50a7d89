/** Which row the decomposition takes as pivot: the scales follow the rows, and are relative to the original matrix. */
module LuPivoting {
  import opened RealSums
  import opened Matrices
  import opened LuDecomposition
  import opened LuCorrectness

  /** c is the largest magnitude in the row. */
  ghost predicate Largest(row: Vector, c: real)
  {
    && (forall j :: 0 <= j < |row| ==> -c <= row[j] <= c)
    && exists j :: 0 <= j < |row| && (row[j] == c || row[j] == -c)
  }

  lemma {:induction false} RowMaxLargest(row: Vector, j: nat)
    requires 0 < j <= |row|
    ensures Largest(row[..j], RowMax(row, j))
    decreases j
  {
    var front, c := row[..j - 1], RowMax(row, j);
    assert row[..j] == front + [row[j - 1]];
    assert row[..j][j - 1] == row[j - 1];
    if j > 1 {
      RowMaxLargest(row, j - 1);
      var i :| 0 <= i < |front| && (front[i] == RowMax(row, j - 1) || front[i] == -RowMax(row, j - 1));
      assert row[..j][i] == front[i];
    }
  }

  lemma LargestUnique(row: Vector, c: real, d: real)
    requires Largest(row, c) && Largest(row, d)
    ensures c == d
  {
  }

  /** The scale of a row is the reciprocal of its largest magnitude. */
  lemma ScaleInverse(row: Vector, c: real)
    requires !ZeroRow(row) && Largest(row, c)
    ensures c > 0.0 && Scale(row) == 1.0 / c
  {
    RowMaxZero(row);
    RowMaxLargest(row, |row|);
    assert row[..|row|] == row;
    LargestUnique(row, c, RowMax(row, |row|));
  }

  lemma {:induction false} ScalesExchanged(A: Matrix, n: nat, idx: seq<int>, k: nat, i: nat)
    requires !HasZeroRow(A) && |A| == n && Indices(idx, n, k) && i < n
    ensures var row := Exchanged(A, idx, k)[i]; !ZeroRow(row) && Exchanged(Scales(A), idx, k)[i] == Scale(row)
    ensures forall w: nat :: Shape(A, n, w) ==> |Exchanged(A, idx, k)[i]| == w
    decreases k
  {
    hide ZeroRow, Scale;
    if k > 0 {
      ScalesExchanged(A, n, idx, k - 1, i);
      ScalesExchanged(A, n, idx, k - 1, k - 1);
      ScalesExchanged(A, n, idx, k - 1, idx[k - 1]);
    }
  }

  lemma StepScales(S: Vector, s: LuState, n: nat, k: nat, i: nat)
    requires Sized(s, n) && Indices(s.idx, n, k) && |S| == n && k < i < n
    requires s.scale[i] == Exchanged(S, s.idx, k)[i] && s.scale[k] == Exchanged(S, s.idx, k)[k]
    ensures var r := LuStep(s, n, k); Indices(r.idx, n, k + 1) && r.scale[i] == Exchanged(S, r.idx, k + 1)[i]
  {
    hide PivotScan, InPlace, Eliminated;
    var r := Pivoted(s, n, k);
    ExchangedPrefix(S, s.idx, r.idx, k);
    PivotScanRange(s.m, s.scale, k, k, 0.0, s.imax);
  }

  /** The rows that are not yet reduced keep their own scales through the exchanges. */
  lemma {:induction false} RunScales(A: Matrix, n: nat, idx: seq<int>, k: nat, i: nat)
    requires Shape(A, n, n) && !HasZeroRow(A) && |idx| == n && k <= i < n
    ensures var s := LuRun(LuStart(A, idx), n, k);
      Indices(s.idx, n, k) && s.scale[i] == Exchanged(Scales(A), s.idx, k)[i]
    decreases k
  {
    hide LuStep, HasZeroRow, Scales, Exchanged;
    if k > 0 {
      RunScales(A, n, idx, k - 1, i);
      RunScales(A, n, idx, k - 1, k - 1);
      StepScales(Scales(A), LuRun(LuStart(A, idx), n, k - 1), n, k - 1, i);
    } else {
      assert Exchanged(Scales(A), idx, 0) == Scales(A) by {
        NoExchange(Scales(A), idx);
      }
    }
  }

  lemma NoExchange(S: Vector, idx: seq<int>)
    requires |idx| <= |S|
    ensures Exchanged(S, idx, 0) == S
  {
  }

  lemma Crosswise(x: real, y: real, c: real, d: real)
    requires c > 0.0 && d > 0.0 && 1.0 / c * x <= 1.0 / d * y
    ensures x * d <= y * c
  {
    var u, v := 1.0 / c * x, 1.0 / d * y;
    assert u * c == x && v * d == y;
    Rescaled(u, v, c, d);
    assert u * (c * d) == x * d;
    assert v * (c * d) == y * c;
  }

  lemma Rescaled(u: real, v: real, c: real, d: real)
    requires c > 0.0 && d > 0.0 && u <= v
    ensures u * (c * d) <= v * (c * d)
  {
    var e := c * d;
    assert e > 0.0;
    assert (v - u) * e >= 0.0;
  }

  /** In every column the pivot has the greatest magnitude relative to the largest entry that its row had in the
      original matrix: |t| / ct <= |p| / cp, multiplied out. */
  lemma PivotRelative(A: Matrix, n: nat, idx: seq<int>, k: nat, t: nat, ct: real, cp: real)
    requires Shape(A, n, n) && Nonsingular(A, n) && !HasZeroRow(A) && |idx| == n && k <= t < n
    ensures var s := LuRun(LuStart(A, idx), n, k);
      var p := PivotScan(s.m, s.scale, k, k, 0.0, s.imax);
      k <= p < n && Indices(s.idx, n, k)
      && (Largest(Exchanged(A, s.idx, k)[t], ct) && Largest(Exchanged(A, s.idx, k)[p], cp) ==>
            Abs(s.m[t][k]) * cp <= Abs(s.m[p][k]) * ct)
  {
    hide Nonsingular, Entry, LuStep, PivotScan, HasZeroRow, Largest, Scale, Exchanged, ZeroRow;
    var s := LuRun(LuStart(A, idx), n, k);
    StartHolds(A, n, LuStart(A, idx));
    RunKeeps(A, n, LuStart(A, idx), k);
    PivotExists(A, n, s, k);
    PivotFound(s, n, k);
    var p := PivotScan(s.m, s.scale, k, k, 0.0, s.imax);
    RunScales(A, n, idx, k, t);
    RunScales(A, n, idx, k, p);
    ScalesExchanged(A, n, s.idx, k, t);
    ScalesExchanged(A, n, s.idx, k, p);
    var rt, rp := Exchanged(A, s.idx, k)[t], Exchanged(A, s.idx, k)[p];
    if Largest(rt, ct) && Largest(rp, cp) {
      ScaleInverse(rt, ct);
      ScaleInverse(rp, cp);
      assert Weight(s.m, s.scale, k, t) <= Weight(s.m, s.scale, k, p);
      Crosswise(Abs(s.m[t][k]), Abs(s.m[p][k]), ct, cp);
    }
  }
}
