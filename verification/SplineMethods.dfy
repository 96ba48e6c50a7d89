/** The spline calls over caller-supplied arrays: coefficients, evaluation, and both over a grid. */
module SplineMethods {
  import opened RealSums
  import opened Polynomials
  import opened Spline
  import opened Matrices
  import opened FlatMatrix

  // ---- which piece

  /** The last knot, but for the final one, that is not above xo; knot 0 if there is none. */
  function Bracket(x: seq<real>, xo: real, k: nat): (r: nat)
    requires k < |x|
    ensures r <= k
  {
    if k == 0 || x[k] <= xo then k else Bracket(x, xo, k - 1)
  }

  /** The curve through the knots, one cubic between each two. */
  function Curve(x: seq<real>, y: seq<real>, c: seq<real>, xo: real): real
    requires |x| >= 2 && |y| == |c| == |x| && Increasing(x)
  {
    Piece(x, y, c, Bracket(x, xo, |x| - 2), xo)
  }

  lemma {:induction false} BracketUnique(x: seq<real>, xo: real, k: nat, r: nat)
    requires k < |x| && Increasing(x) && r <= k
    requires (r == 0 || x[r] <= xo) && (r == k || xo < x[r + 1])
    ensures Bracket(x, xo, k) == r
  {
    if r < k {
      assert x[r + 1] <= x[k];
      BracketUnique(x, xo, k - 1, r);
    }
  }

  lemma PieceAtEnds(x: seq<real>, y: seq<real>, c: seq<real>, k: int)
    requires 0 <= k < |x| - 1 && |y| == |c| == |x| && Increasing(x)
    ensures Piece(x, y, c, k, x[k]) == y[k] && Piece(x, y, c, k, x[k + 1]) == y[k + 1]
  {
    var h := x[k + 1] - x[k];
    assert Div(0.0, h) == 0.0 && Div(h, h) == 1.0;
  }

  /** The curve passes through every knot. */
  lemma CurveAtKnot(x: seq<real>, y: seq<real>, c: seq<real>, p: int)
    requires |x| >= 2 && |y| == |c| == |x| && Increasing(x) && 0 <= p < |x|
    ensures Curve(x, y, c, x[p]) == y[p]
  {
    hide Piece;
    var k := if p == |x| - 1 then p - 1 else p;
    BracketUnique(x, x[p], |x| - 2, k);
    PieceAtEnds(x, y, c, k);
  }

  /** The computed spline is smooth: at every inner knot the two pieces take the given value, with one tangent,
      and with equal second derivatives. */
  lemma Smooth(x: seq<real>, y: seq<real>, e: Ends, i: int)
    requires |x| >= 2 && |y| == |x| && Increasing(x) && 1 <= i < |x| - 1
    ensures var c, h := Seconds(x, y, e), x[i] - x[i - 1];
      var p, q := Local(x, y, c, i - 1), Local(x, y, c, i);
      && Tangent(p, h, y[i], Eval(Derivative(q), 0.0)) && Tangent(q, 0.0, y[i], Eval(Derivative(q), 0.0))
      && Eval(Derivative(Derivative(p)), h) == Eval(Derivative(Derivative(q)), 0.0)
  {
    hide Seconds, Local, Piece, Eval, Derivative, Tangent, RowHolds;
    var c, h := Seconds(x, y, e), x[i] - x[i - 1];
    var p, q := Local(x, y, c, i - 1), Local(x, y, c, i);
    SecondsSolve(x, y, e);
    SmoothIffSolves(x, y, e, c);
    assert Joined(x, y, c, i);
    EndsOfPiece(x, y, c, i - 1);
    EndsOfPiece(x, y, c, i);
    PieceAtEnds(x, y, c, i - 1);
    PieceAtEnds(x, y, c, i);
    PieceIsLocal(x, y, c, i - 1, x[i]);
    PieceIsLocal(x, y, c, i, x[i]);
    DerivativeTangent(p, h);
    DerivativeTangent(q, 0.0);
  }

  // ---- the loops

  const LIMIT: real := 0.99 * AU_MAX

  /** The slopes asked for are defined: the first row divides by the first rise less the slope. */
  predicate Defined(y: seq<real>, c1: real)
    requires |y| >= 2
  {
    c1 > LIMIT || y[1] - y[0] != c1
  }

  /** The end rows for slopes c1 and cn at the first and the last knot; a slope above the limit asks for the natural
      end. */
  function EndsFor(x: seq<real>, y: seq<real>, c1: real, cn: real): Ends
    requires |x| >= 2 && |y| == |x| && Increasing(x) && Defined(y, c1)
  {
    var n := |x|;
    var g, u := if c1 > LIMIT then 0.0 else -0.5,
      if c1 > LIMIT then 0.0 else Div(Div(3.0 * (y[1] - y[0]), y[1] - y[0] - c1), x[1] - x[0]);
    var q, v := if cn > LIMIT then 0.0 else 0.5,
      if cn > LIMIT then 0.0
      else Mul(Div(3.0, x[n - 1] - x[n - 2]), cn - Div(y[n - 1] - y[n - 2], x[n - 1] - x[n - 2]));
    EndRows(g, u, q, v)
  }

  lemma NaturalFor(x: seq<real>, y: seq<real>, c1: real, cn: real)
    requires |x| >= 2 && |y| == |x| && Increasing(x) && c1 > LIMIT && cn > LIMIT
    ensures Defined(y, c1) && EndsFor(x, y, c1, cn) == NATURAL
  {
  }

  /** The row of the first end. */
  method StartRow(x: array<real>, y: array<real>, n: nat, c1: real, ghost cn: real) returns (g: real, u: real)
    requires 2 <= n <= x.Length && n <= y.Length
    ensures -1.0 < g <= 0.0
    ensures Increasing(x[..n]) && Defined(y[..n], c1) ==>
      g == EndsFor(x[..n], y[..n], c1, cn).g && u == EndsFor(x[..n], y[..n], c1, cn).u
  {
    hide Div, Mul;
    if c1 > LIMIT {
      return 0.0, 0.0;
    }
    g := -0.5;
    var r := MachineDiv(3.0 * (y[1] - y[0]), y[1] - y[0] - c1);
    u := MachineDiv(r, x[1] - x[0]);
  }

  /** The row of the last end. */
  method EndRowFor(x: array<real>, y: array<real>, n: nat, ghost c1: real, cn: real) returns (qn: real, un: real)
    requires 2 <= n <= x.Length && n <= y.Length
    ensures Increasing(x[..n]) && Defined(y[..n], c1) ==>
      qn == EndsFor(x[..n], y[..n], c1, cn).q && un == EndsFor(x[..n], y[..n], c1, cn).v
  {
    hide Div, Mul;
    if cn > LIMIT {
      return 0.0, 0.0;
    }
    var s := MachineDiv(y[n - 1] - y[n - 2], x[n - 1] - x[n - 2]);
    var w := MachineDiv(3.0, x[n - 1] - x[n - 2]);
    qn, un := 0.5, Mul(w, cn - s);
  }

  /** The elimination from the second knot to the last but one. */
  method ForwardSweep(n: nat, x: array<real>, y: array<real>, ghost e: Ends, u: array<real>, c: array<real>)
    requires n >= 2 && n <= x.Length && n <= y.Length && n <= c.Length && n <= u.Length
    requires c != x && c != y && u != x && u != y && u != c
    requires Increasing(x[..n]) ==> c[0] == e.g && u[0] == e.u
    modifies u, c
    ensures c[n..] == old(c[n..])
    ensures Increasing(x[..n]) ==>
      forall t :: 0 <= t < n - 1 ==> c[t] == Gamma(x[..n], e, t) && u[t] == Reduced(x[..n], y[..n], e, t)
  {
    hide Gamma, Reduced, Increasing;
    ghost var xs, ys := x[..n], y[..n];
    if Increasing(xs) {
      FirstRow(xs, ys, e);
    }
    for i := 1 to n - 1
      invariant c[n..] == old(c[n..]) && x[..n] == xs && y[..n] == ys
      invariant Increasing(xs) ==>
        forall t :: 0 <= t < i ==> c[t] == Gamma(xs, e, t) && u[t] == Reduced(xs, ys, e, t)
    {
      var g, r := EliminateRow(x, y, n, i, e, c[i - 1], u[i - 1]);
      c[i] := g;
      u[i] := r;
    }
  }

  /** Second derivatives at the knots. */
  method SplineCoefficients(n: nat, x: array<real>, y: array<real>, c1: real, cn: real, c: array<real>)
    requires n >= 2 && n <= x.Length && n <= y.Length && n <= c.Length && c != x && c != y
    modifies c
    ensures c[n..] == old(c[n..])
    ensures Increasing(x[..n]) && Defined(y[..n], c1) ==>
      c[..n] == Seconds(x[..n], y[..n], EndsFor(x[..n], y[..n], c1, cn))
    ensures Increasing(x[..n]) && c1 > LIMIT && cn > LIMIT ==> c[..n] == Seconds(x[..n], y[..n], NATURAL)
  {
    hide Gamma, Reduced, Mul, Div, Second, Seconds, EndsFor, Increasing, Defined;
    ghost var xs, ys := x[..n], y[..n];
    ghost var good := Increasing(xs) && Defined(ys, c1);
    if Increasing(xs) && c1 > LIMIT && cn > LIMIT {
      NaturalFor(xs, ys, c1, cn);
      assert good;
    }
    var u := new real[n](_ => 0.0);
    var g0, u0 := StartRow(x, y, n, c1, cn);
    c[0], u[0] := g0, u0;
    ghost var e: Ends := if good then EndsFor(xs, ys, c1, cn) else EndRows(g0, u0, 0.0, 0.0);
    ForwardSweep(n, x, y, e, u, c);
    var qn, un := EndRowFor(x, y, n, c1, cn);
    var last := MachineDiv(un - Mul(qn, u[n - 2]), Mul(qn, c[n - 2]) + 1.0);
    if good {
      LastRow(xs, ys, e);
    }
    c[n - 1] := last;
    BackSweep(n, xs, ys, e, u, c);
  }

  /** Back substitution: each coefficient is replaced by the second derivative at its knot. */
  method BackSweep(n: nat, ghost xs: seq<real>, ghost ys: seq<real>, ghost e: Ends, u: array<real>, c: array<real>)
    requires 2 <= n == |xs| == |ys| && n <= u.Length && n <= c.Length && u != c
    modifies c
    ensures c[n..] == old(c[n..])
    ensures Increasing(xs) && old(Swept(xs, ys, e, u[..n], c[..n])) ==> c[..n] == Seconds(xs, ys, e)
  {
    hide Gamma, Reduced, Second, Mul;
    ghost var good := Increasing(xs) && Swept(xs, ys, e, u[..n], c[..n]);
    if good {
      SecondSteps(xs, ys, e);
    }
    for i := n - 1 downto 0
      invariant c[n..] == old(c[n..])
      invariant good ==> forall t :: i <= t < n ==> c[t] == Second(xs, ys, e, t)
      invariant good ==> forall t :: 0 <= t < i ==> c[t] == Gamma(xs, e, t) && u[t] == Reduced(xs, ys, e, t)
    {
      c[i] := Mul(c[i], c[i + 1]) + u[i];
    }
  }

  lemma SecondSteps(x: seq<real>, y: seq<real>, e: Ends)
    requires |x| >= 2 && |y| == |x| && Increasing(x)
    ensures forall i :: 0 <= i < |x| - 1 ==>
      Second(x, y, e, i) == Mul(Gamma(x, e, i), Second(x, y, e, i + 1)) + Reduced(x, y, e, i)
  {
  }

  /** What the elimination hands over: coefficients in c and right-hand sides in u, and the last coefficient. */
  ghost predicate Swept(xs: seq<real>, ys: seq<real>, e: Ends, u: seq<real>, c: seq<real>)
    requires 2 <= |xs| == |ys| == |u| == |c| && Increasing(xs)
  {
    && c[|xs| - 1] == Second(xs, ys, e, |xs| - 1)
    && forall t :: 0 <= t < |xs| - 1 ==> c[t] == Gamma(xs, e, t) && u[t] == Reduced(xs, ys, e, t)
  }

  lemma FirstRow(x: seq<real>, y: seq<real>, e: Ends)
    requires |x| >= 2 && |y| == |x| && Increasing(x)
    ensures Gamma(x, e, 0) == e.g && Reduced(x, y, e, 0) == e.u
  {
  }

  lemma LastRow(x: seq<real>, y: seq<real>, e: Ends)
    requires |x| >= 2 && |y| == |x| && Increasing(x)
    ensures var n := |x|;
      Mul(e.q, Gamma(x, e, n - 2)) + 1.0 != 0.0
      && Second(x, y, e, n - 1) == Div(e.v - Mul(e.q, Reduced(x, y, e, n - 2)), Mul(e.q, Gamma(x, e, n - 2)) + 1.0)
  {
    assert EndPivot(x, e) > 0.0;
  }

  /** Row i of the elimination, from what row i-1 left. */
  method EliminateRow(x: array<real>, y: array<real>, n: nat, i: nat, ghost e: Ends, g0: real, u0: real)
    returns (g: real, u: real)
    requires 1 <= i < n - 1 && n <= x.Length && n <= y.Length
    ensures Increasing(x[..n]) && g0 == Gamma(x[..n], e, i - 1) && u0 == Reduced(x[..n], y[..n], e, i - 1) ==>
      g == Gamma(x[..n], e, i) && u == Reduced(x[..n], y[..n], e, i)
  {
    hide Mul, Div;
    var sig := MachineDiv(x[i] - x[i - 1], x[i + 1] - x[i - 1]);
    var p := Mul(sig, g0) + 2.0;
    g := MachineDiv(sig - 1.0, p);
    var right := MachineDiv(y[i + 1] - y[i], x[i + 1] - x[i]);
    var left := MachineDiv(y[i] - y[i - 1], x[i] - x[i - 1]);
    var bend := MachineDiv(6.0 * (right - left), x[i + 1] - x[i - 1]);
    u := MachineDiv(bend - Mul(sig, u0), p);
  }

  // ---- the slopes asked for

  /** A slope asked for at the last knot is the slope of the curve there, whatever the first end. */
  lemma LastSlopeMet(x: seq<real>, y: seq<real>, c1: real, cn: real)
    requires |x| >= 2 && |y| == |x| && Increasing(x) && Defined(y, c1) && cn <= LIMIT
    ensures LastSlope(x, y, Seconds(x, y, EndsFor(x, y, c1, cn))) == cn
  {
    hide LastSlope, FirstSlope, Seconds, SolvesSystem, Mul, Div;
    var e := EndsFor(x, y, c1, cn);
    var n := |x|;
    SecondsSolve(x, y, e);
    EndSlopes(x, y, e, Seconds(x, y, e));
    ThirdOf(x[n - 1] - x[n - 2], cn - Chord(x, y, n - 2));
  }

  lemma ThirdOf(h: real, d: real)
    requires h > 0.0
    ensures Mul(h, Mul(Div(3.0, h), d) / 3.0) == d
  {
    assert 3.0 / h * d / 3.0 == d / h;
    assert h * (d / h) == d;
  }

  /** A slope asked for at the first knot is not: the curve leaves the knot with the slope of the first chord less the
      quotient of the first rise and the rise less the slope. That is the slope asked for exactly when the chord less
      the slope, times the rise less the slope, is the rise. */
  lemma FirstSlopeMissed(x: seq<real>, y: seq<real>, c1: real, cn: real)
    requires |x| >= 2 && |y| == |x| && Increasing(x) && Defined(y, c1) && c1 <= LIMIT
    ensures var rise, chord := y[1] - y[0], (y[1] - y[0]) / (x[1] - x[0]);
      var s := FirstSlope(x, y, Seconds(x, y, EndsFor(x, y, c1, cn)));
      && s == chord - rise / (rise - c1)
      && (s == c1 <==> (chord - c1) * (rise - c1) == rise)
  {
    hide LastSlope, FirstSlope, Seconds, SolvesSystem, Mul, Div, EndsFor, Chord;
    var e := EndsFor(x, y, c1, cn);
    SecondsSolve(x, y, e);
    EndSlopes(x, y, e, Seconds(x, y, e));
    var rise, h := y[1] - y[0], x[1] - x[0];
    FirstEnd(x, y, c1, cn);
    QuotientOf(h, rise, rise - c1);
    Crossed(rise / h - c1, rise, rise - c1);
  }

  lemma FirstEnd(x: seq<real>, y: seq<real>, c1: real, cn: real)
    requires |x| >= 2 && |y| == |x| && Increasing(x) && Defined(y, c1) && c1 <= LIMIT
    ensures var e := EndsFor(x, y, c1, cn);
      e.g == -0.5 && e.u == Div(Div(3.0 * (y[1] - y[0]), y[1] - y[0] - c1), x[1] - x[0])
    ensures Chord(x, y, 0) == (y[1] - y[0]) / (x[1] - x[0])
  {
  }

  lemma QuotientOf(h: real, rise: real, d: real)
    requires h > 0.0 && d != 0.0
    ensures Mul(h, Div(Div(3.0 * rise, d), h) / 3.0) == rise / d
  {
    assert 3.0 * rise / d / 3.0 == rise / d;
    var q := 3.0 * rise / d;
    assert h * (q / h / 3.0) == q / 3.0;
  }

  lemma Crossed(a: real, rise: real, d: real)
    requires d != 0.0
    ensures a == rise / d <==> a * d == rise
  {
    assert a * d / d == a;
  }

  /** From 0 at 0 to 2 at 1, asked to start level, the curve starts with slope 1. */
  lemma NotLevel(cn: real)
    ensures var x, y := [0.0, 1.0], [0.0, 2.0]; FirstSlope(x, y, Seconds(x, y, EndsFor(x, y, 0.0, cn))) == 1.0
  {
    hide FirstSlope, Seconds, EndsFor;
    FirstSlopeMissed([0.0, 1.0], [0.0, 2.0], 0.0, cn);
  }

  /** Knots far enough apart for evaluation. */
  ghost predicate Spaced(x: seq<real>)
  {
    Increasing(x) && forall i :: 0 <= i < |x| - 1 ==> x[i + 1] - x[i] >= AU_EPS
  }

  /** Halves the range of knots around xo until two neighbours are left. */
  method Bisect(n: nat, x: array<real>, xo: real) returns (klo: int, khi: int)
    requires 1 <= n <= x.Length
    ensures 0 <= klo && khi < n && khi == (if n >= 2 then klo + 1 else klo)
    ensures (klo == 0 || x[klo] <= xo) && (khi == n - 1 || xo < x[khi])
  {
    klo, khi := 0, n - 1;
    while khi - klo > 1
      invariant 0 <= klo <= khi < n && (n >= 2 ==> klo < khi)
      invariant klo == 0 || x[klo] <= xo
      invariant khi == n - 1 || xo < x[khi]
    {
      var k := (khi + klo) / 2;
      if x[k] > xo {
        khi := k;
      } else {
        klo := k;
      }
    }
  }

  lemma CurveAtBracket(x: seq<real>, y: seq<real>, c: seq<real>, xo: real, k: int)
    requires |x| >= 2 && |y| == |c| == |x| && Increasing(x) && 0 <= k < |x| - 1
    requires (k == 0 || x[k] <= xo) && (k == |x| - 2 || xo < x[k + 1])
    ensures Curve(x, y, c, xo) == Piece(x, y, c, k, xo)
  {
    BracketUnique(x, xo, |x| - 2, k);
  }

  /** Evaluates the curve; a bracket narrower than AU_EPS is refused. */
  method SplineValue(n: nat, x: array<real>, y: array<real>, c: array<real>, xo: real) returns (ok: bool, yo: real)
    requires 1 <= n && n <= x.Length && n <= y.Length && n <= c.Length
    ensures n == 1 ==> !ok
    ensures n >= 2 && Spaced(x[..n]) ==> ok && yo == Curve(x[..n], y[..n], c[..n], xo)
  {
    hide Cubic, Div, Curve, Increasing;
    yo := 0.0;
    var klo, khi := Bisect(n, x, xo);
    var h := x[khi] - x[klo];
    ghost var xs := x[..n];
    assert n >= 2 ==> h == xs[klo + 1] - xs[klo];
    if (if h < 0.0 then -h else h) < AU_EPS {
      return false, yo;
    }
    var a := MachineDiv(x[khi] - xo, h);
    var b := MachineDiv(xo - x[klo], h);
    yo := Cubic(h, y[klo], y[khi], c[klo], c[khi], a, b);
    ok := true;
    if n >= 2 && Spaced(xs) {
      CurveAtBracket(xs, y[..n], c[..n], xo, klo);
    }
  }

  // ---- over a grid

  method GetRow(h: nat, w: nat, a: array<real>, j: nat, row: array<real>)
    requires a.Length == h * w && j < h && w <= row.Length && a != row
    modifies row
    ensures row[..w] == Rows(a[..], h, w)[j] && row[w..] == old(row[w..])
  {
    hide Pos;
    var i := Pos(w, j, 0);
    for k := 0 to w
      invariant i == Pos(w, j, 0) + k && row[w..] == old(row[w..])
      invariant forall t :: 0 <= t < k ==> row[t] == Rows(a[..], h, w)[j][t]
    {
      PosInside(h, w, j, k);
      GetCell(a[..], h, w, j, k);
      row[k] := a[i];
      i := i + 1;
    }
  }

  method PutRow(h: nat, w: nat, a: array<real>, j: nat, row: array<real>)
    requires a.Length == h * w && j < h && w <= row.Length && a != row
    modifies a
    ensures Rows(a[..], h, w) == old(Rows(a[..], h, w))[j := row[..w]]
  {
    hide Pos, Rows, Mixed;
    ghost var M, r := Rows(a[..], h, w), row[..w];
    var i := Pos(w, j, 0);
    for k := 0 to w
      invariant i == Pos(w, j, 0) + k
      invariant Rows(a[..], h, w) == M[j := Mixed(r, M[j], k)]
    {
      MixedStep(r, M[j], k);
      PosInside(h, w, j, k);
      ghost var s := a[..];
      SetCell(s, h, w, j, k, row[k]);
      a[i] := row[k];
      assert a[..] == s[Pos(w, j, k) := row[k]];
      i := i + 1;
    }
  }

  /** Coefficients of every row of the grid. */
  method SplineGrid(nr: nat, nc: nat, x2: array<real>, y: array<real>, c: array<real>)
    requires nc >= 2 && x2.Length == nc && y.Length == c.Length == nr * nc && c != x2 && c != y
    modifies c
    ensures Increasing(x2[..]) ==>
      forall j :: 0 <= j < nr ==> Rows(c[..], nr, nc)[j] == Seconds(x2[..], Rows(y[..], nr, nc)[j], NATURAL)
  {
    hide Rows, Seconds;
    var ytmp, ctmp := new real[nc](_ => 0.0), new real[nc](_ => 0.0);
    ghost var xs, Y := x2[..], Rows(y[..], nr, nc);
    for j := 0 to nr
      invariant x2[..] == xs && Rows(y[..], nr, nc) == Y
      invariant Increasing(xs) ==> forall t :: 0 <= t < j ==> Rows(c[..], nr, nc)[t] == Seconds(xs, Y[t], NATURAL)
    {
      GetRow(nr, nc, y, j, ytmp);
      assert x2[..nc] == xs;
      SplineCoefficients(nc, x2, ytmp, AU_MAX, AU_MAX, ctmp);
      PutRow(nr, nc, c, j, ctmp);
    }
  }

  /** The curves of all rows at x2o, as ordinates over x1. */
  ghost function Across(x2: seq<real>, Y: Matrix, C: Matrix, x2o: real): (v: seq<real>)
    requires |x2| >= 2 && Increasing(x2) && |C| == |Y| && forall j :: 0 <= j < |Y| ==> |Y[j]| == |C[j]| == |x2|
    ensures |v| == |Y|
  {
    seq(|Y|, j requires 0 <= j < |Y| => Curve(x2, Y[j], C[j], x2o))
  }

  /** First along every row, then across the rows. */
  method SplineGridValue(nr: nat, nc: nat, x1: array<real>, x2: array<real>, y: array<real>, c: array<real>,
                         x1o: real, x2o: real)
    returns (ok: bool, yo: real)
    requires nr >= 2 && nc >= 1 && x1.Length == nr && x2.Length == nc && y.Length == c.Length == nr * nc
    ensures nc == 1 ==> !ok
    ensures nc >= 2 && Spaced(x1[..]) && Spaced(x2[..]) ==>
      var v := Across(x2[..], Rows(y[..], nr, nc), Rows(c[..], nr, nc), x2o);
      ok && yo == Curve(x1[..], v, Seconds(x1[..], v, NATURAL), x1o)
  {
    hide Rows, Seconds, Curve, Increasing;
    var ctmp := new real[if nr > nc then nr else nc](_ => 0.0);
    var ytmp, yytmp := new real[nc](_ => 0.0), new real[nr](_ => 0.0);
    ghost var Y, C := Rows(y[..], nr, nc), Rows(c[..], nr, nc);
    yo := 0.0;
    for j := 0 to nr
      invariant nc == 1 ==> j == 0
      invariant nc >= 2 && Spaced(x2[..]) ==> forall t :: 0 <= t < j ==> yytmp[t] == Curve(x2[..], Y[t], C[t], x2o)
    {
      GetRow(nr, nc, y, j, ytmp);
      GetRow(nr, nc, c, j, ctmp);
      assert x2[..nc] == x2[..] && ytmp[..nc] == Y[j];
      var value;
      ok, value := SplineValue(nc, x2, ytmp, ctmp, x2o);
      if !ok {
        return;
      }
      yytmp[j] := value;
    }
    assert x1[..nr] == x1[..] && yytmp[..nr] == yytmp[..];
    SplineCoefficients(nr, x1, yytmp, AU_MAX, AU_MAX, ctmp);
    ok, yo := SplineValue(nr, x1, yytmp, ctmp, x1o);
    if nc >= 2 && Spaced(x1[..]) && Spaced(x2[..]) {
      assert yytmp[..] == Across(x2[..], Y, C, x2o);
    }
  }

  /** At the nodes of the grid the two passes return the grid values. */
  lemma GridNodes(x1: seq<real>, x2: seq<real>, Y: Matrix, C: Matrix, i: int, j: int)
    requires |x1| >= 2 && |x2| >= 2 && Increasing(x1) && Increasing(x2) && Shape(Y, |x1|, |x2|) && Shape(C, |x1|, |x2|)
    requires 0 <= i < |x1| && 0 <= j < |x2|
    ensures var v := Across(x2, Y, C, x2[j]); Curve(x1, v, Seconds(x1, v, NATURAL), x1[i]) == Y[i][j]
  {
    hide Curve, Increasing;
    var v := Across(x2, Y, C, x2[j]);
    CurveAtKnot(x1, v, Seconds(x1, v, NATURAL), i);
    CurveAtKnot(x2, Y[i], C[i], j);
  }
}
