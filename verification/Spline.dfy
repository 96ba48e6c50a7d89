/** Cubic splines: the tridiagonal elimination with any two end rows, and the curve through its solution. */
module Spline {
  import opened RealSums
  import opened Polynomials

  const AU_EPS: real := 0.000001
  const AU_MAX: real := 1000000000000000000000000000000.0

  // ---- elimination and back substitution

  /** The rows of the two ends: c[0] = g c[1] + u at the first knot and q c[n-2] + c[n-1] = v at the last. */
  datatype EndRows = EndRows(g: real, u: real, q: real, v: real)

  type Ends = e: EndRows | -1.0 < e.g <= 0.0 <= e.q < 1.0
    witness EndRows(0.0, 0.0, 0.0, 0.0)

  /** No second derivative at either end. */
  const NATURAL: Ends := EndRows(0.0, 0.0, 0.0, 0.0)

  /** Share of the left interval around knot i. */
  function Sig(x: seq<real>, i: int): (s: real)
    requires 1 <= i < |x| - 1 && Increasing(x)
    ensures 0.0 < s < 1.0
  {
    ShareInside(x[i] - x[i - 1], x[i + 1] - x[i - 1]);
    Div(x[i] - x[i - 1], x[i + 1] - x[i - 1])
  }

  lemma Proper(a: real, b: real)
    requires 0.0 <= a < b
    ensures 0.0 <= a / b < 1.0
  {
  }

  lemma ShareInside(a: real, b: real)
    requires 0.0 < a < b
    ensures 0.0 < Div(a, b) < 1.0
  {
    Proper(a, b);
    assert a / b > 0.0;
  }

  /** Right-hand side of the equation at knot i. */
  function Bend(x: seq<real>, y: seq<real>, i: int): real
    requires 1 <= i < |x| - 1 && |y| == |x| && Increasing(x)
  {
    Div(6.0 * (Div(y[i + 1] - y[i], x[i + 1] - x[i]) - Div(y[i] - y[i - 1], x[i] - x[i - 1])), x[i + 1] - x[i - 1])
  }

  /** Elimination coefficient of row i; every one lies in (-1, 0]. */
  function Gamma(x: seq<real>, e: Ends, i: int): (g: real)
    requires 0 <= i < |x| - 1 && Increasing(x)
    ensures -1.0 < g <= 0.0
    decreases i
  {
    if i == 0 then e.g
    else
      GammaBounds(Sig(x, i), Pivot(x, e, i));
      Div(Sig(x, i) - 1.0, Pivot(x, e, i))
  }

  /** Pivot of row i; never below one. */
  function Pivot(x: seq<real>, e: Ends, i: int): (p: real)
    requires 1 <= i < |x| - 1 && Increasing(x)
    ensures 1.0 < p <= 2.0
    decreases i, 0
  {
    PivotBounds(Sig(x, i), Gamma(x, e, i - 1));
    Mul(Sig(x, i), Gamma(x, e, i - 1)) + 2.0
  }

  lemma PivotBounds(s: real, g: real)
    requires 0.0 < s < 1.0 && -1.0 < g <= 0.0
    ensures -1.0 < Mul(s, g) <= 0.0
  {
  }

  lemma GammaBounds(s: real, p: real)
    requires 0.0 < s < 1.0 && 1.0 < p
    ensures -1.0 < Div(s - 1.0, p) <= 0.0
  {
    Proper(1.0 - s, p);
    assert Div(s - 1.0, p) == -((1.0 - s) / p);
  }

  function Reduced(x: seq<real>, y: seq<real>, e: Ends, i: int): real
    requires 0 <= i < |x| - 1 && |y| == |x| && Increasing(x)
    decreases i
  {
    if i == 0 then e.u
    else Div(Bend(x, y, i) - Mul(Sig(x, i), Reduced(x, y, e, i - 1)), Pivot(x, e, i))
  }

  /** What the last row divides by. */
  function EndPivot(x: seq<real>, e: Ends): (p: real)
    requires |x| >= 2 && Increasing(x)
    ensures p > 0.0
  {
    EndBounds(e.q, Gamma(x, e, |x| - 2));
    Mul(e.q, Gamma(x, e, |x| - 2)) + 1.0
  }

  lemma EndBounds(q: real, g: real)
    requires 0.0 <= q < 1.0 && -1.0 < g <= 0.0
    ensures -1.0 < Mul(q, g) <= 0.0
  {
  }

  /** Second derivative at knot i, by back substitution from the last row. */
  function Second(x: seq<real>, y: seq<real>, e: Ends, i: int): real
    requires 0 <= i < |x| && |x| >= 2 && |y| == |x| && Increasing(x)
    decreases |x| - i
  {
    if i == |x| - 1 then Div(e.v - Mul(e.q, Reduced(x, y, e, i - 1)), EndPivot(x, e))
    else Mul(Gamma(x, e, i), Second(x, y, e, i + 1)) + Reduced(x, y, e, i)
  }

  function Seconds(x: seq<real>, y: seq<real>, e: Ends): (c: seq<real>)
    requires |x| >= 2 && |y| == |x| && Increasing(x)
    ensures |c| == |x|
  {
    seq(|x|, i requires 0 <= i < |x| => Second(x, y, e, i))
  }

  /** The equation at inner knot i. */
  ghost predicate RowHolds(x: seq<real>, y: seq<real>, c: seq<real>, i: int)
    requires 1 <= i < |x| - 1 && |y| == |x| == |c| && Increasing(x)
  {
    Mul(Sig(x, i), c[i - 1]) + 2.0 * c[i] + Mul(1.0 - Sig(x, i), c[i + 1]) == Bend(x, y, i)
  }

  ghost predicate StartHolds(e: Ends, c: seq<real>)
    requires |c| >= 2
  {
    c[0] == Mul(e.g, c[1]) + e.u
  }

  ghost predicate EndHolds(e: Ends, c: seq<real>)
    requires |c| >= 2
  {
    Mul(e.q, c[|c| - 2]) + c[|c| - 1] == e.v
  }

  /** The tridiagonal system with its two end rows. */
  ghost predicate SolvesSystem(x: seq<real>, y: seq<real>, e: Ends, c: seq<real>)
    requires |x| >= 2 && |y| == |x| == |c| && Increasing(x)
  {
    StartHolds(e, c) && EndHolds(e, c) && forall i :: 1 <= i < |x| - 1 ==> RowHolds(x, y, c, i)
  }

  lemma RowSolved(s: real, g: real, u: real, p: real, d: real, m0: real, m1: real, m2: real)
    requires p == Mul(s, g) + 2.0 && p != 0.0
    requires m0 == Mul(g, m1) + u
    requires m1 == Mul(Div(s - 1.0, p), m2) + Div(d - Mul(s, u), p)
    ensures Mul(s, m0) + 2.0 * m1 + Mul(1.0 - s, m2) == d
  {
    hide Mul, Div;
    MulLaws(s, Mul(g, m1), u);
    MulLaws(s, g, m1);
    MulLaws(m1, Mul(s, g), 2.0);
    MulLaws(Mul(s, g), m1, 0.0);
    Twice(m1);
    var q, r := Div(s - 1.0, p), Div(d - Mul(s, u), p);
    MulLaws(p, Mul(q, m2), r);
    MulLaws(p, q, m2);
    MulLaws(p, q, 0.0);
    MulLaws(p, r, 0.0);
    MulLaws(p, m1, 0.0);
    MulLaws(m2, s - 1.0, 1.0 - s);
    MulLaws(s - 1.0, m2, 0.0);
    MulLaws(1.0 - s, m2, 0.0);
    MulLaws(m2, 1.0 - s, 0.0);
    Opposite(s - 1.0, m2);
  }

  lemma Twice(a: real)
    ensures Mul(a, 2.0) == 2.0 * a
  {
  }

  lemma Opposite(a: real, b: real)
    ensures Mul(-a, b) == -Mul(a, b)
  {
  }

  /** The last row, with the row before it eliminated, has exactly one solution. */
  lemma EndRow(q: real, g: real, r: real, v: real, m0: real, m1: real)
    requires Mul(q, g) + 1.0 != 0.0 && m0 == Mul(g, m1) + r
    ensures Mul(q, m0) + m1 == v <==> m1 == Div(v - Mul(q, r), Mul(q, g) + 1.0)
  {
    hide Mul, Div;
    var p := Mul(q, g) + 1.0;
    var w := Div(v - Mul(q, r), p);
    MulLaws(q, Mul(g, m1), r);
    MulLaws(q, g, m1);
    MulLaws(m1, Mul(q, g), 1.0);
    MulLaws(Mul(q, g), m1, 0.0);
    MulLaws(m1, p, 0.0);
    MulLaws(w, p, 0.0);
    MulLaws(p, m1, w);
    if m1 != w {
      MulNonzero(p, m1 - w);
    }
  }

  /** The second derivatives satisfy the equation of every inner knot. */
  lemma InnerSolved(x: seq<real>, y: seq<real>, e: Ends, i: int)
    requires |x| >= 2 && |y| == |x| && Increasing(x) && 1 <= i < |x| - 1
    ensures RowHolds(x, y, Seconds(x, y, e), i)
  {
    hide Mul, Div, Bend, Sig, Increasing;
    var m0, m1, m2 := Second(x, y, e, i - 1), Second(x, y, e, i), Second(x, y, e, i + 1);
    RowSolved(Sig(x, i), Gamma(x, e, i - 1), Reduced(x, y, e, i - 1), Pivot(x, e, i), Bend(x, y, i), m0, m1, m2);
  }

  /** What the elimination leaves solves the whole system. */
  lemma SecondsSolve(x: seq<real>, y: seq<real>, e: Ends)
    requires |x| >= 2 && |y| == |x| && Increasing(x)
    ensures SolvesSystem(x, y, e, Seconds(x, y, e))
  {
    hide Mul, Div, RowHolds, Increasing, Gamma, Reduced;
    var n := |x|;
    forall i | 1 <= i < n - 1
      ensures RowHolds(x, y, Seconds(x, y, e), i)
    {
      InnerSolved(x, y, e, i);
    }
    EndsSolved(x, y, e);
  }

  lemma EndsSolved(x: seq<real>, y: seq<real>, e: Ends)
    requires |x| >= 2 && |y| == |x| && Increasing(x)
    ensures StartHolds(e, Seconds(x, y, e)) && EndHolds(e, Seconds(x, y, e))
  {
    hide Mul, Div, Increasing;
    var n := |x|;
    assert EndPivot(x, e) > 0.0;
    EndRow(e.q, Gamma(x, e, n - 2), Reduced(x, y, e, n - 2), e.v, Second(x, y, e, n - 2), Second(x, y, e, n - 1));
  }

  lemma RowEliminated(s: real, g: real, u: real, p: real, d: real, m0: real, m1: real, m2: real)
    requires p == Mul(s, g) + 2.0 && p != 0.0
    requires m0 == Mul(g, m1) + u
    requires Mul(s, m0) + 2.0 * m1 + Mul(1.0 - s, m2) == d
    ensures m1 == Mul(Div(s - 1.0, p), m2) + Div(d - Mul(s, u), p)
  {
    hide Mul, Div;
    var m1' := Mul(Div(s - 1.0, p), m2) + Div(d - Mul(s, u), p);
    RowSolved(s, g, u, p, d, Mul(g, m1') + u, m1', m2);
    MulLaws(s, Mul(g, m1), u);
    MulLaws(s, Mul(g, m1'), u);
    MulLaws(s, g, m1);
    MulLaws(s, g, m1');
    MulLaws(m1, Mul(s, g), 2.0);
    MulLaws(m1', Mul(s, g), 2.0);
    MulLaws(Mul(s, g), m1, 0.0);
    MulLaws(Mul(s, g), m1', 0.0);
    Twice(m1);
    Twice(m1');
    MulLaws(m1, p, 0.0);
    MulLaws(m1', p, 0.0);
    MulLaws(p, m1, m1');
    if m1 != m1' {
      MulNonzero(p, m1 - m1');
    }
  }

  lemma {:induction false} EliminationForced(x: seq<real>, y: seq<real>, e: Ends, c: seq<real>, i: int)
    requires |x| >= 2 && |y| == |x| == |c| && Increasing(x) && SolvesSystem(x, y, e, c) && 0 <= i < |x| - 1
    ensures c[i] == Mul(Gamma(x, e, i), c[i + 1]) + Reduced(x, y, e, i)
  {
    hide Mul, Div, Bend, Sig;
    if i > 0 {
      EliminationForced(x, y, e, c, i - 1);
      assert RowHolds(x, y, c, i);
      RowEliminated(Sig(x, i), Gamma(x, e, i - 1), Reduced(x, y, e, i - 1), Pivot(x, e, i), Bend(x, y, i),
                    c[i - 1], c[i], c[i + 1]);
    }
  }

  lemma {:induction false} SystemUniqueFrom(x: seq<real>, y: seq<real>, e: Ends, c: seq<real>, i: int)
    requires |x| >= 2 && |y| == |x| == |c| && Increasing(x) && SolvesSystem(x, y, e, c) && 0 <= i < |x|
    ensures c[i] == Second(x, y, e, i)
    decreases |x| - i
  {
    hide Mul, Div, Bend, Gamma, Reduced;
    if i < |x| - 1 {
      SystemUniqueFrom(x, y, e, c, i + 1);
      EliminationForced(x, y, e, c, i);
    } else {
      EliminationForced(x, y, e, c, i - 1);
      assert EndPivot(x, e) > 0.0;
      EndRow(e.q, Gamma(x, e, i - 1), Reduced(x, y, e, i - 1), e.v, c[i - 1], c[i]);
    }
  }

  /** The system has exactly one solution, and it is the one computed. */
  lemma SystemUnique(x: seq<real>, y: seq<real>, e: Ends, c: seq<real>)
    requires |x| >= 2 && |y| == |x| == |c| && Increasing(x)
    ensures SolvesSystem(x, y, e, c) <==> c == Seconds(x, y, e)
  {
    hide SolvesSystem, Second;
    SecondsSolve(x, y, e);
    if SolvesSystem(x, y, e, c) {
      forall i | 0 <= i < |x|
        ensures c[i] == Seconds(x, y, e)[i]
      {
        SystemUniqueFrom(x, y, e, c, i);
      }
    }
  }

  // ---- the curve

  /** The value a cubic piece takes at weights a and b. */
  function Cubic(h: real, ylo: real, yhi: real, clo: real, chi: real, a: real, b: real): real
  {
    a * ylo + b * yhi + ((a * a - 1.0) * a * clo + (b * b - 1.0) * b * chi) * h * h / 6.0
  }

  function Piece(x: seq<real>, y: seq<real>, c: seq<real>, k: int, xo: real): real
    requires 0 <= k < |x| - 1 && |y| == |c| == |x| && Increasing(x)
  {
    var h := x[k + 1] - x[k];
    Cubic(h, y[k], y[k + 1], c[k], c[k + 1], Div(x[k + 1] - xo, h), Div(xo - x[k], h))
  }

  function Chord(x: seq<real>, y: seq<real>, k: int): real
    requires 0 <= k < |x| - 1 && |y| == |x| && Increasing(x)
  {
    Div(y[k + 1] - y[k], x[k + 1] - x[k])
  }

  /** Slope of piece k at its left end. */
  function LeftSlope(x: seq<real>, y: seq<real>, c: seq<real>, k: int): real
    requires 0 <= k < |x| - 1 && |y| == |c| == |x| && Increasing(x)
  {
    Chord(x, y, k) - Mul(x[k + 1] - x[k], (2.0 * c[k] + c[k + 1]) / 6.0)
  }

  /** Slope of piece k at its right end. */
  function RightSlope(x: seq<real>, y: seq<real>, c: seq<real>, k: int): real
    requires 0 <= k < |x| - 1 && |y| == |c| == |x| && Increasing(x)
  {
    Chord(x, y, k) + Mul(x[k + 1] - x[k], (c[k] + 2.0 * c[k + 1]) / 6.0)
  }

  /** Piece k as a polynomial in the distance from its left knot. */
  function Local(x: seq<real>, y: seq<real>, c: seq<real>, k: int): Poly
    requires 0 <= k < |x| - 1 && |y| == |c| == |x| && Increasing(x)
  {
    [y[k], LeftSlope(x, y, c, k), c[k] / 2.0, Div((c[k + 1] - c[k]) / 6.0, x[k + 1] - x[k])]
  }

  lemma EvalCubic(p: Poly, t: real)
    requires |p| == 4
    ensures Eval(p, t) == p[0] + Mul(t, p[1] + Mul(t, p[2] + Mul(t, p[3])))
    ensures Derivative(p) == [p[1], 2.0 * p[2], 3.0 * p[3]]
    ensures Eval(Derivative(p), t) == p[1] + Mul(t, 2.0 * p[2] + Mul(t, 3.0 * p[3]))
    ensures Derivative(Derivative(p)) == [2.0 * p[2], 6.0 * p[3]]
    ensures Eval(Derivative(Derivative(p)), t) == 2.0 * p[2] + Mul(t, 6.0 * p[3])
  {
    hide Mul;
    assert p[1..][1..][1..] == [p[3]] && p[1..][1..] == [p[2], p[3]] && p[1..] == [p[1], p[2], p[3]];
    EvalQuadratic(Derivative(p), t);
    EvalQuadratic(p[1..], t);
  }

  lemma EvalOne(v: real, t: real)
    ensures Eval([v], t) == v
  {
    hide Mul;
    assert [v][1..] == [];
  }

  lemma EvalLine(p: Poly, t: real)
    requires |p| == 2
    ensures Eval(p, t) == p[0] + Mul(t, p[1]) && Derivative(p) == [p[1]] && Eval(Derivative(p), t) == p[1]
  {
    hide Mul;
    assert p[1..] == [p[1]];
    EvalOne(p[1], t);
    assert Derivative([p[1]]) == [];
    assert Derivative(p)[0] == p[1];
  }

  lemma EvalQuadratic(p: Poly, t: real)
    requires |p| == 3
    ensures Eval(p, t) == p[0] + Mul(t, p[1] + Mul(t, p[2]))
    ensures Derivative(p) == [p[1], 2.0 * p[2]]
    ensures Eval(Derivative(p), t) == p[1] + Mul(t, 2.0 * p[2])
  {
    hide Mul;
    assert p[1..] == [p[1], p[2]];
    EvalLine(p[1..], t);
    EvalLine([p[1], 2.0 * p[2]], t);
    assert Derivative(p)[0] == p[1] && Derivative(p)[1] == 2.0 * p[2];
  }

  /** The weighted form of a piece, expanded in t = b h. */
  lemma CubicExpanded(h: real, ylo: real, yhi: real, clo: real, chi: real, b: real, t: real, s: real, d: real)
    requires Mul(s, h) == yhi - ylo && Mul(d, h) == (chi - clo) / 6.0 && Mul(b, h) == t
    ensures Cubic(h, ylo, yhi, clo, chi, 1.0 - b, b)
      == ylo + Mul(t, (s - Mul(h, (2.0 * clo + chi) / 6.0)) + Mul(t, clo / 2.0 + Mul(t, d)))
  {
    hide Mul, Cubic;
    var w, z := (2.0 * clo + chi) / 6.0, clo / 2.0;
    CubicTerms(h, ylo, yhi - ylo, clo, (chi - clo) / 6.0, b);
    FirstTerm(b, h, s);
    FirstTerm(b, h, d);
    MulLaws(t, s, Mul(h, w));
    MulLaws(t, s - Mul(h, w), Mul(t, z + Mul(t, d)));
    MulLaws(t, z, Mul(t, d));
    MulLaws(t, Mul(t, z), Mul(t, Mul(t, d)));
  }

  lemma FirstTerm(b: real, h: real, s: real)
    ensures Mul(Mul(b, h), s) == Mul(b, Mul(s, h))
  {
    hide Mul;
    MulLaws(b, h, s);
    MulLaws(h, s, 0.0);
  }

  // the terms of a piece, in the weight b of its right end

  function Linear(b: real, h: real, w: real): real
  {
    b * h * h * w
  }

  function Square(b: real, h: real, w: real): real
  {
    b * b * h * h * w
  }

  function Cube(b: real, h: real, w: real): real
  {
    b * b * b * h * h * w
  }

  lemma CubicRaw(h: real, ylo: real, rise: real, clo: real, g: real, b: real)
    ensures Cubic(h, ylo, ylo + rise, clo, clo + 6.0 * g, 1.0 - b, b)
      == ylo + Mul(b, rise) - Linear(b, h, clo / 2.0 + g) + Square(b, h, clo / 2.0) + Cube(b, h, g)
  {
  }

  lemma LinearTerm(b: real, h: real, w: real)
    ensures Mul(Mul(b, h), Mul(h, w)) == Linear(b, h, w)
  {
  }

  lemma SquareTerm(b: real, h: real, w: real)
    ensures Mul(Mul(b, h), Mul(Mul(b, h), w)) == Square(b, h, w)
  {
    assert b * h * (b * h * w) == b * b * h * h * w;
  }

  lemma CubeTerm(b: real, h: real, w: real)
    ensures Mul(Mul(b, h), Mul(Mul(b, h), Mul(b, w))) == Cube(b, h, w)
  {
    assert b * h * (b * w) == b * b * h * w;
    assert b * h * (b * b * h * w) == b * b * b * h * h * w;
  }

  /** The value of a piece, term by term in the weight of its right end. */
  lemma CubicTerms(h: real, ylo: real, rise: real, clo: real, g: real, b: real)
    ensures var t := Mul(b, h);
      Cubic(h, ylo, ylo + rise, clo, clo + 6.0 * g, 1.0 - b, b)
      == ylo + Mul(b, rise) - Mul(t, Mul(h, clo / 2.0 + g)) + Mul(t, Mul(t, clo / 2.0)) + Mul(t, Mul(t, Mul(b, g)))
  {
    hide Mul, Cubic, Linear, Square, Cube;
    CubicRaw(h, ylo, rise, clo, g, b);
    LinearTerm(b, h, clo / 2.0 + g);
    SquareTerm(b, h, clo / 2.0);
    CubeTerm(b, h, g);
  }

  lemma PieceIsLocal(x: seq<real>, y: seq<real>, c: seq<real>, k: int, xo: real)
    requires 0 <= k < |x| - 1 && |y| == |c| == |x| && Increasing(x)
    ensures Piece(x, y, c, k, xo) == Eval(Local(x, y, c, k), xo - x[k])
  {
    hide Cubic, Eval, Mul, Div, Derivative;
    var h, t, p := x[k + 1] - x[k], xo - x[k], Local(x, y, c, k);
    EvalCubic(p, t);
    Weights(h, t);
    CubicExpanded(h, y[k], y[k + 1], c[k], c[k + 1], Div(t, h), t, Chord(x, y, k), p[3]);
  }

  lemma Weights(h: real, t: real)
    requires h != 0.0
    ensures Div(h - t, h) == 1.0 - Div(t, h)
  {
    assert h / h == 1.0;
    assert (h - t) / h == h / h - t / h;
  }

  /** Slopes and second derivatives at both ends of a piece. */
  lemma EndsOfPiece(x: seq<real>, y: seq<real>, c: seq<real>, k: int)
    requires 0 <= k < |x| - 1 && |y| == |c| == |x| && Increasing(x)
    ensures var h, p := x[k + 1] - x[k], Local(x, y, c, k);
      && Eval(Derivative(p), 0.0) == LeftSlope(x, y, c, k)
      && Eval(Derivative(p), h) == RightSlope(x, y, c, k)
      && Eval(Derivative(Derivative(p)), 0.0) == c[k]
      && Eval(Derivative(Derivative(p)), h) == c[k + 1]
  {
    hide Mul, Div, Eval, Derivative;
    var h, p := x[k + 1] - x[k], Local(x, y, c, k);
    EvalCubic(p, 0.0);
    EvalCubic(p, h);
    var e := (c[k + 1] - c[k]) / 6.0;
    MulLaws(p[3], h, 0.0);
    Tripled(h, p[3]);
    MulLaws(h, 2.0 * p[2], 3.0 * e);
    Thirds(h, c[k], c[k + 1]);
  }

  lemma Tripled(h: real, d: real)
    ensures Mul(h, 3.0 * d) == 3.0 * Mul(h, d) && Mul(h, 6.0 * d) == 6.0 * Mul(h, d)
  {
  }

  lemma Thirds(h: real, u: real, v: real)
    ensures -Mul(h, (2.0 * u + v) / 6.0) + Mul(h, u + 3.0 * ((v - u) / 6.0)) == Mul(h, (u + 2.0 * v) / 6.0)
  {
  }

  /** The two pieces at inner knot i have the same first derivative there. */
  ghost predicate Joined(x: seq<real>, y: seq<real>, c: seq<real>, i: int)
    requires 1 <= i < |x| - 1 && |y| == |x| == |c| && Increasing(x)
  {
    Eval(Derivative(Local(x, y, c, i - 1)), x[i] - x[i - 1]) == Eval(Derivative(Local(x, y, c, i)), 0.0)
  }

  /** The first derivatives of neighbouring pieces agree at every inner knot, and the end rows hold, exactly when c
      solves the system. */
  lemma SmoothIffSolves(x: seq<real>, y: seq<real>, e: Ends, c: seq<real>)
    requires |x| >= 2 && |y| == |x| == |c| && Increasing(x)
    ensures SolvesSystem(x, y, e, c) <==>
      StartHolds(e, c) && EndHolds(e, c) && forall i :: 1 <= i < |x| - 1 ==> Joined(x, y, c, i)
  {
    hide Joined, RowHolds;
    forall i | 1 <= i < |x| - 1
      ensures Joined(x, y, c, i) <==> RowHolds(x, y, c, i)
    {
      JoinAtKnot(x, y, c, i);
    }
  }

  lemma JoinAtKnot(x: seq<real>, y: seq<real>, c: seq<real>, i: int)
    requires 1 <= i < |x| - 1 && |y| == |c| == |x| && Increasing(x)
    ensures Joined(x, y, c, i) <==> RowHolds(x, y, c, i)
  {
    hide Mul, Div, Eval, Derivative, Local;
    EndsOfPiece(x, y, c, i - 1);
    EndsOfPiece(x, y, c, i);
    JoinAlgebra(x[i] - x[i - 1], x[i + 1] - x[i], Chord(x, y, i - 1), Chord(x, y, i), c[i - 1], c[i], c[i + 1]);
  }

  lemma JoinAlgebra(g: real, h: real, s: real, r: real, u: real, v: real, w: real)
    requires g > 0.0 && h > 0.0
    ensures s + Mul(g, (u + 2.0 * v) / 6.0) == r - Mul(h, (2.0 * v + w) / 6.0)
      <==> Mul(Div(g, g + h), u) + 2.0 * v + Mul(1.0 - Div(g, g + h), w) == Div(6.0 * (r - s), g + h)
  {
    hide Mul, Div;
    var m := g + h;
    var q := Div(g, m);
    var a, b := Mul(q, u) + 2.0 * v + Mul(1.0 - q, w), Div(6.0 * (r - s), m);
    Weighted(m, q, g, h, u, v, w);
    Sixfold(g, u + 2.0 * v);
    Sixfold(h, 2.0 * v + w);
    Shares(g, h, u, v, w);
    MulLaws(m, b, 0.0);
    MulLaws(m, a, b);
    if a != b {
      MulNonzero(m, a - b);
    }
  }

  lemma Weighted(m: real, q: real, g: real, h: real, u: real, v: real, w: real)
    requires Mul(q, m) == g && m == g + h
    ensures Mul(m, Mul(q, u) + 2.0 * v + Mul(1.0 - q, w)) == Mul(g, u) + 2.0 * Mul(m, v) + Mul(h, w)
  {
    hide Mul;
    var r := Mul(1.0 - q, w);
    MulLaws(m, Mul(q, u) + 2.0 * v, r);
    MulLaws(m, Mul(q, u), 2.0 * v);
    MulLaws(m, v, v);
    MulLaws(m, q, u);
    MulLaws(m, q, w);
    MulLaws(1.0 - q, w, 0.0);
    MulLaws(w, 1.0, q);
    MulLaws(w, q, 0.0);
    MulLaws(m, w, Mul(q, w));
    MulLaws(m, w, 0.0);
    MulLaws(g, w, 0.0);
    MulLaws(w, g, h);
    MulLaws(w, h, 0.0);
    assert v + v == 2.0 * v;
  }

  lemma Shares(g: real, h: real, u: real, v: real, w: real)
    ensures Mul(g, u + 2.0 * v) + Mul(h, 2.0 * v + w) == Mul(g, u) + 2.0 * Mul(g + h, v) + Mul(h, w)
  {
  }

  lemma Sixfold(h: real, e: real)
    ensures 6.0 * Mul(h, e / 6.0) == Mul(h, e)
  {
  }

  // ---- the ends

  /** The natural end rows say that the second derivatives vanish at both ends. */
  lemma NaturalEnds(c: seq<real>)
    requires |c| >= 2
    ensures StartHolds(NATURAL, c) && EndHolds(NATURAL, c) <==> c[0] == 0.0 && c[|c| - 1] == 0.0
  {
  }

  /** Slope of the curve at its first knot, and at its last. */
  function FirstSlope(x: seq<real>, y: seq<real>, c: seq<real>): real
    requires |x| >= 2 && |y| == |c| == |x| && Increasing(x)
  {
    Eval(Derivative(Local(x, y, c, 0)), 0.0)
  }

  function LastSlope(x: seq<real>, y: seq<real>, c: seq<real>): real
    requires |x| >= 2 && |y| == |c| == |x| && Increasing(x)
  {
    Eval(Derivative(Local(x, y, c, |x| - 2)), x[|x| - 1] - x[|x| - 2])
  }

  /** A first row with g = -1/2 fixes the slope at the first knot, and a last row with q = 1/2 that at the last. */
  lemma EndSlopes(x: seq<real>, y: seq<real>, e: Ends, c: seq<real>)
    requires |x| >= 2 && |y| == |c| == |x| && Increasing(x) && SolvesSystem(x, y, e, c)
    ensures e.g == -0.5 ==> FirstSlope(x, y, c) == Chord(x, y, 0) - Mul(x[1] - x[0], e.u / 3.0)
    ensures var n := |x|;
      e.q == 0.5 ==> LastSlope(x, y, c) == Chord(x, y, n - 2) + Mul(x[n - 1] - x[n - 2], e.v / 3.0)
  {
    hide Chord, Mul, Local, Eval, Derivative, RowHolds;
    var n := |x|;
    EndsOfPiece(x, y, c, 0);
    EndsOfPiece(x, y, c, n - 2);
    Halved(c[1]);
    Halved(c[n - 2]);
    assert e.g == -0.5 ==> (2.0 * c[0] + c[1]) / 6.0 == e.u / 3.0;
    assert e.q == 0.5 ==> (c[n - 2] + 2.0 * c[n - 1]) / 6.0 == e.v / 3.0;
  }

  lemma Halved(a: real)
    ensures Mul(-0.5, a) == -a / 2.0 && Mul(0.5, a) == a / 2.0
  {
  }
}
