/** Polynomials by their coefficients, lowest first, and how many roots they can have. */
module Polynomials {
  import opened RealSums

  type Poly = seq<real>

  function Eval(c: Poly, x: real): real
  {
    if c == [] then 0.0 else c[0] + Mul(x, Eval(c[1..], x))
  }

  /** Quotient of c(x) - c(r) by x - r. */
  function Quotient(c: Poly, r: real): (q: Poly)
    requires c != []
    ensures |q| == |c| - 1
  {
    if |c| == 1 then []
    else
      var t := Quotient(c[1..], r);
      Plus(c[1..], Scaled(r, t + [0.0]))
  }

  function Plus(c: Poly, d: Poly): (e: Poly)
    requires |c| == |d|
    ensures |e| == |c|
  {
    seq(|c|, i requires 0 <= i < |c| => c[i] + d[i])
  }

  function Scaled(k: real, c: Poly): (e: Poly)
    ensures |e| == |c|
  {
    seq(|c|, i requires 0 <= i < |c| => Mul(k, c[i]))
  }

  lemma {:induction false} EvalPlus(c: Poly, d: Poly, x: real)
    requires |c| == |d|
    ensures Eval(Plus(c, d), x) == Eval(c, x) + Eval(d, x)
  {
    hide Mul;
    if c != [] {
      EvalPlus(c[1..], d[1..], x);
      assert Plus(c, d)[1..] == Plus(c[1..], d[1..]);
      MulLaws(x, Eval(c[1..], x), Eval(d[1..], x));
    }
  }

  lemma {:induction false} EvalScaled(k: real, c: Poly, x: real)
    ensures Eval(Scaled(k, c), x) == Mul(k, Eval(c, x))
  {
    hide Mul;
    if c != [] {
      EvalScaled(k, c[1..], x);
      assert Scaled(k, c)[1..] == Scaled(k, c[1..]);
      MulLaws(k, c[0], Mul(x, Eval(c[1..], x)));
      MulLaws(k, x, Eval(c[1..], x));
      MulLaws(x, k, Eval(c[1..], x));
      MulLaws(k, x, 0.0);
    }
  }

  /** Trailing zeros do not matter. */
  lemma {:induction false} EvalPadded(c: Poly, n: nat, x: real)
    ensures Eval(c + seq(n, _ => 0.0), x) == Eval(c, x)
    decreases |c| + n
  {
    hide Mul;
    var p := c + seq(n, _ => 0.0);
    if c != [] {
      EvalPadded(c[1..], n, x);
      assert p[1..] == c[1..] + seq(n, _ => 0.0);
    } else if n > 0 {
      EvalPadded([], n - 1, x);
      assert p[1..] == [] + seq(n - 1, _ => 0.0);
    }
  }

  lemma {:induction false} EvalQuotient(c: Poly, r: real, x: real)
    requires c != []
    ensures Eval(c, x) == Eval(c, r) + Mul(x - r, Eval(Quotient(c, r), x))
  {
    hide Mul;
    var d := c[1..];
    if |c| > 1 {
      EvalQuotient(d, r, x);
      var t := Quotient(d, r);
      EvalPlus(d, Scaled(r, t + [0.0]), x);
      EvalScaled(r, t + [0.0], x);
      EvalPadded(t, 1, x);
      assert t + seq(1, _ => 0.0) == t + [0.0];
      QuotientStep(x, r, Eval(d, x), Eval(d, r), Eval(t, x));
    }
  }

  lemma QuotientStep(x: real, r: real, dx: real, dr: real, t: real)
    requires dx == dr + Mul(x - r, t)
    ensures Mul(x, dx) == Mul(r, dr) + Mul(x - r, dx + Mul(r, t))
  {
    hide Mul;
    var k := x - r;
    MulLaws(dx, r, k);
    MulLaws(x, dx, 0.0);
    MulLaws(r, dx, 0.0);
    MulLaws(k, dx, 0.0);
    MulLaws(r, dr, Mul(k, t));
    MulLaws(k, dx, Mul(r, t));
    MulLaws(k, r, t);
    MulLaws(r, k, t);
    MulLaws(k, r, 0.0);
  }

  /** A polynomial with as many distinct roots as coefficients is zero everywhere. */
  lemma {:induction false} TooManyRoots(c: Poly, roots: seq<real>, x: real)
    requires |roots| == |c|
    requires forall i :: 0 <= i < |roots| ==> Eval(c, roots[i]) == 0.0
    requires forall i, j :: 0 <= i < j < |roots| ==> roots[i] != roots[j]
    ensures Eval(c, x) == 0.0
    decreases |c|
  {
    hide Mul, Eval, Quotient;
    if c == [] {
      EvalEmpty(x);
    } else {
      var r, q, rest := roots[0], Quotient(c, roots[0]), roots[1..];
      forall i | 0 <= i < |rest|
        ensures Eval(q, rest[i]) == 0.0
      {
        EvalQuotient(c, r, rest[i]);
        assert Eval(c, roots[i + 1]) == 0.0;
        if Eval(q, rest[i]) != 0.0 {
          MulNonzero(rest[i] - r, Eval(q, rest[i]));
        }
      }
      TooManyRoots(q, rest, x);
      EvalQuotient(c, r, x);
    }
  }

  lemma EvalEmpty(x: real)
    ensures Eval([], x) == 0.0
  {
  }

  /** Multiplying by the linear factor a + b x raises the length by one. */
  lemma {:induction false} TimesLinear(c: Poly, a: real, b: real) returns (e: Poly)
    ensures |e| == |c| + 1
    ensures forall x :: Eval(e, x) == Mul(Eval(c, x), a + Mul(b, x))
  {
    hide Mul;
    if c == [] {
      e := [0.0];
      forall x
        ensures Eval(e, x) == Mul(Eval(c, x), a + Mul(b, x))
      {
        assert e[1..] == [];
      }
    } else {
      var d := TimesLinear(c[1..], a, b);
      e := [Mul(a, c[0])] + d[0 := d[0] + Mul(b, c[0])];
      forall x
        ensures Eval(e, x) == Mul(Eval(c, x), a + Mul(b, x))
      {
        assert e[1..] == d[0 := d[0] + Mul(b, c[0])] && e[1..][1..] == d[1..];
        LinearStep(x, a, b, c[0], Eval(c[1..], x), Eval(d, x));
      }
    }
  }

  lemma LinearStep(x: real, a: real, b: real, c0: real, t: real, d: real)
    requires d == Mul(t, a + Mul(b, x))
    ensures Mul(a, c0) + Mul(x, d + Mul(b, c0)) == Mul(c0 + Mul(x, t), a + Mul(b, x))
  {
    hide Mul;
    var l := a + Mul(b, x);
    MulLaws(x, d, Mul(b, c0));
    MulLaws(l, c0, Mul(x, t));
    MulLaws(c0 + Mul(x, t), l, 0.0);
    MulLaws(x, t, l);
    MulLaws(l, Mul(x, t), 0.0);
    MulLaws(c0, a, Mul(b, x));
    MulLaws(l, c0, 0.0);
    MulLaws(a, c0, 0.0);
    MulLaws(Mul(b, x), c0, 0.0);
    MulLaws(x, b, c0);
    MulLaws(b, x, 0.0);
  }

  // ---- knots

  ghost predicate Increasing(xs: seq<real>)
  {
    forall i, j :: 0 <= i < j < |xs| ==> xs[i] < xs[j]
  }

  // ---- derivatives

  function Derivative(c: Poly): (d: Poly)
    ensures |d| == if c == [] then 0 else |c| - 1
  {
    if |c| <= 1 then [] else Plus(c[1..], [0.0] + Derivative(c[1..]))
  }

  lemma EvalDerivative(c: Poly, x: real)
    requires c != []
    ensures Eval(Derivative(c), x) == Eval(c[1..], x) + Mul(x, Eval(Derivative(c[1..]), x))
  {
    hide Mul;
    if |c| > 1 {
      var d := [0.0] + Derivative(c[1..]);
      EvalPlus(c[1..], d, x);
      assert d[1..] == Derivative(c[1..]);
    } else {
      EvalEmpty(x);
    }
  }

  /** The formal derivative is the derivative: what is left of the increment is quadratic in the step. */
  lemma {:induction false} Taylor(c: Poly, x: real) returns (e: Poly)
    ensures forall h :: Eval(c, x + h) == Eval(c, x) + Mul(h, Eval(Derivative(c), x) + Mul(h, Eval(e, h)))
    decreases |c|
  {
    hide Mul, Derivative;
    if c == [] {
      e := [];
      assert Derivative([]) == [];
    } else {
      var e' := Taylor(c[1..], x);
      var f := TimesLinear(e', x, 1.0);
      var s := Eval(Derivative(c[1..]), x);
      e := f[0 := f[0] + s];
      EvalDerivative(c, x);
      forall h
        ensures Eval(c, x + h) == Eval(c, x) + Mul(h, Eval(Derivative(c), x) + Mul(h, Eval(e, h)))
      {
        assert e[1..] == f[1..];
        TaylorStep(x, h, Eval(c[1..], x), s, Eval(e', h), Eval(c[1..], x + h));
      }
    }
  }

  lemma TaylorStep(x: real, h: real, v: real, s: real, r: real, w: real)
    requires w == v + Mul(h, s + Mul(h, r))
    ensures Mul(x + h, w) == Mul(x, v) + Mul(h, v + Mul(x, s) + Mul(h, s + Mul(r, x + Mul(1.0, h))))
  {
    hide Mul;
    var u, y := s + Mul(h, r), x + h;
    MulLaws(y, v, Mul(h, u));
    MulLaws(v, x, h);
    MulLaws(v, y, 0.0);
    MulLaws(v, x, 0.0);
    MulLaws(v, h, 0.0);
    Moved(y, h, u);
    var z := Mul(r, y);
    Gathered(x, h, s, r);
    MulLaws(h, v + Mul(x, s), Mul(h, s + z));
    MulLaws(h, v, Mul(x, s));
    MulLaws(h, Mul(x, s) + Mul(h, s + z), 0.0);
    MulLaws(h, Mul(x, s), Mul(h, s + z));
  }

  lemma Moved(a: real, b: real, c: real)
    ensures Mul(a, Mul(b, c)) == Mul(b, Mul(a, c))
  {
    hide Mul;
    MulLaws(a, b, c);
    MulLaws(b, a, c);
  }

  lemma Gathered(x: real, h: real, s: real, r: real)
    ensures Mul(x + h, s + Mul(h, r)) == Mul(x, s) + Mul(h, s + Mul(r, x + h))
  {
    hide Mul;
    MulLaws(x + h, s, Mul(h, r));
    MulLaws(s, x, h);
    MulLaws(s, x + h, 0.0);
    MulLaws(s, x, 0.0);
    MulLaws(s, h, 0.0);
    Moved(x + h, h, r);
    MulLaws(x + h, r, 0.0);
    MulLaws(h, s, Mul(r, x + h));
  }

  ghost predicate Remainder(c: Poly, x: real, v: real, m: real, e: Poly)
  {
    forall h :: Eval(c, x + h) == v + Mul(h, m + Mul(h, Eval(e, h)))
  }

  /** The graph of c goes through v at x with slope m: it leaves the line by a multiple of the squared step. */
  ghost predicate Tangent(c: Poly, x: real, v: real, m: real)
  {
    exists e :: Remainder(c, x, v, m, e)
  }

  lemma DerivativeTangent(c: Poly, x: real)
    ensures Tangent(c, x, Eval(c, x), Eval(Derivative(c), x))
  {
    hide Mul, Derivative, Eval;
    var e := Taylor(c, x);
    assert Remainder(c, x, Eval(c, x), Eval(Derivative(c), x), e);
  }

  /** No other slope fits. */
  lemma TangentUnique(c: Poly, x: real, v: real, m: real, v': real, m': real)
    requires Tangent(c, x, v, m) && Tangent(c, x, v', m')
    ensures v == v' && m == m'
  {
    hide Mul, Eval;
    var e :| Remainder(c, x, v, m, e);
    var e' :| Remainder(c, x, v', m', e');
    var z := 0.0;
    assert Eval(c, x + z) == v + Mul(z, m + Mul(z, Eval(e, z)));
    assert Eval(c, x + z) == v' + Mul(z, m' + Mul(z, Eval(e', z)));
    var n := if |e| < |e'| then |e'| else |e|;
    var a, b := [m] + Padded(e, n), [m'] + Padded(e', n);
    var d := Plus(a, Scaled(-1.0, b));
    forall h | h != 0.0
      ensures Eval(d, h) == 0.0
    {
      assert Eval(c, x + h) == v + Mul(h, m + Mul(h, Eval(e, h)));
      assert Eval(c, x + h) == v' + Mul(h, m' + Mul(h, Eval(e', h)));
      LineEval(m, e, n, h);
      LineEval(m', e', n, h);
      EvalScaled(-1.0, b, h);
      EvalPlus(a, Scaled(-1.0, b), h);
      MulLaws(h, Eval(a, h), Eval(b, h));
      MulLaws(-1.0, Eval(b, h), 0.0);
      MulLaws(Eval(b, h), -1.0, 0.0);
      MulLaws(Eval(b, h), 1.0, 0.0);
      if Eval(a, h) != Eval(b, h) {
        MulNonzero(h, Eval(a, h) - Eval(b, h));
      }
    }
    TooManyRoots(d, seq(|d|, i => (i + 1) as real), 0.0);
    LineEval(m, e, n, 0.0);
    LineEval(m', e', n, 0.0);
    EvalScaled(-1.0, b, 0.0);
    EvalPlus(a, Scaled(-1.0, b), 0.0);
    MulLaws(Eval(b, 0.0), 1.0, 0.0);
    MulLaws(-1.0, Eval(b, 0.0), 0.0);
  }

  function Padded(e: Poly, n: nat): (r: Poly)
    requires |e| <= n
    ensures |r| == n
  {
    e + seq(n - |e|, _ => 0.0)
  }

  lemma LineEval(m: real, e: Poly, n: nat, h: real)
    requires |e| <= n
    ensures Eval([m] + Padded(e, n), h) == m + Mul(h, Eval(e, h))
  {
    hide Mul;
    EvalPadded(e, n - |e|, h);
    assert ([m] + Padded(e, n))[1..] == Padded(e, n);
  }
}
