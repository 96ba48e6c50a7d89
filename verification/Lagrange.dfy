/** Lagrange interpolation over a window of knots next to the query point. */
module Lagrange {
  import opened RealSums
  import opened Polynomials

  ghost predicate Distinct(xs: seq<real>)
  {
    forall i, j :: 0 <= i < j < |xs| ==> xs[i] != xs[j]
  }

  // ---- the window

  /** The number of knots used: at least two, at most all. */
  function Order(OD: int, N: nat): (r: nat)
    ensures r <= N
  {
    var o := if OD < 2 then 2 else OD;
    if o > N then N else o
  }

  /** First knot above x, from j on. */
  function Above(xs: seq<real>, x: real, j: nat): (r: nat)
    requires j <= |xs|
    ensures j <= r <= |xs|
    ensures forall t :: j <= t < r ==> xs[t] <= x
    ensures r < |xs| ==> xs[r] > x
    decreases |xs| - j
  {
    if j == |xs| || xs[j] > x then j else Above(xs, x, j + 1)
  }

  /** First knot of the window: half the order below x, moved inside. */
  function Start(xs: seq<real>, OD: int, x: real): (r: nat)
    ensures r + Order(OD, |xs|) <= |xs|
  {
    var od := Order(OD, |xs|);
    var s := Above(xs, x, 0) - od / 2;
    if s < 0 then 0 else if s + od - 1 >= |xs| then |xs| - od else s
  }

  // ---- which knots lie around x

  /** How many of the knots from lo up to hi-1 are not above x. */
  function NotAbove(xs: seq<real>, x: real, lo: int, hi: int): (r: nat)
    requires 0 <= lo <= hi <= |xs|
    ensures r <= hi - lo
    decreases hi - lo
  {
    if lo == hi then 0 else NotAbove(xs, x, lo, hi - 1) + if xs[hi - 1] <= x then 1 else 0
  }

  /** A window of od knots from lo on lies around x: half of them, rounded down, are not above x, if there are that
      many on either side among all knots; otherwise it lies at the end that is short. */
  ghost predicate Centred(xs: seq<real>, od: nat, x: real, lo: int)
  {
    && 0 <= lo && lo + od <= |xs|
    && var below := NotAbove(xs, x, 0, |xs|);
    if below < od / 2 then lo == 0
    else if |xs| - below < od - od / 2 then lo == |xs| - od
    else NotAbove(xs, x, lo, lo + od) == od / 2
  }

  lemma {:induction false} NotAboveSplit(xs: seq<real>, x: real, j: int, lo: int, hi: int)
    requires 0 <= lo <= hi <= |xs| && 0 <= j <= |xs|
    requires (forall t :: 0 <= t < j ==> xs[t] <= x) && forall t :: j <= t < |xs| ==> xs[t] > x
    ensures NotAbove(xs, x, lo, hi) == if j <= lo then 0 else if j >= hi then hi - lo else j - lo
    decreases hi - lo
  {
    if lo < hi {
      NotAboveSplit(xs, x, j, lo, hi - 1);
    }
  }

  lemma StartCentred(xs: seq<real>, OD: int, x: real)
    requires Increasing(xs)
    ensures Centred(xs, Order(OD, |xs|), x, Start(xs, OD, x))
  {
    var j, lo := Above(xs, x, 0), Start(xs, OD, x);
    forall t | j <= t < |xs|
      ensures xs[t] > x
    {
      if t > j {
        assert xs[j] < xs[t];
      }
    }
    NotAboveSplit(xs, x, j, 0, |xs|);
    NotAboveSplit(xs, x, j, lo, lo + Order(OD, |xs|));
  }

  /** There is one such window only. */
  lemma CentredUnique(xs: seq<real>, od: nat, x: real, lo: int, lo': int)
    requires Increasing(xs) && od >= 2 && Centred(xs, od, x, lo) && Centred(xs, od, x, lo')
    ensures lo == lo'
  {
    var j := Above(xs, x, 0);
    forall t | j <= t < |xs|
      ensures xs[t] > x
    {
      if t > j {
        assert xs[j] < xs[t];
      }
    }
    NotAboveSplit(xs, x, j, 0, |xs|);
    NotAboveSplit(xs, x, j, lo, lo + od);
    NotAboveSplit(xs, x, j, lo', lo' + od);
  }

  /** The order asked for is used if there are that many knots, at least two; otherwise the nearest that is possible. */
  lemma OrderUsed(OD: int, N: nat)
    ensures 2 <= OD <= N ==> Order(OD, N) == OD
    ensures OD < 2 <= N ==> Order(OD, N) == 2
    ensures OD > N || N < 2 ==> Order(OD, N) == N
  {
  }

  // ---- the interpolant

  /** The product of (x - xs[j]) / (xs[i] - xs[j]) over lo <= j < hi, j != i, as far as j goes. */
  function Basis(xs: seq<real>, lo: int, hi: int, i: int, x: real): (r: real)
    requires 0 <= lo <= hi <= |xs| && 0 <= i < |xs| && Distinct(xs)
    decreases hi - lo
  {
    if hi == lo then 1.0
    else if hi - 1 == i then Basis(xs, lo, hi - 1, i, x)
    else Div(Mul(Basis(xs, lo, hi - 1, i, x), x - xs[hi - 1]), xs[i] - xs[hi - 1])
  }

  /** Contributions of knots lo up to m-1 to the interpolant through knots lo up to hi-1. */
  function Interpolant(xs: seq<real>, ys: seq<real>, lo: int, hi: int, m: int, x: real): real
    requires 0 <= lo <= m <= hi <= |xs| == |ys| && Distinct(xs)
    decreases m - lo
  {
    if m == lo then 0.0
    else Interpolant(xs, ys, lo, hi, m - 1, x) + Mul(Basis(xs, lo, hi, m - 1, x), ys[m - 1])
  }

  function Interpolated(xs: seq<real>, ys: seq<real>, OD: int, x: real): real
    requires |xs| == |ys| && Distinct(xs)
  {
    var lo := Start(xs, OD, x);
    var hi := lo + Order(OD, |xs|);
    Interpolant(xs, ys, lo, hi, hi, x)
  }

  // ---- at the knots

  lemma {:induction false} BasisAtOther(xs: seq<real>, lo: int, hi: int, i: int, p: int)
    requires 0 <= lo <= p < hi <= |xs| && 0 <= i < |xs| && i != p && Distinct(xs)
    ensures Basis(xs, lo, hi, i, xs[p]) == 0.0
    decreases hi - lo
  {
    hide Mul;
    if p < hi - 1 {
      BasisAtOther(xs, lo, hi - 1, i, p);
    }
    DivZero(xs[i] - xs[hi - 1]);
  }

  lemma DivZero(d: real)
    ensures d != 0.0 ==> Div(0.0, d) == 0.0
  {
  }

  lemma DivOne(a: real, d: real)
    requires d != 0.0
    ensures Div(Mul(a, d), d) == a
  {
    hide Mul, Div;
    var q := Div(Mul(a, d), d);
    MulLaws(d, q, a);
    MulLaws(q, d, 0.0);
    MulLaws(a, d, 0.0);
    if q != a {
      MulNonzero(d, q - a);
    }
  }

  lemma {:induction false} BasisAtOwn(xs: seq<real>, lo: int, hi: int, i: int)
    requires 0 <= lo <= hi <= |xs| && 0 <= i < |xs| && Distinct(xs)
    ensures Basis(xs, lo, hi, i, xs[i]) == 1.0
    decreases hi - lo
  {
    hide Mul, Div;
    if hi > lo {
      BasisAtOwn(xs, lo, hi - 1, i);
      if hi - 1 != i {
        DivOne(1.0, xs[i] - xs[hi - 1]);
      }
    }
  }

  lemma {:induction false} InterpolantAtKnot(xs: seq<real>, ys: seq<real>, lo: int, hi: int, m: int, p: int)
    requires 0 <= lo <= m <= hi <= |xs| == |ys| && Distinct(xs) && lo <= p < hi
    ensures Interpolant(xs, ys, lo, hi, m, xs[p]) == if p < m then ys[p] else 0.0
    decreases m - lo
  {
    hide Mul, Basis;
    if m > lo {
      InterpolantAtKnot(xs, ys, lo, hi, m - 1, p);
      if m - 1 == p {
        BasisAtOwn(xs, lo, hi, p);
      } else {
        BasisAtOther(xs, lo, hi, m - 1, p);
      }
    }
  }

  /** At a knot the window contains that knot, and the interpolant returns its ordinate. */
  lemma ReturnsKnots(xs: seq<real>, ys: seq<real>, OD: int, p: int)
    requires |xs| == |ys| && Increasing(xs) && 0 <= p < |xs|
    ensures Start(xs, OD, xs[p]) <= p < Start(xs, OD, xs[p]) + Order(OD, |xs|)
    ensures Interpolated(xs, ys, OD, xs[p]) == ys[p]
  {
    var j := Above(xs, xs[p], 0);
    assert forall t :: 0 <= t <= p ==> xs[t] <= xs[p];
    assert p + 1 == |xs| || xs[p] < xs[p + 1];
    assert j == p + 1;
    var lo := Start(xs, OD, xs[p]);
    var hi := lo + Order(OD, |xs|);
    InterpolantAtKnot(xs, ys, lo, hi, hi, p);
  }

  // ---- as a polynomial

  lemma {:induction false} BasisPolynomial(xs: seq<real>, lo: int, hi: int, i: int) returns (c: Poly)
    requires 0 <= lo <= hi <= |xs| && 0 <= i < |xs| && Distinct(xs)
    ensures |c| == hi - lo + (if lo <= i < hi then 0 else 1)
    ensures forall x :: Eval(c, x) == Basis(xs, lo, hi, i, x)
    decreases hi - lo
  {
    hide Mul, Div, Eval;
    if hi == lo {
      c := [1.0];
      forall x
        ensures Eval(c, x) == 1.0
      {
        EvalConstant(x);
      }
    } else {
      var d := BasisPolynomial(xs, lo, hi - 1, i);
      if hi - 1 == i {
        c := d;
      } else {
        var w := xs[i] - xs[hi - 1];
        c := TimesLinear(d, Div(-xs[hi - 1], w), Div(1.0, w));
        forall x
          ensures Eval(c, x) == Basis(xs, lo, hi, i, x)
        {
          LinearFactor(Eval(d, x), x, xs[hi - 1], w);
        }
      }
    }
  }

  lemma EvalConstant(x: real)
    ensures Eval([1.0], x) == 1.0
  {
    assert [1.0][1..] == [];
  }

  lemma LinearFactor(b: real, x: real, k: real, w: real)
    requires w != 0.0
    ensures Div(Mul(b, x - k), w) == Mul(b, Div(-k, w) + Mul(Div(1.0, w), x))
  {
    hide Mul, Div;
    var u := Div(1.0, w);
    InverseTimes(Mul(b, x - k), w);
    InverseTimes(-k, w);
    MulLaws(u, x, k);
    MulLaws(u, k, 0.0);
    MulLaws(b, x - k, u);
    MulLaws(x - k, u, 0.0);
  }

  lemma InverseTimes(a: real, w: real)
    requires w != 0.0
    ensures Div(a, w) == Mul(a, Div(1.0, w)) == Mul(Div(1.0, w), a)
  {
  }

  lemma {:induction false} InterpolantPolynomial(xs: seq<real>, ys: seq<real>, lo: int, hi: int, m: int)
    returns (c: Poly)
    requires 0 <= lo <= m <= hi <= |xs| == |ys| && Distinct(xs)
    ensures |c| == hi - lo
    ensures forall x :: Eval(c, x) == Interpolant(xs, ys, lo, hi, m, x)
    decreases m - lo
  {
    hide Mul, Eval, Basis;
    if m == lo {
      c := [] + seq(hi - lo, _ => 0.0);
      forall x
        ensures Eval(c, x) == 0.0
      {
        EvalPadded([], hi - lo, x);
        EvalEmpty(x);
      }
    } else {
      var d := InterpolantPolynomial(xs, ys, lo, hi, m - 1);
      var b := BasisPolynomial(xs, lo, hi, m - 1);
      c := Plus(d, Scaled(ys[m - 1], b));
      forall x
        ensures Eval(c, x) == Interpolant(xs, ys, lo, hi, m, x)
      {
        EvalPlus(d, Scaled(ys[m - 1], b), x);
        EvalScaled(ys[m - 1], b, x);
        MulLaws(ys[m - 1], Basis(xs, lo, hi, m - 1, x), 0.0);
      }
    }
  }

  ghost function Samples(q: Poly, xs: seq<real>): (ys: seq<real>)
    ensures |ys| == |xs|
  {
    seq(|xs|, i requires 0 <= i < |xs| => Eval(q, xs[i]))
  }

  /** A window of n distinct knots reproduces every polynomial of degree below n. */
  lemma WindowReproduces(xs: seq<real>, q: Poly, lo: int, hi: int, x: real)
    requires 0 <= lo <= hi <= |xs| && Distinct(xs) && |q| <= hi - lo
    ensures Interpolant(xs, Samples(q, xs), lo, hi, hi, x) == Eval(q, x)
  {
    hide Mul, Eval, Interpolant;
    var n, ys := hi - lo, Samples(q, xs);
    var c := InterpolantPolynomial(xs, ys, lo, hi, hi);
    var p := q + seq(n - |q|, _ => 0.0);
    var e := Plus(c, Scaled(-1.0, p));
    forall t
      ensures Eval(e, t) == Interpolant(xs, ys, lo, hi, hi, t) - Eval(q, t)
    {
      EvalPlus(c, Scaled(-1.0, p), t);
      EvalScaled(-1.0, p, t);
      EvalPadded(q, n - |q|, t);
      Negated(Eval(q, t));
    }
    forall i | 0 <= i < n
      ensures Eval(e, xs[lo..hi][i]) == 0.0
    {
      InterpolantAtKnot(xs, ys, lo, hi, hi, lo + i);
    }
    TooManyRoots(e, xs[lo..hi], x);
  }

  lemma Negated(a: real)
    ensures Mul(-1.0, a) == -a
  {
  }

  /** Every polynomial of degree below the order comes out exactly, at every query point. */
  lemma Reproduces(xs: seq<real>, q: Poly, OD: int, x: real)
    requires Distinct(xs) && |q| <= Order(OD, |xs|)
    ensures Interpolated(xs, Samples(q, xs), OD, x) == Eval(q, x)
  {
    hide Interpolant, Start, Order, Samples, Eval, Distinct;
    var lo := Start(xs, OD, x);
    WindowReproduces(xs, q, lo, lo + Order(OD, |xs|), x);
  }

  // ---- the loops

  method BasisProduct(XI: array<real>, SI: int, EI: int, i: int, x: real) returns (t1: real)
    requires 0 <= SI <= i <= EI < XI.Length
    ensures Distinct(XI[..]) ==> t1 == Basis(XI[..], SI, EI + 1, i, x)
  {
    hide Mul, Div;
    ghost var xs := XI[..];
    t1 := 1.0;
    for j := SI to i
      invariant Distinct(xs) ==> t1 == Basis(xs, SI, j, i, x)
    {
      t1 := MachineDiv(Mul(t1, x - XI[j]), XI[i] - XI[j]);
    }
    for j := i + 1 to EI + 1
      invariant Distinct(xs) ==> t1 == Basis(xs, SI, j, i, x)
    {
      t1 := MachineDiv(Mul(t1, x - XI[j]), XI[i] - XI[j]);
    }
  }

  /** The window [SI, EI] of the knots used for x. */
  method Window(XI: array<real>, OD: int, x: real) returns (SI: int, EI: int)
    requires OD == Order(OD, XI.Length)
    ensures 0 <= SI && EI < XI.Length && EI - SI + 1 == OD
    ensures SI == Start(XI[..], OD, x)
    ensures Increasing(XI[..]) ==> Centred(XI[..], OD, x, SI)
  {
    if Increasing(XI[..]) {
      StartCentred(XI[..], OD, x);
    }
    var N := XI.Length;
    var j := 0;
    while j < N
      invariant 0 <= j <= N && Above(XI[..], x, 0) == Above(XI[..], x, j)
    {
      if XI[j] > x {
        break;
      }
      j := j + 1;
    }
    SI := j - OD / 2;
    EI := SI + OD - 1;
    if SI < 0 {
      SI := 0;
      EI := OD - 1;
    }
    if EI >= N {
      EI := N - 1;
      SI := EI - OD + 1;
    }
  }

  method Combine(XI: array<real>, YI: array<real>, SI: int, EI: int, x: real) returns (t0: real)
    requires 0 <= SI <= EI + 1 <= XI.Length == YI.Length
    ensures Distinct(XI[..]) ==> t0 == Interpolant(XI[..], YI[..], SI, EI + 1, EI + 1, x)
  {
    hide Mul, Basis;
    t0 := 0.0;
    for i := SI to EI + 1
      invariant Distinct(XI[..]) ==> t0 == Interpolant(XI[..], YI[..], SI, EI + 1, i, x)
    {
      var t1 := BasisProduct(XI, SI, EI, i, x);
      t0 := t0 + Mul(t1, YI[i]);
    }
  }

  lemma OrderTwice(OD: int, N: nat)
    ensures Order(Order(OD, N), N) == Order(OD, N)
  {
  }

  /** v is the value at x of the interpolant through a window of od knots that lies around x. */
  ghost predicate Around(xs: seq<real>, ys: seq<real>, od: nat, x: real, v: real)
    requires |xs| == |ys| && Distinct(xs)
  {
    exists lo :: Centred(xs, od, x, lo) && v == Interpolant(xs, ys, lo, lo + od, lo + od, x)
  }

  lemma InterpolatedAround(xs: seq<real>, ys: seq<real>, OD: int, x: real)
    requires |xs| == |ys| && Increasing(xs)
    ensures Around(xs, ys, Order(OD, |xs|), x, Interpolated(xs, ys, OD, x))
  {
    hide Centred, Interpolant;
    StartCentred(xs, OD, x);
    var lo := Start(xs, OD, x);
    assert Centred(xs, Order(OD, |xs|), x, lo);
  }

  method Interpolate(XI: array<real>, YI: array<real>, OD0: int, XO: array<real>, YO: array<real>)
    requires XI.Length == YI.Length && XO.Length == YO.Length && YO != XI && YO != YI
    modifies YO
    ensures Distinct(XI[..]) ==> forall k :: 0 <= k < YO.Length ==>
      YO[k] == Interpolated(XI[..], YI[..], OD0, old(XO[k]))
    ensures Increasing(XI[..]) ==> forall k :: 0 <= k < YO.Length ==>
      Around(XI[..], YI[..], Order(OD0, XI.Length), old(XO[k]), YO[k])
  {
    hide Mul, Basis, Interpolant, Centred, Around, Above;
    var OD, N := OD0, XI.Length;
    if OD < 2 {
      OD := 2;
    }
    if OD > N {
      OD := N;
    }
    OrderTwice(OD0, N);
    ghost var xs, ys, xo := XI[..], YI[..], XO[..];
    for k := 0 to XO.Length
      invariant XI[..] == xs && YI[..] == ys
      invariant forall t :: k <= t < XO.Length ==> XO[t] == xo[t]
      invariant Distinct(xs) ==> forall t :: 0 <= t < k ==> YO[t] == Interpolated(xs, ys, OD0, xo[t])
    {
      var x := XO[k];
      var SI, EI := Window(XI, OD, x);
      var t0 := Combine(XI, YI, SI, EI, x);
      YO[k] := t0;
    }
    forall k | 0 <= k < YO.Length && Increasing(xs)
      ensures Around(xs, ys, OD, xo[k], YO[k])
    {
      InterpolatedAround(xs, ys, OD0, xo[k]);
    }
  }
}
