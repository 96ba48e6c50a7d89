/** Finite sums of reals, with the few laws the matrix proofs need. */
module RealSums {

  /** Products and quotients behind names: proofs hide the bodies and use the laws below. */
  function Mul(x: real, y: real): (p: real)
    ensures x == 0.0 || y == 0.0 ==> p == 0.0
    ensures x == 1.0 ==> p == y
    ensures y == 1.0 ==> p == x
    ensures x > 0.0 && y > 0.0 ==> p > 0.0
    ensures x < 0.0 && y < 0.0 ==> p > 0.0
  {
    x * y
  }

  function Div(x: real, y: real): (q: real)
    requires y != 0.0
    ensures Mul(q, y) == x
  {
    x / y
  }

  function Sq(x: real): (s: real)
    ensures s >= 0.0
    ensures s == 0.0 <==> x == 0.0
  {
    Mul(x, x)
  }

  /** Division as the machine does it: dividing by zero yields some value, but not a quotient. */
  method MachineDiv(x: real, y: real) returns (q: real)
    ensures y != 0.0 ==> q == Div(x, y)
  {
    if y != 0.0 {
      q := Div(x, y);
    } else {
      q := *;
    }
  }

  lemma MulLaws(x: real, y: real, z: real)
    ensures Mul(x, y) == Mul(y, x)
    ensures Mul(Mul(x, y), z) == Mul(x, Mul(y, z))
    ensures Mul(x, y + z) == Mul(x, y) + Mul(x, z)
    ensures Mul(x, y - z) == Mul(x, y) - Mul(x, z)
    ensures Mul(x, -y) == -Mul(x, y)
  {
  }

  lemma MulNonzero(x: real, y: real)
    requires x != 0.0 && y != 0.0
    ensures Mul(x, y) != 0.0
  {
    MulLaws(x, y, 0.0);
    if x < 0.0 && y > 0.0 {
      assert Mul(-x, y) > 0.0;
    } else if x > 0.0 && y < 0.0 {
      assert Mul(x, -y) > 0.0;
    }
  }

  function Sum(n: nat, f: int -> real): real
  {
    if n == 0 then 0.0 else Sum(n - 1, f) + f(n - 1)
  }

  lemma {:induction false} SumEq(n: nat, f: int -> real, g: int -> real)
    requires forall i :: 0 <= i < n ==> f(i) == g(i)
    ensures Sum(n, f) == Sum(n, g)
  {
    if n > 0 {
      SumEq(n - 1, f, g);
    }
  }

  lemma {:induction false} SumZero(n: nat, f: int -> real)
    requires forall i :: 0 <= i < n ==> f(i) == 0.0
    ensures Sum(n, f) == 0.0
  {
    if n > 0 {
      SumZero(n - 1, f);
    }
  }

  /** Terms from m on are zero, so the sum may stop at m. */
  lemma {:induction false} SumTruncate(m: nat, n: nat, f: int -> real)
    requires m <= n
    requires forall i :: m <= i < n ==> f(i) == 0.0
    ensures Sum(n, f) == Sum(m, f)
  {
    if m < n {
      SumTruncate(m, n - 1, f);
    }
  }

  /** Only the term at p can be nonzero. */
  lemma {:induction false} SumSingle(n: nat, p: int, f: int -> real)
    requires 0 <= p < n
    requires forall i :: 0 <= i < n && i != p ==> f(i) == 0.0
    ensures Sum(n, f) == f(p)
  {
    SumTruncate(p + 1, n, f);
    SumZero(p, f);
  }

  lemma {:induction false} SumAdd(n: nat, f: int -> real, g: int -> real)
    ensures Sum(n, i => f(i) + g(i)) == Sum(n, f) + Sum(n, g)
  {
    if n > 0 {
      SumAdd(n - 1, f, g);
    }
  }

  lemma {:induction false} SumScale(n: nat, c: real, f: int -> real)
    ensures Sum(n, i => Mul(c, f(i))) == Mul(c, Sum(n, f))
  {
    if n > 0 {
      SumScale(n - 1, c, f);
      MulLaws(c, Sum(n - 1, f), f(n - 1));
    }
  }

  lemma {:induction false} SumNegate(n: nat, f: int -> real)
    ensures Sum(n, i => -f(i)) == -Sum(n, f)
  {
    if n > 0 {
      SumNegate(n - 1, f);
    }
  }

  /** Row sums of a table add up to the same total as its column sums. */
  lemma {:induction false} SumSwap(m: nat, n: nat, f: (int, int) -> real)
    ensures Sum(m, i => Sum(n, j => f(i, j))) == Sum(n, j => Sum(m, i => f(i, j)))
  {
    if m == 0 {
      SumZero(n, j => Sum(m, i => f(i, j)));
    } else {
      SumSwap(m - 1, n, f);
      SumAdd(n, j => Sum(m - 1, i => f(i, j)), j => f(m - 1, j));
      SumEq(n, j => Sum(m, i => f(i, j)), j => (j => Sum(m - 1, i => f(i, j)))(j) + (j => f(m - 1, j))(j));
    }
  }

  lemma {:induction false} SumNonneg(n: nat, f: int -> real)
    requires forall i :: 0 <= i < n ==> f(i) >= 0.0
    ensures Sum(n, f) >= 0.0
  {
    if n > 0 {
      SumNonneg(n - 1, f);
    }
  }

  /** A sum of squares that is zero has only zero terms. */
  lemma {:induction false} SquaresZero(n: nat, f: int -> real)
    requires Sum(n, i => Sq(f(i))) == 0.0
    ensures forall i :: 0 <= i < n ==> f(i) == 0.0
  {
    if n > 0 {
      var sq := i => Sq(f(i));
      assert forall i :: sq(i) == Sq(f(i));
      SumNonneg(n - 1, sq);
      SquaresZero(n - 1, f);
    }
  }
}
