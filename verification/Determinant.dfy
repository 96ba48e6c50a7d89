/** The determinant by expansion along the first column, and its behaviour under row operations. */
module Determinant {
  import opened RealSums
  import opened Matrices

  function Sign(i: int): real
  {
    if i % 2 == 0 then 1.0 else -1.0
  }

  /** Index of row a of the minor that leaves out row i. */
  function Skip(i: int, a: int): int
  {
    if a < i then a else a + 1
  }

  /** The matrix without row i and column 0. */
  function Minor(A: Matrix, n: nat, i: int): (r: Matrix)
    requires n > 0
  {
    seq(n - 1, a => seq(n - 1, b => At(A, Skip(i, a), b + 1)))
  }

  function Cofactor(A: Matrix, n: nat, i: int): real
    requires n > 0
    decreases n, 0
  {
    Mul(Sign(i), Det(Minor(A, n, i), n - 1))
  }

  function Det(A: Matrix, n: nat): real
    decreases n, 1
  {
    if n == 0 then 1.0 else Sum(n, i => Mul(At(A, i, 0), Cofactor(A, n, i)))
  }

  /** A and B agree on all rows of the n by n block but row r. */
  ghost predicate SameBut(A: Matrix, B: Matrix, n: nat, r: int)
  {
    forall i, j :: 0 <= i < n && i != r && 0 <= j < n ==> At(A, i, j) == At(B, i, j)
  }

  ghost predicate SameEntries(A: Matrix, B: Matrix, n: nat)
  {
    forall i, j :: 0 <= i < n && 0 <= j < n ==> At(A, i, j) == At(B, i, j)
  }

  lemma MinorAt(A: Matrix, n: nat, i: int)
    requires n > 0
    ensures Shape(Minor(A, n, i), n - 1, n - 1)
    ensures forall a, b :: 0 <= a < n - 1 && 0 <= b < n - 1 ==>
      At(Minor(A, n, i), a, b) == At(A, Skip(i, a), b + 1)
  {
  }

  lemma SameMatrix(M: Matrix, N: Matrix, n: nat)
    requires Shape(M, n, n) && Shape(N, n, n) && SameEntries(M, N, n)
    ensures M == N
  {
    forall a | 0 <= a < n
      ensures M[a] == N[a]
    {
      forall b | 0 <= b < n
        ensures M[a][b] == N[a][b]
      {
        assert At(M, a, b) == At(N, a, b);
      }
    }
  }

  /** Leaving out row r forgets what that row was. */
  lemma MinorForgets(A: Matrix, B: Matrix, n: nat, r: int)
    requires n > 0 && SameBut(A, B, n, r)
    ensures Minor(A, n, r) == Minor(B, n, r)
  {
    hide At;
    MinorAt(A, n, r);
    MinorAt(B, n, r);
    SameMatrix(Minor(A, n, r), Minor(B, n, r), n - 1);
  }

  /** Only the n by n block matters. */
  lemma DetEntries(A: Matrix, B: Matrix, n: nat)
    requires SameEntries(A, B, n)
    ensures Det(A, n) == Det(B, n)
  {
    hide Mul, At;
    if n > 0 {
      forall i | 0 <= i < n
        ensures Mul(At(A, i, 0), Cofactor(A, n, i)) == Mul(At(B, i, 0), Cofactor(B, n, i))
      {
        MinorForgets(A, B, n, i);
      }
      SumEq(n, i => Mul(At(A, i, 0), Cofactor(A, n, i)), i => Mul(At(B, i, 0), Cofactor(B, n, i)));
    }
  }

  // ---- exchanging two rows

  /** Two sums that differ by exchanging neighbouring terms. */
  lemma {:induction false} SumExchange(n: nat, f: int -> real, g: int -> real, r: int)
    requires 0 <= r < n - 1
    requires forall i :: 0 <= i < n && i != r && i != r + 1 ==> f(i) == g(i)
    requires f(r) == g(r + 1) && f(r + 1) == g(r)
    ensures Sum(n, f) == Sum(n, g)
  {
    if n == r + 2 {
      SumEq(r, f, g);
    } else {
      SumExchange(n - 1, f, g, r);
    }
  }

  /** A and B differ by exchanging rows r and r+1. */
  ghost predicate Exchange(A: Matrix, B: Matrix, n: nat, r: int)
  {
    && (forall i, j :: 0 <= i < n && i != r && i != r + 1 && 0 <= j < n ==> At(A, i, j) == At(B, i, j))
    && (forall j :: 0 <= j < n ==> At(A, r, j) == At(B, r + 1, j) && At(A, r + 1, j) == At(B, r, j))
  }

  lemma ExchangeMinor(A: Matrix, B: Matrix, n: nat, r: int, i: int)
    requires 0 <= r < n - 1 && 0 <= i < n && Exchange(A, B, n, r)
    ensures i < r ==> Exchange(Minor(A, n, i), Minor(B, n, i), n - 1, r - 1)
    ensures i > r + 1 ==> Exchange(Minor(A, n, i), Minor(B, n, i), n - 1, r)
    ensures i == r ==> Minor(A, n, i) == Minor(B, n, i + 1)
    ensures i == r + 1 ==> Minor(A, n, i) == Minor(B, n, i - 1)
  {
    hide At;
    MinorAt(A, n, i);
    MinorAt(B, n, i);
    if i == r {
      MinorAt(B, n, i + 1);
      SameMatrix(Minor(A, n, i), Minor(B, n, i + 1), n - 1);
    } else if i == r + 1 {
      MinorAt(B, n, i - 1);
      SameMatrix(Minor(A, n, i), Minor(B, n, i - 1), n - 1);
    }
  }

  function Partner(r: int, i: int): int
  {
    if i == r then r + 1 else if i == r + 1 then r else i
  }

  /** Exchanging neighbouring rows changes the sign. */
  lemma {:induction false} DetExchange(A: Matrix, B: Matrix, n: nat, r: int)
    requires 0 <= r < n - 1 && Exchange(A, B, n, r)
    ensures Det(A, n) == -Det(B, n)
    decreases n
  {
    hide Mul, At, Minor, Cofactor;
    var f, g := i => Mul(At(A, i, 0), Cofactor(A, n, i)), i => Mul(At(B, i, 0), Cofactor(B, n, i));
    forall i | 0 <= i < n
      ensures f(i) == -g(Partner(r, i))
    {
      ExchangeCofactor(A, B, n, r, i);
      MulLaws(At(A, i, 0), Cofactor(B, n, Partner(r, i)), 0.0);
    }
    SumNegate(n, g);
    SumExchange(n, f, i => -g(i), r);
  }

  lemma PartnerSign(r: int, i: int)
    ensures i < r || i > r + 1 ==> Partner(r, i) == i
    ensures i == r ==> Partner(r, i) == i + 1 && Sign(i) == -Sign(i + 1)
    ensures i == r + 1 ==> Partner(r, i) == i - 1 && Sign(i) == -Sign(i - 1)
  {
  }

  lemma ExchangeCofactor(A: Matrix, B: Matrix, n: nat, r: int, i: int)
    requires 0 <= r < n - 1 && 0 <= i < n && Exchange(A, B, n, r)
    ensures Cofactor(A, n, i) == -Cofactor(B, n, Partner(r, i))
    decreases n, 0
  {
    hide Mul, Minor, Exchange, Det, Sign, Partner;
    PartnerSign(r, i);
    ExchangeMinor(A, B, n, r, i);
    if i < r {
      DetExchange(Minor(A, n, i), Minor(B, n, i), n - 1, r - 1);
      MulLaws(Sign(i), Det(Minor(B, n, i), n - 1), 0.0);
    } else if i > r + 1 {
      DetExchange(Minor(A, n, i), Minor(B, n, i), n - 1, r);
      MulLaws(Sign(i), Det(Minor(B, n, i), n - 1), 0.0);
    } else {
      var d := Det(Minor(A, n, i), n - 1);
      MulLaws(d, Sign(Partner(r, i)), 0.0);
      MulLaws(Sign(i), d, 0.0);
      MulLaws(Sign(Partner(r, i)), d, 0.0);
    }
  }

  /** Exchanging any two rows changes the sign. */
  lemma {:induction false} DetSwap(A: Matrix, n: nat, p: int, q: int)
    requires |A| == n && 0 <= p < q < n
    ensures Det(Swap(A, p, q), n) == -Det(A, n)
    decreases q - p
  {
    hide Det;
    var B := Swap(A, p, p + 1);
    DetExchange(B, A, n, p);
    if q > p + 1 {
      var C := Swap(B, p + 1, q);
      DetSwap(B, n, p + 1, q);
      DetExchange(Swap(C, p, p + 1), C, n, p);
      assert Swap(C, p, p + 1) == Swap(A, p, q);
    }
  }

  lemma DetEqualRows(A: Matrix, n: nat, p: int, q: int)
    requires |A| == n && 0 <= p < q < n && A[p] == A[q]
    ensures Det(A, n) == 0.0
  {
    hide Det;
    DetSwap(A, n, p, q);
    assert Swap(A, p, q) == A;
  }

  // ---- linearity in one row

  /** Row r of C is row r of A plus c times row r of B; the other rows are the same in all three. */
  ghost predicate RowCombination(C: Matrix, A: Matrix, c: real, B: Matrix, n: nat, r: int)
  {
    && SameBut(A, B, n, r) && SameBut(A, C, n, r)
    && forall j :: 0 <= j < n ==> At(C, r, j) == At(A, r, j) + Mul(c, At(B, r, j))
  }

  lemma CombinationMinor(C: Matrix, A: Matrix, c: real, B: Matrix, n: nat, r: int, i: int)
    requires 0 <= r < n && 0 <= i < n && RowCombination(C, A, c, B, n, r)
    ensures i == r ==> Minor(A, n, i) == Minor(B, n, i) == Minor(C, n, i)
    ensures i < r ==> RowCombination(Minor(C, n, i), Minor(A, n, i), c, Minor(B, n, i), n - 1, r - 1)
    ensures i > r ==> RowCombination(Minor(C, n, i), Minor(A, n, i), c, Minor(B, n, i), n - 1, r)
  {
    hide At, Mul;
    MinorAt(A, n, i);
    MinorAt(B, n, i);
    MinorAt(C, n, i);
    if i == r {
      MinorForgets(A, B, n, r);
      MinorForgets(A, C, n, r);
    }
  }

  lemma {:induction false} DetLinear(C: Matrix, A: Matrix, c: real, B: Matrix, n: nat, r: int)
    requires 0 <= r < n && RowCombination(C, A, c, B, n, r)
    ensures Det(C, n) == Det(A, n) + Mul(c, Det(B, n))
    decreases n
  {
    hide Mul, At, Minor, Cofactor;
    var f := i => Mul(At(A, i, 0), Cofactor(A, n, i));
    var g := i => Mul(At(B, i, 0), Cofactor(B, n, i));
    var h := i => Mul(At(C, i, 0), Cofactor(C, n, i));
    forall i | 0 <= i < n
      ensures h(i) == f(i) + Mul(c, g(i))
    {
      LinearTerm(C, A, c, B, n, r, i);
    }
    SumScale(n, c, g);
    SumAdd(n, f, i => Mul(c, g(i)));
    SumEq(n, h, i => f(i) + (i => Mul(c, g(i)))(i));
  }

  lemma LinearTerm(C: Matrix, A: Matrix, c: real, B: Matrix, n: nat, r: int, i: int)
    requires 0 <= r < n && 0 <= i < n && RowCombination(C, A, c, B, n, r)
    ensures Mul(At(C, i, 0), Cofactor(C, n, i))
         == Mul(At(A, i, 0), Cofactor(A, n, i)) + Mul(c, Mul(At(B, i, 0), Cofactor(B, n, i)))
    decreases n, 0
  {
    hide Mul, Minor, At, Det, Sign;
    CombinationMinor(C, A, c, B, n, r, i);
    if i == r {
      var k, a, b := Cofactor(A, n, i), At(A, i, 0), At(B, i, 0);
      MulLaws(a + Mul(c, b), k, 0.0);
      MulLaws(k, a, Mul(c, b));
      MulLaws(a, k, 0.0);
      MulLaws(Mul(c, b), k, 0.0);
      MulLaws(c, b, k);
    } else {
      DetLinear(Minor(C, n, i), Minor(A, n, i), c, Minor(B, n, i), n - 1, if i < r then r - 1 else r);
      LinearFactor(Sign(i), At(A, i, 0), Det(Minor(A, n, i), n - 1), c, Det(Minor(B, n, i), n - 1));
    }
  }

  lemma LinearFactor(s: real, a: real, x: real, c: real, y: real)
    ensures Mul(a, Mul(s, x + Mul(c, y))) == Mul(a, Mul(s, x)) + Mul(c, Mul(a, Mul(s, y)))
  {
    hide Mul;
    MulLaws(s, x, Mul(c, y));
    MulLaws(a, Mul(s, x), Mul(s, Mul(c, y)));
    MulLaws(s, c, y);
    MulLaws(c, s, y);
    MulLaws(a, c, Mul(s, y));
    MulLaws(c, a, Mul(s, y));
  }

  /** Adding a multiple of one row to another leaves the determinant alone. */
  lemma DetAddRow(C: Matrix, A: Matrix, c: real, n: nat, r: int, s: int)
    requires |A| == n && 0 <= r < n && 0 <= s < n && r != s
    requires SameBut(A, C, n, r)
    requires forall j :: 0 <= j < n ==> At(C, r, j) == At(A, r, j) + Mul(c, At(A, s, j))
    ensures Det(C, n) == Det(A, n)
  {
    hide Mul, Det;
    var B := A[r := A[s]];
    DetEqualRows(B, n, if r < s then r else s, if r < s then s else r);
    DetLinear(C, A, c, B, n, r);
  }

  // ---- triangular matrices

  function Diagonal(A: Matrix, k: nat): real
  {
    if k == 0 then 1.0 else Mul(Diagonal(A, k - 1), At(A, k - 1, k - 1))
  }

  ghost predicate Triangular(A: Matrix, n: nat)
  {
    forall i, j :: 0 <= j < i < n ==> At(A, i, j) == 0.0
  }

  lemma {:induction false} DiagonalShift(A: Matrix, n: nat, k: nat)
    requires k < n
    ensures Diagonal(A, k + 1) == Mul(At(A, 0, 0), Diagonal(Minor(A, n, 0), k))
  {
    hide Mul, At;
    if k > 0 {
      DiagonalShift(A, n, k - 1);
      MinorAt(A, n, 0);
      MulLaws(At(A, 0, 0), Diagonal(Minor(A, n, 0), k - 1), At(A, k, k));
    }
  }

  lemma {:induction false} DetTriangular(A: Matrix, n: nat)
    requires Triangular(A, n)
    ensures Det(A, n) == Diagonal(A, n)
    decreases n
  {
    hide Mul, At;
    if n > 0 {
      MinorAt(A, n, 0);
      DetTriangular(Minor(A, n, 0), n - 1);
      DiagonalShift(A, n, n - 1);
      SumSingle(n, 0, i => Mul(At(A, i, 0), Cofactor(A, n, i)));
    }
  }

  // ---- vanishing determinants

  lemma DetZeroRow(A: Matrix, n: nat, r: int)
    requires 0 <= r < n && forall j :: 0 <= j < n ==> At(A, r, j) == 0.0
    ensures Det(A, n) == 0.0
  {
    hide Mul, Det;
    DetLinear(A, A, 1.0, A, n, r);
  }

  /** Triangular in its first k columns, with nothing at or below the diagonal in column k. */
  ghost predicate Stalled(A: Matrix, n: nat, k: nat)
  {
    && k < n
    && (forall i, j :: 0 <= j < i < n && j < k ==> At(A, i, j) == 0.0)
    && forall i :: k <= i < n ==> At(A, i, k) == 0.0
  }

  lemma {:induction false} DetStalled(A: Matrix, n: nat, k: nat)
    requires Stalled(A, n, k)
    ensures Det(A, n) == 0.0
    decreases n
  {
    hide Mul, At;
    SumSingle(n, 0, i => Mul(At(A, i, 0), Cofactor(A, n, i)));
    if k > 0 {
      MinorAt(A, n, 0);
      assert Stalled(Minor(A, n, 0), n - 1, k - 1);
      DetStalled(Minor(A, n, 0), n - 1, k - 1);
      MulLaws(Sign(0), 0.0, 0.0);
    }
  }

  lemma {:induction false} DiagonalZero(A: Matrix, k: nat)
    ensures Diagonal(A, k) == 0.0 <==> exists i :: 0 <= i < k && At(A, i, i) == 0.0
  {
    hide Mul;
    if k > 0 {
      DiagonalZero(A, k - 1);
      var d, e := Diagonal(A, k - 1), At(A, k - 1, k - 1);
      if d != 0.0 && e != 0.0 {
        MulNonzero(d, e);
      }
    }
  }
}
