/** Matrices stored row by row in a flat sequence. */
module FlatMatrix {
  import opened Matrices

  function Pos(w: nat, i: int, j: int): int
  {
    i * w + j
  }

  function Rows(s: seq<real>, h: nat, w: nat): (M: Matrix)
    ensures Shape(M, h, w)
  {
    seq(h, i => seq(w, j => El(s, Pos(w, i, j))))
  }

  function Column(M: Matrix, j: nat): (c: Vector)
    ensures |c| == |M|
  {
    seq(|M|, i => At(M, i, j))
  }

  lemma {:induction false} RowsApart(w: nat, i: int, i': int)
    requires i < i'
    ensures Pos(w, i, 0) + w <= Pos(w, i', 0)
    decreases i' - i
  {
    assert Pos(w, i' - 1, 0) + w == Pos(w, i', 0);
    if i < i' - 1 {
      RowsApart(w, i, i' - 1);
    }
  }

  lemma PosInside(h: nat, w: nat, i: int, j: int)
    requires 0 <= i < h && 0 <= j < w
    ensures 0 <= Pos(w, i, j) < h * w
    ensures Pos(w, i + 1, 0) == Pos(w, i, 0) + w <= h * w
    ensures Pos(w, i, j) == Pos(w, i, 0) + j
  {
    RowsApart(w, i, h);
  }

  lemma PosDistinct(w: nat, i: int, j: int, i': int, j': int)
    requires 0 <= j < w && 0 <= j' < w && i != i'
    ensures Pos(w, i, j) != Pos(w, i', j')
  {
    if i < i' {
      RowsApart(w, i, i');
    } else {
      RowsApart(w, i', i);
    }
  }

  lemma GetCell(s: seq<real>, h: nat, w: nat, i: int, j: int)
    requires |s| == h * w && 0 <= i < h && 0 <= j < w
    ensures 0 <= Pos(w, i, j) < |s| && Rows(s, h, w)[i][j] == s[Pos(w, i, j)]
  {
    PosInside(h, w, i, j);
  }

  /** u up to position j, v from there on. */
  ghost function Mixed(u: Vector, v: Vector, j: nat): (r: Vector)
    requires j <= |u| == |v|
    ensures |r| == |u|
    ensures j == 0 ==> r == v
    ensures j == |u| ==> r == u
  {
    u[..j] + v[j..]
  }

  lemma MixedStep(u: Vector, v: Vector, j: nat)
    requires j < |u| == |v|
    ensures Mixed(u, v, j)[j] == v[j]
    ensures Mixed(u, v, j + 1) == Mixed(u, v, j)[j := u[j]]
  {
  }

  /** One write in the flat sequence is one write in the matrix. */
  lemma SetCell(s: seq<real>, h: nat, w: nat, i: int, j: int, v: real)
    requires |s| == h * w && 0 <= i < h && 0 <= j < w
    ensures 0 <= Pos(w, i, j) < |s|
    ensures var M := Rows(s, h, w); Rows(s[Pos(w, i, j) := v], h, w) == M[i := M[i][j := v]]
  {
    hide Pos;
    PosInside(h, w, i, j);
    var s' := s[Pos(w, i, j) := v];
    var M, M' := Rows(s, h, w), Rows(s', h, w);
    forall i', j' | 0 <= i' < h && 0 <= j' < w
      ensures M'[i'][j'] == M[i := M[i][j := v]][i'][j']
    {
      PosInside(h, w, i', j');
      if i != i' {
        PosDistinct(w, i, j, i', j');
      }
    }
    assert forall i' :: 0 <= i' < h ==> M'[i'] == M[i := M[i][j := v]][i'];
  }

  /** Two writes that exchange the entries of column j in rows p and q. */
  lemma ExchangeCells(s: seq<real>, n: nat, p: int, q: int, j: int)
    requires |s| == n * n && 0 <= p < n && 0 <= q < n && p != q && 0 <= j < n
    ensures 0 <= Pos(n, p, j) < |s| && 0 <= Pos(n, q, j) < |s|
    ensures var M := Rows(s, n, n);
      Rows(s[Pos(n, p, j) := s[Pos(n, q, j)]][Pos(n, q, j) := s[Pos(n, p, j)]], n, n)
      == M[p := M[p][j := M[q][j]]][q := M[q][j := M[p][j]]]
  {
    hide Pos;
    GetCell(s, n, n, p, j);
    GetCell(s, n, n, q, j);
    SetCell(s, n, n, p, j, s[Pos(n, q, j)]);
    SetCell(s[Pos(n, p, j) := s[Pos(n, q, j)]], n, n, q, j, s[Pos(n, p, j)]);
  }
}
