/** Quickselect in place: the k-th smallest element, without sorting. */
module KSelect {
  import opened Matrices

  /** s' is s with the elements from lo up to hi-1 rearranged. */
  ghost predicate Shuffled(s: seq<real>, s': seq<real>, lo: int, hi: int)
  {
    && 0 <= lo <= hi <= |s| == |s'|
    && s'[..lo] == s[..lo] && s'[hi..] == s[hi..]
    && multiset(s'[lo..hi]) == multiset(s[lo..hi])
  }

  lemma SwapShuffles(s: seq<real>, i: int, j: int, lo: int, hi: int)
    requires 0 <= lo <= i < hi <= |s| && lo <= j < hi
    ensures Shuffled(s, Swap(s, i, j), lo, hi)
  {
    var t := s[lo..hi];
    assert Swap(s, i, j)[lo..hi] == t[i - lo := t[j - lo]][j - lo := t[i - lo]];
  }

  lemma ShuffledTwice(s: seq<real>, t: seq<real>, u: seq<real>, lo: int, hi: int)
    requires Shuffled(s, t, lo, hi) && Shuffled(t, u, lo, hi)
    ensures Shuffled(s, u, lo, hi)
  {
  }

  lemma ShuffledMultiset(s: seq<real>, s': seq<real>, lo: int, hi: int)
    requires Shuffled(s, s', lo, hi)
    ensures multiset(s') == multiset(s)
  {
    assert s == s[..lo] + s[lo..hi] + s[hi..];
    assert s' == s'[..lo] + s'[lo..hi] + s'[hi..];
  }

  /** Where the element at p came from: the same place, or another in the shuffled stretch. */
  lemma Origin(s: seq<real>, s': seq<real>, lo: int, hi: int, p: int) returns (o: int)
    requires Shuffled(s, s', lo, hi) && 0 <= p < |s|
    ensures 0 <= o < |s| && s'[p] == s[o]
    ensures if lo <= p < hi then lo <= o < hi else o == p
  {
    if p < lo {
      o := p;
      assert s'[..lo][p] == s[..lo][p];
    } else if p >= hi {
      o := p;
      assert s'[hi..][p - hi] == s[hi..][p - hi];
    } else {
      assert s'[lo..hi][p - lo] in multiset(s[lo..hi]);
      var d :| 0 <= d < hi - lo && s[lo..hi][d] == s'[p];
      o := lo + d;
    }
  }

  /** Everything before position l is at most everything from l on. */
  ghost predicate Split(s: seq<real>, l: int)
  {
    forall p, q :: 0 <= p < l <= q < |s| ==> s[p] <= s[q]
  }

  /** Position k separates smaller from larger elements. */
  ghost predicate Selected(s: seq<real>, k: int)
  {
    && 0 <= k < |s|
    && (forall p :: 0 <= p < k ==> s[p] <= s[k])
    && (forall q :: k < q < |s| ==> s[k] <= s[q])
  }

  lemma ShuffledSplit(s: seq<real>, s': seq<real>, lo: int, hi: int, l: int)
    requires Shuffled(s, s', lo, hi) && Split(s, l) && (l <= lo || hi <= l)
    ensures Split(s', l)
  {
    forall p, q | 0 <= p < l <= q < |s|
      ensures s'[p] <= s'[q]
    {
      var o := Origin(s, s', lo, hi, p);
      var o' := Origin(s, s', lo, hi, q);
    }
  }

  lemma ShuffledSelf(s: seq<real>, lo: int, hi: int)
    requires 0 <= lo <= hi <= |s|
    ensures Shuffled(s, s, lo, hi)
  {
  }

  /** Exchanges two elements of the stretch from lo up to hi-1; s is that stretch some exchanges earlier. */
  method Exchange(a: array<real>, i: int, j: int, ghost s: seq<real>, ghost lo: int, ghost hi: int)
    requires 0 <= lo <= i < hi <= a.Length && lo <= j < hi && Shuffled(s, a[..], lo, hi)
    modifies a
    ensures a[i] == old(a[j]) && a[j] == old(a[i])
    ensures forall t :: 0 <= t < a.Length && t != i && t != j ==> a[t] == old(a[t])
    ensures Shuffled(s, a[..], lo, hi)
  {
    hide Shuffled;
    SwapShuffles(a[..], i, j, lo, hi);
    ShuffledTwice(s, a[..], Swap(a[..], i, j), lo, hi);
    ghost var s' := Swap(a[..], i, j);
    a[i], a[j] := a[j], a[i];
    assert a[..] == s';
  }

  /** Median of three: the middle element and the ends of the stretch, in order at l, l+1 and ir. */
  method MedianOfThree(a: array<real>, l: int, ir: int)
    requires 0 <= l && l + 2 <= ir < a.Length
    modifies a
    ensures Shuffled(old(a[..]), a[..], l, ir + 1)
    ensures a[l] <= a[l + 1] <= a[ir]
  {
    hide Shuffled;
    ghost var s := a[..];
    ShuffledSelf(s, l, ir + 1);
    var mid := (l + ir) / 2;
    Exchange(a, mid, l + 1, s, l, ir + 1);
    if a[l] > a[ir] {
      Exchange(a, l, ir, s, l, ir + 1);
    }
    if a[l + 1] > a[ir] {
      Exchange(a, l + 1, ir, s, l, ir + 1);
    }
    if a[l] > a[l + 1] {
      Exchange(a, l, l + 1, s, l, ir + 1);
    }
  }

  /** Scans up from i to the next element not below v; position j stops the scan. */
  method ScanUp(a: array<real>, i0: int, v: real, ghost j: int) returns (i: int)
    requires 0 <= i0 < j < a.Length && a[j] >= v
    ensures i0 < i <= j && a[i] >= v
    ensures forall t :: i0 < t < i ==> a[t] < v
  {
    i := i0 + 1;
    while a[i] < v
      invariant i0 < i <= j
      invariant forall t :: i0 < t < i ==> a[t] < v
      decreases j - i
    {
      i := i + 1;
    }
  }

  /** Scans down from j to the next element not above v; position i stops the scan. */
  method ScanDown(a: array<real>, j0: int, v: real, ghost i: int) returns (j: int)
    requires 0 <= i < j0 <= a.Length && a[i] <= v
    ensures i <= j < j0 && a[j] <= v
    ensures forall t :: j < t < j0 ==> a[t] > v
  {
    j := j0 - 1;
    while a[j] > v
      invariant i <= j < j0
      invariant forall t :: j < t < j0 ==> a[t] > v
      decreases j - i
    {
      j := j - 1;
    }
  }

  /** Partitions around the pivot at l + 1; the scans meet at i == j or cross to i == j + 1. */
  method Partition(a: array<real>, l: int, ir: int) returns (i: int, j: int)
    requires 0 <= l && l + 2 <= ir < a.Length && a[l] <= a[l + 1] <= a[ir]
    modifies a
    ensures Shuffled(old(a[..]), a[..], l, ir + 1)
    ensures l + 1 <= j < ir && (i == j || i == j + 1)
    ensures forall t :: l <= t < j ==> a[t] <= a[j]
    ensures forall t :: j < t <= ir ==> a[j] <= a[t]
  {
    hide Shuffled;
    ghost var s := a[..];
    ShuffledSelf(s, l, ir + 1);
    i, j := l + 1, ir;
    var v := a[l + 1];
    while true
      invariant l + 1 <= i < j <= ir
      invariant Shuffled(s, a[..], l, ir + 1)
      invariant a[l + 1] == v
      invariant forall t :: l <= t <= i ==> a[t] <= v
      invariant forall t :: j <= t <= ir ==> a[t] >= v
      decreases j - i
    {
      ghost var i0, j0 := i, j;
      i := ScanUp(a, i, v, j);
      j := ScanDown(a, j, v, i0);
      assert j + 1 == j0 || a[j + 1] > v;
      if j <= i {
        break;
      }
      Exchange(a, i, j, s, l, ir + 1);
    }
    Exchange(a, l + 1, j, s, l, ir + 1);
  }

  // ---- the rank of a value

  function Below(s: seq<real>, v: real): nat
  {
    if s == [] then 0 else Below(s[1..], v) + if s[0] < v then 1 else 0
  }

  function AtMost(s: seq<real>, v: real): nat
  {
    if s == [] then 0 else AtMost(s[1..], v) + if s[0] <= v then 1 else 0
  }

  /** v is the k-th smallest element of s, counting from zero and counting duplicates. */
  ghost predicate HasRank(s: seq<real>, v: real, k: int)
  {
    v in s && Below(s, v) <= k < AtMost(s, v)
  }

  lemma {:induction false} RankConcat(s: seq<real>, t: seq<real>, v: real)
    ensures Below(s + t, v) == Below(s, v) + Below(t, v)
    ensures AtMost(s + t, v) == AtMost(s, v) + AtMost(t, v)
  {
    if s == [] {
      assert s + t == t;
    } else {
      RankConcat(s[1..], t, v);
      assert (s + t)[1..] == s[1..] + t;
    }
  }

  lemma {:induction false} RankBounds(s: seq<real>, v: real)
    ensures Below(s, v) <= AtMost(s, v) <= |s|
    ensures (forall q :: 0 <= q < |s| ==> s[q] >= v) ==> Below(s, v) == 0
    ensures (forall p :: 0 <= p < |s| ==> s[p] <= v) ==> AtMost(s, v) == |s|
  {
    if s != [] {
      RankBounds(s[1..], v);
    }
  }

  lemma WithoutOne(s: seq<real>, t: seq<real>) returns (p: nat)
    requires s != [] && multiset(s) == multiset(t)
    ensures p < |t| && t[p] == s[0] && |t| == |s|
    ensures multiset(s[1..]) == multiset(t[..p] + t[p + 1..])
  {
    assert s[0] in multiset(t);
    p :| 0 <= p < |t| && t[p] == s[0];
    assert t == t[..p] + [t[p]] + t[p + 1..];
    assert s == [s[0]] + s[1..];
    assert multiset(s[1..]) == multiset(s) - multiset{s[0]};
    assert multiset(t[..p] + t[p + 1..]) == multiset(t) - multiset{t[p]};
    assert |s| == |multiset(s)| && |t| == |multiset(t)|;
  }

  lemma RankWithout(t: seq<real>, p: nat, v: real)
    requires p < |t|
    ensures Below(t, v) == Below(t[..p] + t[p + 1..], v) + if t[p] < v then 1 else 0
    ensures AtMost(t, v) == AtMost(t[..p] + t[p + 1..], v) + if t[p] <= v then 1 else 0
  {
    assert t == t[..p] + t[p..];
    RankConcat(t[..p], t[p..], v);
    RankConcat(t[..p], t[p + 1..], v);
  }

  /** Ranks depend only on which elements there are. */
  lemma {:induction false} RankMultiset(s: seq<real>, t: seq<real>, v: real)
    requires multiset(s) == multiset(t)
    ensures Below(s, v) == Below(t, v) && AtMost(s, v) == AtMost(t, v)
    decreases |s|
  {
    if s == [] {
      assert |multiset(t)| == |t|;
    } else {
      var p := WithoutOne(s, t);
      RankMultiset(s[1..], t[..p] + t[p + 1..], v);
      RankWithout(t, p, v);
    }
  }

  /** A position that separates smaller from larger elements holds the element of that rank. */
  lemma SelectedRank(s: seq<real>, k: int)
    requires Selected(s, k)
    ensures HasRank(s, s[k], k)
  {
    assert s == s[..k] + s[k..];
    assert s == s[..k + 1] + s[k + 1..];
    RankConcat(s[..k], s[k..], s[k]);
    RankConcat(s[..k + 1], s[k + 1..], s[k]);
    RankBounds(s[..k], s[k]);
    RankBounds(s[k..], s[k]);
    RankBounds(s[..k + 1], s[k]);
  }

  lemma {:induction false} RankOrder(s: seq<real>, v: real, w: real)
    requires v < w
    ensures AtMost(s, v) <= Below(s, w)
  {
    if s != [] {
      RankOrder(s[1..], v, w);
    }
  }

  /** At most one value has a given rank. */
  lemma RankUnique(s: seq<real>, v: real, w: real, k: int)
    requires HasRank(s, v, k) && HasRank(s, w, k)
    ensures v == w
  {
    if v < w {
      RankOrder(s, v, w);
    } else if w < v {
      RankOrder(s, w, v);
    }
  }

  lemma RankOfRearranged(s: seq<real>, s': seq<real>, k: int)
    requires multiset(s) == multiset(s') && Selected(s', k)
    ensures HasRank(s, s'[k], k)
  {
    SelectedRank(s', k);
    RankMultiset(s, s', s'[k]);
    assert s'[k] in multiset(s');
  }

  // ---- the search

  /** Where the search stands: k lies in the stretch that is left, or its element is settled. */
  ghost predicate Narrowed(s: seq<real>, k: int, l: int, ir: int)
  {
    && 0 <= k < |s| && 0 <= l && ir < |s|
    && if ir < l then Selected(s, k) else l <= k <= ir && Split(s, l) && Split(s, ir + 1)
  }

  /** Rearranges the array so that position k separates; an index outside the array yields -1. */
  method Select(a: array<real>, k: int) returns (r: real)
    modifies a
    ensures multiset(a[..]) == multiset(old(a[..]))
    ensures 0 <= k < a.Length ==> Selected(a[..], k) && r == a[k] && HasRank(old(a[..]), r, k)
    ensures !(0 <= k < a.Length) ==> r == -1.0 && a[..] == old(a[..])
  {
    if k < 0 || k >= a.Length {
      return -1.0;
    }
    hide Shuffled, Split, Selected, HasRank;
    ghost var s := a[..];
    var l, ir := 0, a.Length - 1;
    StartNarrowed(s, k);
    while ir - l > 1
      invariant multiset(a[..]) == multiset(s)
      invariant Narrowed(a[..], k, l, ir)
      decreases ir - l
    {
      l, ir := Narrow(a, k, l, ir);
    }
    if ir - l == 1 && a[ir] < a[l] {
      ghost var t := a[..];
      ShuffledSelf(t, l, ir + 1);
      Exchange(a, l, ir, t, l, ir + 1);
      ShuffledMultiset(t, a[..], l, ir + 1);
      ShuffledSplit(t, a[..], l, ir + 1, l);
      ShuffledSplit(t, a[..], l, ir + 1, ir + 1);
    }
    Settled(a[..], k, l, ir);
    RankOfRearranged(s, a[..], k);
    r := a[k];
  }

  lemma StartNarrowed(s: seq<real>, k: int)
    requires 0 <= k < |s|
    ensures Narrowed(s, k, 0, |s| - 1)
  {
  }

  lemma Settled(s: seq<real>, k: int, l: int, ir: int)
    requires Narrowed(s, k, l, ir) && ir - l <= 1 && (ir - l == 1 ==> s[l] <= s[ir])
    ensures Selected(s, k)
  {
  }

  /** One round: partition the stretch and keep the part that holds k. */
  method Narrow(a: array<real>, k: int, l0: int, ir0: int) returns (l: int, ir: int)
    requires Narrowed(a[..], k, l0, ir0) && ir0 - l0 > 1
    modifies a
    ensures multiset(a[..]) == multiset(old(a[..]))
    ensures Narrowed(a[..], k, l, ir) && ir - l < ir0 - l0
  {
    hide Shuffled, Split, Selected;
    l, ir := l0, ir0;
    ghost var s := a[..];
    MedianOfThree(a, l, ir);
    ghost var t := a[..];
    var i, j := Partition(a, l, ir);
    ShuffledTwice(s, t, a[..], l0, ir0 + 1);
    ShuffledMultiset(s, a[..], l0, ir0 + 1);
    ShuffledSplit(s, a[..], l0, ir0 + 1, l0);
    ShuffledSplit(s, a[..], l0, ir0 + 1, ir0 + 1);
    PivotPlaced(a[..], l0, ir0, j);
    if j >= k {
      ir := j - 1;
    }
    if j <= k {
      l := i;
    }
  }

  /** The pivot in place splits the whole array on both sides of it. */
  lemma PivotPlaced(s: seq<real>, l: int, ir: int, j: int)
    requires 0 <= l < j <= ir < |s| && Split(s, l) && Split(s, ir + 1)
    requires forall t :: l <= t < j ==> s[t] <= s[j]
    requires forall t :: j < t <= ir ==> s[j] <= s[t]
    ensures Selected(s, j) && Split(s, j) && Split(s, j + 1)
  {
    assert forall p :: 0 <= p < j ==> s[p] <= s[j];
    assert forall q :: j < q < |s| ==> s[j] <= s[q];
  }
}
