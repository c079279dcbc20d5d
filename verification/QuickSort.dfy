/** The hole-based quicksort of testcase/src/quick-sort.c. */
module QuickSort {

  predicate Sorted(s: seq<int>) {
    forall i, j :: 0 <= i < j < |s| ==> s[i] <= s[j]
  }

  ghost predicate SameElements(s: seq<int>, t: seq<int>) {
    multiset(s) == multiset(t)
  }

  /** Only the elements from `p` to `q` inclusive may differ, and they are rearranged. */
  ghost predicate Rearranged(before: seq<int>, after: seq<int>, p: int, q: int)
    requires 0 <= p <= q + 1 <= |before|
  {
    && |after| == |before|
    && after[..p] == before[..p] && after[q + 1..] == before[q + 1..]
    && SameElements(before[p..q + 1], after[p..q + 1])
  }

  /** `a` is the array with a hole at `i` for the pivot; the pivot filled in, it is `s0` rearranged. */
  ghost predicate Holed(s0: seq<int>, s: seq<int>, i: int, pivot: int)
    requires 0 <= i < |s|
  {
    SameElements(s0, s[i := pivot])
  }

  /** Moving the element at `j` into the hole at `i` moves the hole to `j`. */
  lemma HoleMoves(s0: seq<int>, s: seq<int>, i: nat, j: nat, pivot: int)
    requires i < |s| && j < |s| && Holed(s0, s, i, pivot)
    ensures Holed(s0, s[i := s[j]], j, pivot)
  {
    if i != j {
      var t := s[i := pivot];
      assert s[i := s[j]][j := pivot] == t[i := t[j]][j := t[i]];
    } else {
      assert s[i := s[j]][j := pivot] == s[i := pivot];
    }
  }

  lemma HoleDug(s: seq<int>, i: nat)
    requires i < |s|
    ensures Holed(s, s, i, s[i])
  {
    assert s[i := s[i]] == s;
  }

  lemma HoleFilled(s0: seq<int>, s: seq<int>, i: nat, pivot: int)
    requires i < |s| && Holed(s0, s, i, pivot)
    ensures SameElements(s0, s[i := pivot])
  {
  }

  method Partition(a: array<int>, p: int, q: int) returns (m: int)
    requires 0 <= p <= q < a.Length
    modifies a
    ensures p <= m <= q && a[m] == old(a[p])
    ensures forall k :: p <= k < m ==> a[k] <= a[m]
    ensures forall k :: m < k <= q ==> a[k] > a[m]
    ensures forall k :: 0 <= k < p || q < k < a.Length ==> a[k] == old(a[k])
    ensures SameElements(old(a[..]), a[..])
  {
    hide Holed, SameElements;
    ghost var s0 := a[..];
    var pivot := a[p];
    var i, j := p, q;
    HoleDug(s0, p);
    while i < j
      invariant p <= i <= j <= q
      invariant Holed(s0, a[..], i, pivot)
      invariant forall k :: p <= k < i ==> a[k] <= pivot
      invariant forall k :: j < k <= q ==> a[k] > pivot
      invariant forall k :: 0 <= k < p || q < k < a.Length ==> a[k] == s0[k]
      decreases j - i
    {
      ghost var j0 := j;
      while i < j && a[j] > pivot
        invariant i <= j <= j0
        invariant forall k :: j < k <= q ==> a[k] > pivot
      {
        j := j - 1;
      }
      ghost var s1 := a[..];
      a[i] := a[j];
      HoleMoves(s0, s1, i, j, pivot);

      ghost var i0 := i;
      while i < j && a[i] <= pivot
        invariant i0 <= i <= j
        invariant forall k :: p <= k < i ==> a[k] <= pivot
        invariant i == i0 && j == j0 ==> a[i] <= pivot
      {
        i := i + 1;
      }
      ghost var s2 := a[..];
      a[j] := a[i];
      HoleMoves(s0, s2, j, i, pivot);
    }
    ghost var s3 := a[..];
    a[i] := pivot;
    assert a[..] == s3[i := pivot];
    HoleFilled(s0, s3, i, pivot);
    return i;
  }

  //// What sorting the two sides leaves

  lemma SameElementsOf(s: seq<int>, t: seq<int>, x: int)
    requires SameElements(s, t) && x in t
    ensures x in s
  {
    assert x in multiset(t);
  }

  /** A rearranged stretch has the bounds it had. */
  lemma RearrangedBounds(before: seq<int>, after: seq<int>, p: int, q: int, lo: int, hi: int)
    requires 0 <= p <= q + 1 <= |before| && Rearranged(before, after, p, q)
    ensures (forall k :: p <= k <= q ==> before[k] <= hi) ==> forall k :: p <= k <= q ==> after[k] <= hi
    ensures (forall k :: p <= k <= q ==> before[k] > lo) ==> forall k :: p <= k <= q ==> after[k] > lo
  {
    forall k | p <= k <= q
      ensures after[k] in before[p..q + 1]
    {
      assert after[p..q + 1][k - p] == after[k];
      SameElementsOf(before[p..q + 1], after[p..q + 1], after[k]);
    }
  }

  lemma MiddleElements(s: seq<int>, p: int, q: int)
    requires 0 <= p <= q + 1 <= |s|
    ensures multiset(s[p..q + 1]) == multiset(s) - multiset(s[..p]) - multiset(s[q + 1..])
  {
    assert s == s[..p] + s[p..q + 1] + s[q + 1..];
  }

  /** Rearranging the whole array without touching the outside is rearranging the stretch. */
  lemma WholeToStretch(s: seq<int>, t: seq<int>, p: int, q: int)
    requires 0 <= p <= q + 1 <= |s| == |t| && SameElements(s, t)
    requires forall k :: 0 <= k < p || q < k < |s| ==> s[k] == t[k]
    ensures Rearranged(s, t, p, q)
  {
    assert t[..p] == s[..p] && t[q + 1..] == s[q + 1..];
    MiddleElements(s, p, q);
    MiddleElements(t, p, q);
  }

  /** And rearranging a stretch is rearranging any larger one. */
  lemma StretchToLarger(s: seq<int>, t: seq<int>, p: int, q: int, p': int, q': int)
    requires 0 <= p <= p' <= q' + 1 <= q + 1 <= |s| && Rearranged(s, t, p', q')
    ensures Rearranged(s, t, p, q)
  {
    assert s[p..q + 1] == s[p..p'] + s[p'..q' + 1] + s[q' + 1..q + 1];
    assert t[p..q + 1] == t[p..p'] + t[p'..q' + 1] + t[q' + 1..q + 1];
    assert s[p..p'] == s[..p'][p..] && t[p..p'] == t[..p'][p..];
    assert s[q' + 1..q + 1] == s[q' + 1..][..q - q'] && t[q' + 1..q + 1] == t[q' + 1..][..q - q'];
    assert s[..p] == s[..p'][..p] && t[..p] == t[..p'][..p];
    assert s[q + 1..] == s[q' + 1..][q - q'..] && t[q + 1..] == t[q' + 1..][q - q'..];
  }

  lemma RearrangedTwice(s: seq<int>, t: seq<int>, u: seq<int>, p: int, q: int)
    requires 0 <= p <= q + 1 <= |s| && Rearranged(s, t, p, q) && Rearranged(t, u, p, q)
    ensures Rearranged(s, u, p, q)
  {
  }

  /** Sorted below the pivot, sorted above it. */
  lemma SortedAround(s: seq<int>, p: int, m: int, q: int)
    requires 0 <= p <= m <= q < |s|
    requires Sorted(s[p..m]) && Sorted(s[m + 1..q + 1])
    requires forall k :: p <= k < m ==> s[k] <= s[m]
    requires forall k :: m < k <= q ==> s[k] > s[m]
    ensures Sorted(s[p..q + 1])
  {
    var t := s[p..q + 1];
    forall i, j | 0 <= i < j < |t|
      ensures t[i] <= t[j]
    {
      if j < m - p {
        assert s[p..m][i] <= s[p..m][j];
      } else if i > m - p {
        assert s[m + 1..q + 1][i - (m - p) - 1] <= s[m + 1..q + 1][j - (m - p) - 1];
      }
    }
  }

  method Sort(a: array<int>, p: int, q: int)
    requires 0 <= p <= q + 1 <= a.Length
    modifies a
    ensures Sorted(a[p..q + 1])
    ensures Rearranged(old(a[..]), a[..], p, q)
    decreases q + 1 - p
  {
    if p >= q {
      return;
    }
    ghost var s0 := a[..];
    var m := Partition(a, p, q);
    ghost var s1 := a[..];
    Sort(a, p, m - 1);
    ghost var s2 := a[..];
    Sort(a, m + 1, q);
    SortedRecursively(s0, s1, s2, a[..], p, m, q);
  }

  lemma Outside(before: seq<int>, after: seq<int>, p: int, q: int)
    requires 0 <= p <= q + 1 <= |before| && Rearranged(before, after, p, q)
    ensures forall k :: 0 <= k < p || q < k < |before| ==> after[k] == before[k]
  {
    forall k | q < k < |before|
      ensures after[k] == before[k]
    {
      assert after[k] == after[q + 1..][k - q - 1] == before[q + 1..][k - q - 1];
    }
    forall k | 0 <= k < p
      ensures after[k] == before[k]
    {
      assert after[k] == after[..p][k] == before[..p][k];
    }
  }

  /** The three steps of quick_sort together. */
  lemma SortedRecursively(s0: seq<int>, s1: seq<int>, s2: seq<int>, s3: seq<int>, p: int, m: int, q: int)
    requires 0 <= p <= m <= q < |s0| == |s1|
    requires SameElements(s0, s1) && forall k :: 0 <= k < p || q < k < |s0| ==> s1[k] == s0[k]
    requires forall k :: p <= k < m ==> s1[k] <= s1[m]
    requires forall k :: m < k <= q ==> s1[k] > s1[m]
    requires Rearranged(s1, s2, p, m - 1) && Sorted(s2[p..m])
    requires Rearranged(s2, s3, m + 1, q) && Sorted(s3[m + 1..q + 1])
    ensures Sorted(s3[p..q + 1]) && Rearranged(s0, s3, p, q)
  {
    hide SameElements, Sorted;
    assert Rearranged(s0, s3, p, q) by {
      WholeToStretch(s0, s1, p, q);
      StretchToLarger(s1, s2, p, q, p, m - 1);
      StretchToLarger(s2, s3, p, q, m + 1, q);
      RearrangedTwice(s0, s1, s2, p, q);
      RearrangedTwice(s0, s2, s3, p, q);
    }
    Outside(s1, s2, p, m - 1);
    Outside(s2, s3, m + 1, q);
    RearrangedBounds(s1, s2, p, m - 1, s1[m], s1[m]);
    RearrangedBounds(s2, s3, m + 1, q, s1[m], s1[m]);
    assert s3[p..m] == s2[p..m];
    SortedAround(s3, p, m, q);
  }

  //// What the test case asserts

  lemma SameFirst(s: seq<int>, t: seq<int>)
    requires Sorted(s) && Sorted(t) && multiset(s) == multiset(t) && s != [] && t != []
    ensures s[0] == t[0] && Sorted(s[1..]) && Sorted(t[1..])
  {
    assert s[0] in multiset(t) && t[0] in multiset(s);
  }

  lemma SameRest(s: seq<int>, t: seq<int>)
    requires multiset(s) == multiset(t) && s != [] && t != [] && s[0] == t[0]
    ensures multiset(s[1..]) == multiset(t[1..])
  {
    assert s == [s[0]] + s[1..] && t == [t[0]] + t[1..];
    assert multiset(s[1..]) == multiset(s) - multiset{s[0]};
    assert multiset(t[1..]) == multiset(t) - multiset{t[0]};
  }

  /** Sorting is determined by its result: one sorted arrangement per multiset. */
  lemma {:induction false} SortedUnique(s: seq<int>, t: seq<int>)
    requires Sorted(s) && Sorted(t) && SameElements(s, t)
    ensures s == t
    decreases |s|
  {
    hide Sorted;
    assert |s| == |multiset(s)| == |multiset(t)| == |t|;
    if s != [] {
      SameFirst(s, t);
      SameRest(s, t);
      SortedUnique(s[1..], t[1..]);
      assert s == [s[0]] + s[1..] && t == [t[0]] + t[1..];
    }
  }

  function UpTo(n: nat): (s: seq<int>)
    ensures |s| == n && forall i :: 0 <= i < n ==> s[i] == i
  {
    seq(n, i => i)
  }

  /** The main program: an arrangement of 0 .. n-1 ends as a[i] == i, and a second sort of the
      sorted array leaves it so. */
  method SortTwice(a: array<int>)
    requires SameElements(a[..], UpTo(a.Length))
    modifies a
    ensures forall i :: 0 <= i < a.Length ==> a[i] == i
  {
    ghost var s0 := a[..];
    Sort(a, 0, a.Length - 1);
    AllRearranged(s0, a[..]);
    SortedUnique(a[..], UpTo(a.Length));
    ghost var s1 := a[..];
    Sort(a, 0, a.Length - 1);
    AllRearranged(s1, a[..]);
    SortedUnique(a[..], UpTo(a.Length));
  }

  lemma AllRearranged(s: seq<int>, t: seq<int>)
    requires Rearranged(s, t, 0, |s| - 1)
    ensures SameElements(s, t) && t[0..|s|] == t
  {
    assert s[0..|s|] == s && t[0..|s|] == t;
  }
}
