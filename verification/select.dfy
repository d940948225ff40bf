/** `argpartsort` and `partsort` on one slice: Wirth's selection with a
    median-of-three pivot, moving a value buffer `B` and an index buffer `Y`
    in lockstep so that `B[m] == a[Y[m]]` throughout.  The buffers are
    sequences here; each swap of the C code is a `Swap` of both. */
module Select {

  import opened Wrappers
  import opened Counting

  /** Every entry left of `l` is at most every entry from `l` on. */
  ghost predicate LowFence(b: seq<int>, l: int) {
    forall p, q :: 0 <= p < l <= q < |b| ==> b[p] <= b[q]
  }

  /** Every entry up to `r` is at most every entry right of `r`. */
  ghost predicate HighFence(b: seq<int>, r: int) {
    forall p, q :: 0 <= p <= r < q < |b| ==> b[p] <= b[q]
  }

  /** Entry `k` is in its sorted place: nothing before it is larger and
      nothing after it is smaller. */
  ghost predicate PartitionedAt(b: seq<int>, k: int) {
    && 0 <= k < |b|
    && (forall p :: 0 <= p < k ==> b[p] <= b[k])
    && (forall q :: k < q < |b| ==> b[k] <= b[q])
  }

  lemma SwapPermuted(a: seq<int>, b: seq<int>, y: seq<int>, i: int, j: int)
    requires Permuted(a, b, y)
    requires 0 <= i < |b| && 0 <= j < |b|
    ensures Permuted(a, Swap(b, i, j), Swap(y, i, j))
  {
    var y' := Swap(y, i, j);
    forall p, q | 0 <= p < q < |a|
      ensures y'[p] != y'[q]
    {
      var p0 := if p == i then j else if p == j then i else p;
      var q0 := if q == i then j else if q == j then i else q;
      assert y'[p] == y[p0] && y'[q] == y[q0];
      if p0 < q0 {
        assert y[p0] != y[q0];
      } else {
        assert y[q0] != y[p0];
      }
    }
  }

  /** A swap inside `[l, r]` keeps both fences. */
  lemma SwapFenced(b: seq<int>, l: int, r: int, i: int, j: int)
    requires LowFence(b, l) && HighFence(b, r)
    requires 0 <= l <= i <= r < |b| && l <= j <= r
    ensures LowFence(Swap(b, i, j), l) && HighFence(Swap(b, i, j), r)
  {
  }

  /** Does `v` sit between the other two of three values? */
  predicate IsMedianOfThree(v: int, x: int, y: int, z: int) {
    && (v == x || v == y || v == z)
    && (if x <= v then 1 else 0) + (if y <= v then 1 else 0) + (if z <= v then 1 else 0) >= 2
    && (if x >= v then 1 else 0) + (if y >= v then 1 else 0) + (if z >= v then 1 else 0) >= 2
  }

  /** The position whose value `ARGPARTITION` moves to `k` before each pass:
      the median of `b[l]`, `b[k]`, `b[r]`. */
  function MedianOfThree(b: seq<int>, l: int, k: int, r: int): (m: int)
    requires 0 <= l <= k <= r < |b|
    ensures m == l || m == k || m == r
    ensures IsMedianOfThree(b[m], b[l], b[k], b[r])
  {
    var al, ak, ar := b[l], b[k], b[r];
    if al > ak then
      if ak < ar then
        if al < ar then l else r
      else k
    else if ak > ar then
      if al > ar then l else r
    else k
  }

  /** One pass of `ARGWIRTH` with pivot `x = b[k]`: scan `i` up past entries
      below `x`, `j` down past entries above `x`, swap, until they cross. */
  method WirthPass(a: seq<int>, b0: seq<int>, y0: seq<int>, l: int, k: int, r: int)
    returns (b: seq<int>, y: seq<int>, i: int, j: int)
    requires Permuted(a, b0, y0)
    requires 0 <= l <= k <= r < |b0| && l < r
    requires LowFence(b0, l) && HighFence(b0, r)
    ensures Permuted(a, b, y)
    ensures LowFence(b, l) && HighFence(b, r)
    ensures l < i && j < r && j < i && i <= r + 1 && l - 1 <= j
    ensures forall m :: l <= m < i ==> b[m] <= b0[k]
    ensures forall m :: j < m <= r ==> b0[k] <= b[m]
  {
    var x := b0[k];
    b, y := b0, y0;
    i, j := l, r;
    // Sentinels that stop the scans: b[s] >= x at or right of i, b[t] <= x
    // at or left of j.
    ghost var s, t := k, k;
    ghost var first := true;
    var go := true;
    while go
      invariant Permuted(a, b, y)
      invariant LowFence(b, l) && HighFence(b, r)
      invariant l <= i <= r + 1 && l - 1 <= j <= r
      invariant forall m :: l <= m < i ==> b[m] <= x
      invariant forall m :: j < m <= r ==> x <= b[m]
      invariant go ==> i <= j && i <= s <= r && x <= b[s] && l <= t <= j && b[t] <= x
      invariant !go ==> j < i && i <= r + 1 && l - 1 <= j
      invariant first ==> go && i == l && j == r
      invariant !first ==> l < i && j < r
      decreases j - i + 2
    {
      while b[i] < x
        invariant l <= i <= s
        invariant forall m :: l <= m < i ==> b[m] <= x
        decreases s - i
      {
        i := i + 1;
      }
      while x < b[j]
        invariant t <= j <= r
        invariant forall m :: j < m <= r ==> x <= b[m]
        decreases j - t
      {
        j := j - 1;
      }
      if i <= j {
        SwapPermuted(a, b, y, i, j);
        SwapFenced(b, l, r, i, j);
        b, y := Swap(b, i, j), Swap(y, i, j);
        s, t := j, i;
        i, j := i + 1, j - 1;
      }
      go := i <= j;
      first := false;
    }
  }

  /** After a pass, the pass's crossing points are new fences. */
  lemma NarrowFences(b: seq<int>, x: int, l: int, r: int, i: int, j: int)
    requires LowFence(b, l) && HighFence(b, r)
    requires 0 <= l && r < |b| && j < i && l <= i <= r + 1 && l - 1 <= j <= r
    requires forall m :: l <= m < i ==> b[m] <= x
    requires forall m :: j < m <= r ==> x <= b[m]
    ensures LowFence(b, i) && HighFence(b, j)
  {
    forall p, q | 0 <= p < i <= q < |b|
      ensures b[p] <= b[q]
    {
      if p >= l && q > r {
        assert p <= r;
      }
    }
    forall p, q | 0 <= p <= j < q < |b|
      ensures b[p] <= b[q]
    {
      if p < l && q <= r {
        assert l <= q;
      }
    }
  }

  /** When `k` falls strictly between the crossing points it holds the pivot
      and is in its sorted place. */
  lemma PivotSettled(b: seq<int>, x: int, l: int, r: int, i: int, j: int, k: int)
    requires LowFence(b, l) && HighFence(b, r)
    requires 0 <= l <= k <= r < |b| && j < k < i <= r + 1 && l - 1 <= j
    requires forall m :: l <= m < i ==> b[m] <= x
    requires forall m :: j < m <= r ==> x <= b[m]
    ensures PartitionedAt(b, k)
  {
    assert b[k] == x;
  }

  /** `ARGPARTSORT` for `k = n - 1`: start from `B = a`, `Y = 0..L-1` and
      narrow `[l, r]` around `k` until it is a single point. */
  method Partition(a: seq<int>, k: int) returns (b: seq<int>, y: seq<int>)
    requires 0 <= k < |a|
    ensures Permuted(a, b, y)
    ensures PartitionedAt(b, k)
  {
    b, y := a, Identity(|a|);
    var l, r := 0, |a| - 1;
    while l < r
      invariant Permuted(a, b, y)
      invariant 0 <= l && r < |a|
      invariant LowFence(b, l) && HighFence(b, r)
      invariant l <= k <= r || (r < l && PartitionedAt(b, k))
      decreases r - l
    {
      var m := MedianOfThree(b, l, k, r);
      SwapPermuted(a, b, y, k, m);
      SwapFenced(b, l, r, k, m);
      b, y := Swap(b, k, m), Swap(y, k, m);
      var x := b[k];
      var i, j;
      b, y, i, j := WirthPass(a, b, y, l, k, r);
      NarrowFences(b, x, l, r, i, j);
      if j < k && k < i {
        PivotSettled(b, x, l, r, i, j, k);
      }
      if j < k {
        l := i;
      }
      if k < i {
        r := j;
      }
    }
  }

  /** A value in its sorted place is the k-th smallest of the input. */
  lemma PartitionedIsKth(a: seq<int>, b: seq<int>, y: seq<int>, k: int)
    requires Permuted(a, b, y)
    requires PartitionedAt(b, k)
    ensures IsKth(a, k, b[k])
  {
    var v := b[k];
    PermutedOrderCounts(a, b, y, v);
    CountLtPositions(b, v);
    var below := set m | 0 <= m < |b| && b[m] < v;
    assert below <= Below(k);
    SubsetCard(below, Below(k));
    var atMost := set m | 0 <= m < |b| && b[m] <= v;
    assert Below(k + 1) <= atMost;
    SubsetCard(Below(k + 1), atMost);
    assert a[y[k]] == v;
  }

  /** The error `partsort` and `argpartsort` raise for an `n` outside
      `[1, length]` (a ValueError). */
  datatype NOutOfRange = NOutOfRange(n: int, length: nat)

  /** `argpartsort` on one slice: indices that put the `n` smallest values
      first, with the n-th smallest at index `n - 1`.  An empty slice gives
      an empty result whatever `n` is. */
  method ArgPartsort(a: seq<int>, n: int) returns (r: Result<seq<int>, NOutOfRange>)
    ensures |a| == 0 ==> r == Success([])
    ensures |a| > 0 ==> (r.Failure? <==> n < 1 || n > |a|)
    ensures r.Failure? ==> r.error == NOutOfRange(n, |a|)
    ensures r.Success? ==> IsPermutation(r.value, |a|)
    ensures r.Success? && |a| > 0 ==>
              && IsKth(a, n - 1, a[r.value[n - 1]])
              && (forall p :: 0 <= p < n - 1 ==> a[r.value[p]] <= a[r.value[n - 1]])
              && (forall q :: n - 1 < q < |a| ==> a[r.value[n - 1]] <= a[r.value[q]])
  {
    if |a| == 0 {
      return Success([]);
    }
    if n < 1 || n > |a| {
      return Failure(NOutOfRange(n, |a|));
    }
    var b, y := Partition(a, n - 1);
    PartitionedIsKth(a, b, y, n - 1);
    return Success(y);
  }

  /** `partsort` on one slice: a reordering of the input with the `n`
      smallest values first and the n-th smallest at index `n - 1`. */
  method PartSort(a: seq<int>, n: int) returns (r: Result<seq<int>, NOutOfRange>)
    ensures |a| == 0 ==> r == Success([])
    ensures |a| > 0 ==> (r.Failure? <==> n < 1 || n > |a|)
    ensures r.Failure? ==> r.error == NOutOfRange(n, |a|)
    ensures r.Success? ==> |r.value| == |a| && multiset(r.value) == multiset(a)
    ensures r.Success? && |a| > 0 ==> IsKth(a, n - 1, r.value[n - 1]) && PartitionedAt(r.value, n - 1)
  {
    if |a| == 0 {
      return Success([]);
    }
    if n < 1 || n > |a| {
      return Failure(NOutOfRange(n, |a|));
    }
    var b, y := Partition(a, n - 1);
    PartitionedIsKth(a, b, y, n - 1);
    PermutedMultiset(a, b, y);
    return Success(b);
  }
}
