/** `rankdata` and `nanrankdata` on one slice.  The kernel receives the
    permutation `z` that sorts the slice ascending (NumPy's argsort, with NaN
    last) and walks the sorted order, giving every run of equal values the
    mean of its 1-based sorted positions.  Ranks are `real`; `None` is NaN. */
module Rank {

  import opened Wrappers
  import opened Counting

  ghost predicate Ascending(s: seq<int>) {
    forall p, q :: 0 <= p < q < |s| ==> s[p] <= s[q]
  }

  /** `z` sorts `a` ascending. */
  ghost predicate SortsAscending(a: seq<int>, z: seq<int>) {
    IsPermutation(z, |a|) && Ascending(Compose(a, z))
  }

  /** The entries of `a` in the order `z` lists them. */
  ghost function Compose<T>(a: seq<T>, z: seq<int>): (s: seq<T>)
    requires forall m :: 0 <= m < |z| ==> 0 <= z[m] < |a|
    ensures |s| == |z|
    ensures forall m :: 0 <= m < |z| ==> s[m] == a[z[m]]
  {
    seq(|z|, m requires 0 <= m < |z| => a[z[m]])
  }

  /** The rank scipy and the docstring promise: one more than the mean of the
      0-based sorted positions `CountLt .. CountLe - 1` that the value
      `a[i]` occupies. */
  ghost function AverageRank(a: seq<int>, i: int): real
    requires 0 <= i < |a|
  {
    1.0 + (CountLt(a, a[i]) + CountLe(a, a[i]) - 1) as real / 2.0
  }

  /** `g + (g + 1) + ... + (i - 1)`, accumulated as the C code does. */
  function SumFrom(g: int, i: int): (r: real)
    decreases i - g
  {
    if i <= g then 0.0 else SumFrom(g, i - 1) + (i - 1) as real
  }

  lemma {:induction false} SumFromClosed(g: int, i: int)
    requires g <= i
    ensures 2.0 * SumFrom(g, i) == (i - g) as real * (g + i - 1) as real
    decreases i - g
  {
    if i > g {
      SumFromClosed(g, i - 1);
      var n, c := (i - 1 - g) as real, (g + i - 2) as real;
      assert (n + 1.0) * (c + 1.0) == n * c + n + c + 1.0;
    }
  }

  /** The mean the C code computes for a run `[g, h)`, `sumranks / dupcount`,
      is the mean 0-based position. */
  lemma MeanOfRun(g: int, h: int)
    requires g < h
    ensures SumFrom(g, h) / (h - g) as real == (g + h - 1) as real / 2.0
  {
    SumFromClosed(g, h);
    HalfOfProduct(SumFrom(g, h), (h - g) as real, (g + h - 1) as real);
  }

  lemma HalfOfProduct(sum: real, d: real, c: real)
    requires d > 0.0 && 2.0 * sum == d * c
    ensures sum / d == c / 2.0
  {
    assert sum == d * (c / 2.0);
  }

  /** `[g, h)` is a maximal run of equal entries of `s`. */
  ghost predicate IsRun<T>(s: seq<T>, g: int, h: int) {
    && 0 <= g < h <= |s|
    && (forall m :: g <= m < h ==> s[m] == s[g])
    && (g == 0 || s[g - 1] != s[g])
    && (h == |s| || s[h - 1] != s[h])
  }

  /** In a sorted sequence, the entries below the first of a run of equal
      values are exactly those before it. */
  lemma SortedCountLt(s: seq<int>, g: int)
    requires Ascending(s)
    requires 0 <= g < |s| && (g == 0 || s[g - 1] < s[g])
    ensures CountLt(s, s[g]) == g
  {
    var v := s[g];
    CountLtPositions(s, v);
    forall m | 0 <= m < |s|
      ensures s[m] < v <==> m < g
    {
      if m < g {
        assert s[m] <= s[g - 1];
      } else {
        assert s[g] <= s[m] || m == g;
      }
    }
    assert (set m | 0 <= m < |s| && s[m] < v) == Below(g);
  }

  /** In a sorted sequence, the entries at most the last of a run of equal
      values are exactly those up to it. */
  lemma SortedCountLe(s: seq<int>, h: int)
    requires Ascending(s)
    requires 0 < h <= |s| && (h == |s| || s[h - 1] < s[h])
    ensures CountLe(s, s[h - 1]) == h
  {
    var v := s[h - 1];
    CountLtPositions(s, v);
    forall m | 0 <= m < |s|
      ensures s[m] <= v <==> m < h
    {
      if m >= h {
        assert s[h] <= s[m] || m == h;
      } else {
        assert s[m] <= s[h - 1] || m == h - 1;
      }
    }
    assert (set m | 0 <= m < |s| && s[m] <= v) == Below(h);
  }

  /** In a sorted sequence, a maximal run `[g, h)` of equal values sits at
      exactly the positions counted by `CountLt` and `CountLe`. */
  lemma SortedRunCounts(s: seq<int>, g: int, h: int)
    requires Ascending(s)
    requires IsRun(s, g, h)
    ensures CountLt(s, s[g]) == g && CountLe(s, s[g]) == h
  {
    SortedCountLt(s, g);
    assert s[h - 1] == s[g];
    SortedCountLe(s, h);
  }

  /** Every member of a maximal run `[g, h)` of a sorted sequence has the
      run's mean rank. */
  lemma RunRank(s: seq<int>, g: int, h: int, m: int)
    requires Ascending(s)
    requires IsRun(s, g, h)
    requires g <= m < h
    ensures AverageRank(s, m) == 1.0 + (g + h - 1) as real / 2.0
  {
    SortedRunCounts(s, g, h);
  }

  /** The state of the `rankdata` scan before sorted position `i`: the
      current run of equal values starts at `i - dupcount`, `sumranks` holds
      the sum of its positions, and every earlier run has been ranked. */
  ghost predicate Scanned(s: seq<int>, z: seq<int>, y: seq<real>, i: int, dupcount: int, sumranks: real) {
    && 0 <= dupcount <= i < |s| && |y| == |s| && IsPermutation(z, |s|)
    && sumranks == SumFrom(i - dupcount, i)
    && (forall m :: i - dupcount <= m < i ==> s[m] == s[i])
    && (i - dupcount == 0 || s[i - dupcount - 1] != s[i - dupcount])
    && (forall m :: 0 <= m < i - dupcount ==> y[z[m]] == AverageRank(s, m))
  }

  /** One iteration of the `rankdata` scan: extend the run with position `i`
      and, if position `i + 1` holds a different value, rank the run. */
  method RankStep(a: seq<int>, z: seq<int>, ghost s: seq<int>, y0: seq<real>, i: int, dupcount0: int, sumranks0: real, prev: int)
    returns (y: seq<real>, dupcount: int, sumranks: real, next: int)
    requires IsPermutation(z, |a|) && s == Compose(a, z) && Ascending(s)
    requires Scanned(s, z, y0, i, dupcount0, sumranks0) && i + 1 < |s| && prev == a[z[i]]
    ensures Scanned(s, z, y, i + 1, dupcount, sumranks) && next == a[z[i + 1]]
  {
    sumranks := sumranks0 + i as real;
    dupcount := dupcount0 + 1;
    y := y0;
    var k := i + 1;
    next := a[z[k]];
    if prev != next {
      y := CloseRun(a, z, s, y0, i, dupcount0, sumranks0);
      sumranks := 0.0;
      dupcount := 0;
    }
  }

  /** The body of the `old != new` branch of the `rankdata` scan: the run
      ending at sorted position `i` gets its rank. */
  method CloseRun(a: seq<int>, z: seq<int>, ghost s: seq<int>, y0: seq<real>, i: int, dupcount0: int, sumranks0: real)
    returns (y: seq<real>)
    requires IsPermutation(z, |a|) && s == Compose(a, z) && Ascending(s)
    requires Scanned(s, z, y0, i, dupcount0, sumranks0) && i + 1 < |s| && a[z[i]] != a[z[i + 1]]
    ensures |y| == |s|
    ensures forall m :: 0 <= m < i + 1 ==> y[z[m]] == AverageRank(s, m)
  {
    var sumranks := sumranks0 + i as real;
    var dupcount := dupcount0 + 1;
    var k := i + 1;
    var averank := sumranks / dupcount as real + 1.0;
    assert IsRun(s, k - dupcount, k);
    y := WriteRun(z, s, y0, k - dupcount, k, averank);
  }

  /** `rankdata` on one slice, given the ascending argsort `z`.  Every
      element gets its average rank. */
  method RankData(a: seq<int>, z: seq<int>) returns (y: seq<real>)
    requires SortsAscending(a, z)
    ensures |y| == |a|
    ensures forall i :: 0 <= i < |a| ==> y[i] == AverageRank(a, i)
  {
    var len := |a|;
    y := seq(len, _ => 0.0);
    if len == 0 {
      return;
    }
    ghost var s := Compose(a, z);
    var prev := a[z[0]];
    var sumranks := 0.0;
    var dupcount := 0;
    var i := 0;
    while i < len - 1
      invariant i < len && Scanned(s, z, y, i, dupcount, sumranks) && prev == a[z[i]]
    {
      y, dupcount, sumranks, prev := RankStep(a, z, s, y, i, dupcount, sumranks, prev);
      i := i + 1;
    }
    y := Flush(a, z, s, y, dupcount, sumranks);
    RankedThroughPermutation(a, z, y);
  }

  /** The flush after the `rankdata` scan: the last run, which ends at the
      last sorted position, gets its rank. */
  method Flush(a: seq<int>, z: seq<int>, ghost s: seq<int>, y0: seq<real>, dupcount0: int, sumranks0: real)
    returns (y: seq<real>)
    requires IsPermutation(z, |a|) && s == Compose(a, z) && Ascending(s) && |a| > 0
    requires Scanned(s, z, y0, |a| - 1, dupcount0, sumranks0)
    ensures |y| == |a|
    ensures forall m :: 0 <= m < |a| ==> y[z[m]] == AverageRank(s, m)
  {
    var len := |a|;
    var sumranks := sumranks0 + (len - 1) as real;
    var dupcount := dupcount0 + 1;
    var averank := sumranks / dupcount as real + 1.0;
    assert sumranks == SumFrom(len - dupcount, len);
    assert IsRun(s, len - dupcount, len);
    y := WriteRun(z, s, y0, len - dupcount, len, averank);
  }

  /** Having ranked every sorted position, every index is ranked. */
  lemma RankedThroughPermutation(a: seq<int>, z: seq<int>, y: seq<real>)
    requires IsPermutation(z, |a|) && |y| == |a|
    requires forall m :: 0 <= m < |a| ==> y[z[m]] == AverageRank(Compose(a, z), m)
    ensures forall i :: 0 <= i < |a| ==> y[i] == AverageRank(a, i)
  {
    var s := Compose(a, z);
    forall i | 0 <= i < |a|
      ensures y[i] == AverageRank(a, i)
    {
      PermutationOnto(z, |a|, i);
      var m :| 0 <= m < |a| && z[m] == i;
      PermutedOrderCounts(a, s, z, a[i]);
    }
  }

  /** The inner loop of both kernels: every member of the maximal run
      `[g, h)` of the sorted view `s` gets `averank`, its mean rank. */
  method WriteRun(z: seq<int>, ghost s: seq<int>, y0: seq<real>, g: int, h: int, averank: real) returns (y: seq<real>)
    requires IsPermutation(z, |s|) && Ascending(s) && |y0| == |s|
    requires IsRun(s, g, h)
    requires averank == SumFrom(g, h) / (h - g) as real + 1.0
    ensures |y| == |s|
    ensures forall m :: 0 <= m < h ==> y[z[m]] == if m < g then y0[z[m]] else AverageRank(s, m)
  {
    MeanOfRun(g, h);
    y := y0;
    var j := g;
    while j < h
      invariant g <= j <= h && |y| == |s|
      invariant forall m :: 0 <= m < g ==> y[z[m]] == y0[z[m]]
      invariant forall m :: g <= m < j ==> y[z[m]] == AverageRank(s, m)
    {
      RunRank(s, g, h, j);
      y := y[z[j] := averank];
      j := j + 1;
    }
  }

  // ---------------------------------------------------------------------
  // nanrankdata: NaN (`None`) entries sort last and come out NaN.

  /** Ascending, with every NaN after every number. */
  ghost predicate AscendingNanLast(s: seq<Option<int>>) {
    forall p, q :: 0 <= p < q < |s| && s[q].Some? ==> s[p].Some? && s[p].value <= s[q].value
  }

  /** `z` sorts `a` ascending with NaNs last, as NumPy's argsort does. */
  ghost predicate SortsNanLast(a: seq<Option<int>>, z: seq<int>) {
    IsPermutation(z, |a|) && AscendingNanLast(Compose(a, z))
  }

  /** The documented result: NaN for NaN, otherwise the average rank among
      the non-NaN entries. */
  ghost function NanAverageRank(a: seq<Option<int>>, i: int): Option<real>
    requires 0 <= i < |a|
  {
    if a[i].None? then None
    else Some(1.0 + (PCountLt(a, a[i].value) + PCountLe(a, a[i].value) - 1) as real / 2.0)
  }

  /** C's `!=` on doubles, which holds whenever either side is NaN. */
  predicate FloatNe(x: Option<int>, y: Option<int>) {
    x.None? || y.None? || x.value != y.value
  }

  lemma SortedPresentCountLt(s: seq<Option<int>>, g: int)
    requires AscendingNanLast(s)
    requires 0 <= g < |s| && s[g].Some? && (g == 0 || s[g - 1] != s[g])
    ensures PCountLt(s, s[g].value) == g
  {
    var v := s[g].value;
    PCountPositions(s, v);
    forall m | 0 <= m < |s|
      ensures s[m].Some? && s[m].value < v <==> m < g
    {
      if m < g {
        assert s[g - 1].Some? && s[g - 1].value <= v;
        assert (s[m].Some? && s[m].value <= s[g - 1].value) || m == g - 1;
      } else if m > g && s[m].Some? {
        assert s[g].value <= s[m].value;
      }
    }
    assert (set m | 0 <= m < |s| && s[m].Some? && s[m].value < v) == Below(g);
  }

  lemma SortedPresentCountLe(s: seq<Option<int>>, h: int)
    requires AscendingNanLast(s)
    requires 0 < h <= |s| && s[h - 1].Some? && (h == |s| || s[h - 1] != s[h])
    ensures PCountLe(s, s[h - 1].value) == h
  {
    var v := s[h - 1].value;
    PCountPositions(s, v);
    forall m | 0 <= m < |s|
      ensures s[m].Some? && s[m].value <= v <==> m < h
    {
      if m < h - 1 {
        assert s[m].Some? && s[m].value <= v;
      } else if m > h && s[m].Some? {
        assert s[h].Some? && s[h].value <= s[m].value;
        assert v <= s[h].value;
      } else if m == h && s[m].Some? {
        assert v <= s[h].value;
      }
    }
    assert (set m | 0 <= m < |s| && s[m].Some? && s[m].value <= v) == Below(h);
  }

  /** Every member of a maximal run `[g, h)` of numbers in a NaN-last sorted
      sequence has the run's mean rank. */
  lemma NanRunRank(s: seq<Option<int>>, g: int, h: int, m: int)
    requires AscendingNanLast(s)
    requires IsRun(s, g, h) && s[g].Some?
    requires g <= m < h
    ensures NanAverageRank(s, m) == Some(1.0 + (g + h - 1) as real / 2.0)
  {
    SortedPresentCountLt(s, g);
    assert s[h - 1] == s[g];
    SortedPresentCountLe(s, h);
  }

  /** `NanWriteRun` is `WriteRun` for the NaN-aware kernel. */
  method NanWriteRun(z: seq<int>, ghost s: seq<Option<int>>, y0: seq<Option<real>>, g: int, h: int, averank: real)
    returns (y: seq<Option<real>>)
    requires IsPermutation(z, |s|) && AscendingNanLast(s) && |y0| == |s|
    requires IsRun(s, g, h) && s[g].Some?
    requires averank == SumFrom(g, h) / (h - g) as real + 1.0
    ensures |y| == |s|
    ensures forall m :: 0 <= m < h ==> y[z[m]] == if m < g then y0[z[m]] else NanAverageRank(s, m)
  {
    MeanOfRun(g, h);
    y := y0;
    var j := g;
    while j < h
      invariant g <= j <= h && |y| == |s|
      invariant forall m :: 0 <= m < g ==> y[z[m]] == y0[z[m]]
      invariant forall m :: g <= m < j ==> y[z[m]] == NanAverageRank(s, m)
    {
      NanRunRank(s, g, h, j);
      y := y[z[j] := Some(averank)];
      j := j + 1;
    }
  }

  /** The state of the `nanrankdata` scan before sorted position `i`; a NaN
      at `i` always starts a fresh run. */
  ghost predicate NanScanned(s: seq<Option<int>>, z: seq<int>, y: seq<Option<real>>, i: int, dupcount: int, sumranks: real) {
    && 0 <= dupcount <= i < |s| && |y| == |s| && IsPermutation(z, |s|)
    && sumranks == SumFrom(i - dupcount, i)
    && (forall m :: i - dupcount <= m < i ==> s[m] == s[i])
    && (s[i].Some? ==> i - dupcount == 0 || s[i - dupcount - 1] != s[i - dupcount])
    && (s[i].None? ==> dupcount == 0)
    && (forall m :: 0 <= m < i - dupcount ==> y[z[m]] == NanAverageRank(s, m))
  }

  /** One iteration of the `nanrankdata` scan. */
  method NanRankStep(a: seq<Option<int>>, z: seq<int>, ghost s: seq<Option<int>>, y0: seq<Option<real>>,
                     i: int, dupcount0: int, sumranks0: real, prev: Option<int>)
    returns (y: seq<Option<real>>, dupcount: int, sumranks: real, next: Option<int>)
    requires IsPermutation(z, |a|) && s == Compose(a, z) && AscendingNanLast(s)
    requires NanScanned(s, z, y0, i, dupcount0, sumranks0) && i + 1 < |s| && prev == a[z[i]]
    ensures NanScanned(s, z, y, i + 1, dupcount, sumranks) && next == a[z[i + 1]]
  {
    sumranks := sumranks0 + i as real;
    dupcount := dupcount0 + 1;
    y := y0;
    var k := i + 1;
    next := a[z[k]];
    if FloatNe(prev, next) {
      y := NanCloseRun(a, z, s, y0, i, dupcount0, sumranks0, prev);
      sumranks := 0.0;
      dupcount := 0;
    }
  }

  /** The body of the `old != new` branch of the `nanrankdata` scan: the
      run ending at sorted position `i` gets its rank, or, when it is a
      NaN, position `i` gets NaN. */
  method NanCloseRun(a: seq<Option<int>>, z: seq<int>, ghost s: seq<Option<int>>, y0: seq<Option<real>>,
                     i: int, dupcount0: int, sumranks0: real, prev: Option<int>)
    returns (y: seq<Option<real>>)
    requires IsPermutation(z, |a|) && s == Compose(a, z) && AscendingNanLast(s)
    requires NanScanned(s, z, y0, i, dupcount0, sumranks0) && i + 1 < |s| && prev == a[z[i]]
    requires FloatNe(prev, a[z[i + 1]])
    ensures |y| == |s|
    ensures forall m :: 0 <= m < i + 1 ==> y[z[m]] == NanAverageRank(s, m)
  {
    var sumranks := sumranks0 + i as real;
    var dupcount := dupcount0 + 1;
    var k := i + 1;
    if prev.Some? {
      var averank := sumranks / dupcount as real + 1.0;
      NanRunCloses(s, z, y0, i, dupcount0, sumranks0);
      y := NanWriteRun(z, s, y0, k - dupcount, k, averank);
    } else {
      y := y0[z[i] := None];
      forall m | 0 <= m < i
        ensures y[z[m]] == y0[z[m]]
      {
        assert z[m] != z[i];
      }
    }
  }

  /** A number that differs from the next sorted entry ends its run. */
  lemma NanRunCloses(s: seq<Option<int>>, z: seq<int>, y0: seq<Option<real>>, i: int, dupcount0: int, sumranks0: real)
    requires NanScanned(s, z, y0, i, dupcount0, sumranks0) && i + 1 < |s|
    requires s[i].Some? && FloatNe(s[i], s[i + 1])
    ensures IsRun(s, i - dupcount0, i + 1)
  {
  }

  /** `nanrankdata` on one slice, given the argsort `z` (ascending, NaN
      last): NaNs stay NaN, numbers get their average rank among the
      numbers. */
  method NanRankData(a: seq<Option<int>>, z: seq<int>) returns (y: seq<Option<real>>)
    requires SortsNanLast(a, z)
    ensures |y| == |a|
    ensures forall i :: 0 <= i < |a| ==> y[i] == NanAverageRank(a, i)
  {
    var len := |a|;
    y := seq(len, _ => Some(0.0));
    if len == 0 {
      return;
    }
    ghost var s := Compose(a, z);
    var prev := a[z[0]];
    var sumranks := 0.0;
    var dupcount := 0;
    var i := 0;
    while i < len - 1
      invariant i < len && NanScanned(s, z, y, i, dupcount, sumranks) && prev == a[z[i]]
    {
      y, dupcount, sumranks, prev := NanRankStep(a, z, s, y, i, dupcount, sumranks, prev);
      i := i + 1;
    }
    y := NanFlush(a, z, s, y, dupcount, sumranks, prev);
    NanRankedThroughPermutation(a, z, y);
  }

  /** The flush after the `nanrankdata` scan: the last run gets its rank, or
      the last sorted position its NaN. */
  method NanFlush(a: seq<Option<int>>, z: seq<int>, ghost s: seq<Option<int>>, y0: seq<Option<real>>,
                  dupcount0: int, sumranks0: real, prev: Option<int>)
    returns (y: seq<Option<real>>)
    requires IsPermutation(z, |a|) && s == Compose(a, z) && AscendingNanLast(s) && |a| > 0
    requires NanScanned(s, z, y0, |a| - 1, dupcount0, sumranks0) && prev == a[z[|a| - 1]]
    ensures |y| == |a|
    ensures forall m :: 0 <= m < |a| ==> y[z[m]] == NanAverageRank(s, m)
  {
    var len := |a|;
    var sumranks := sumranks0 + (len - 1) as real;
    var dupcount := dupcount0 + 1;
    var averank := sumranks / dupcount as real + 1.0;
    if prev.Some? {
      y := NanWriteRun(z, s, y0, len - dupcount, len, averank);
    } else {
      y := y0[z[len - 1] := None];
    }
  }

  /** Having ranked every sorted position, every index is ranked. */
  lemma NanRankedThroughPermutation(a: seq<Option<int>>, z: seq<int>, y: seq<Option<real>>)
    requires IsPermutation(z, |a|) && |y| == |a|
    requires forall m :: 0 <= m < |a| ==> y[z[m]] == NanAverageRank(Compose(a, z), m)
    ensures forall i :: 0 <= i < |a| ==> y[i] == NanAverageRank(a, i)
  {
    var s := Compose(a, z);
    forall i | 0 <= i < |a|
      ensures y[i] == NanAverageRank(a, i)
    {
      PermutationOnto(z, |a|, i);
      var m :| 0 <= m < |a| && z[m] == i;
      if a[i].Some? {
        PermutedPresentCounts(a, s, z, a[i].value);
      }
    }
  }

  // ---------------------------------------------------------------------
  // What an average rank is: a number in [1, n] that orders the entries
  // as their values do and gives equal values equal ranks.

  /** An entry is counted by `CountLe` but not by `CountLt` of its own
      value. */
  lemma OccupiedCounts(w: seq<int>, i: int)
    requires 0 <= i < |w|
    ensures CountLt(w, w[i]) < CountLe(w, w[i]) <= |w|
  {
    CountLtPositions(w, w[i]);
    var lt := set m | 0 <= m < |w| && w[m] < w[i];
    var le := set m | 0 <= m < |w| && w[m] <= w[i];
    assert i !in lt;
    SubsetCard(lt + {i}, le);
    SubsetCard(le, Below(|w|));
  }

  /** Average ranks lie between 1 and the slice length. */
  lemma RankBounds(a: seq<int>, i: int)
    requires 0 <= i < |a|
    ensures 1.0 <= AverageRank(a, i) <= |a| as real
  {
    OccupiedCounts(a, i);
  }

  /** Ranks order the entries exactly as their values do: a smaller value
      has a smaller rank and equal values share a rank, in both
      directions. */
  lemma RankOrder(a: seq<int>, i: int, j: int)
    requires 0 <= i < |a| && 0 <= j < |a|
    ensures a[i] < a[j] <==> AverageRank(a, i) < AverageRank(a, j)
    ensures a[i] == a[j] <==> AverageRank(a, i) == AverageRank(a, j)
  {
    OccupiedCounts(a, i);
    OccupiedCounts(a, j);
    if a[i] < a[j] {
      CountMonotone(a, a[i], a[j]);
    } else if a[j] < a[i] {
      CountMonotone(a, a[j], a[i]);
    }
  }

  lemma PresentOccupiedCounts(w: seq<Option<int>>, i: int)
    requires 0 <= i < |w| && w[i].Some?
    ensures PCountLt(w, w[i].value) < PCountLe(w, w[i].value) <= CountPresent(w)
  {
    var v := w[i].value;
    PCountPositions(w, v);
    var lt := set m | 0 <= m < |w| && w[m].Some? && w[m].value < v;
    var le := set m | 0 <= m < |w| && w[m].Some? && w[m].value <= v;
    assert i !in lt;
    SubsetCard(lt + {i}, le);
    CountWhereMonotone(w, (o: Option<int>) => o.Some? && o.value <= v, (o: Option<int>) => o.Some?);
  }

  /** `nanrankdata` ranks are NaN exactly for NaN entries, and otherwise lie
      between 1 and the number of non-NaN entries. */
  lemma NanRankBounds(a: seq<Option<int>>, i: int)
    requires 0 <= i < |a|
    ensures NanAverageRank(a, i).Some? <==> a[i].Some?
    ensures a[i].Some? ==> 1.0 <= NanAverageRank(a, i).value <= CountPresent(a) as real
  {
    if a[i].Some? {
      PresentOccupiedCounts(a, i);
    }
  }

  /** Among non-NaN entries, `nanrankdata` ranks order them as their
      values do, and equal values share a rank. */
  lemma NanRankOrder(a: seq<Option<int>>, i: int, j: int)
    requires 0 <= i < |a| && 0 <= j < |a| && a[i].Some? && a[j].Some?
    ensures a[i].value < a[j].value <==> NanAverageRank(a, i).value < NanAverageRank(a, j).value
    ensures a[i] == a[j] <==> NanAverageRank(a, i) == NanAverageRank(a, j)
  {
    PresentOccupiedCounts(a, i);
    PresentOccupiedCounts(a, j);
    if a[i].value < a[j].value {
      PCountMonotone(a, a[i].value, a[j].value);
    } else if a[j].value < a[i].value {
      PCountMonotone(a, a[j].value, a[i].value);
    }
  }

  /** Counting one more entry. */
  lemma CountSnoc<T>(w: seq<T>, x: T, P: T -> bool)
    ensures CountWhere(w + [x], P) == CountWhere(w, P) + (if P(x) then 1 else 0)
  {
    assert (w + [x])[..|w|] == w;
  }

  /** Counting the entries of a four-entry slice one by one. */
  lemma CountFour<T>(x0: T, x1: T, x2: T, x3: T, P: T -> bool)
    ensures CountWhere([x0, x1, x2, x3], P)
            == (if P(x0) then 1 else 0) + (if P(x1) then 1 else 0) + (if P(x2) then 1 else 0) + (if P(x3) then 1 else 0)
  {
    CountSnoc([], x0, P);
    CountSnoc([x0], x1, P);
    CountSnoc([x0, x1], x2, P);
    CountSnoc([x0, x1, x2], x3, P);
    assert [] + [x0] == [x0] && [x0] + [x1] == [x0, x1];
    assert [x0, x1] + [x2] == [x0, x1, x2] && [x0, x1, x2] + [x3] == [x0, x1, x2, x3];
  }

  /** The docstring's example: `[0, 2, 2, 3]` ranks as `[1, 2.5, 2.5, 4]`. */
  lemma RankExample()
    ensures var a := [0, 2, 2, 3];
            && AverageRank(a, 0) == 1.0 && AverageRank(a, 1) == 2.5
            && AverageRank(a, 2) == 2.5 && AverageRank(a, 3) == 4.0
  {
    CountFour(0, 2, 2, 3, x => x < 0);
    CountFour(0, 2, 2, 3, x => x <= 0);
    CountFour(0, 2, 2, 3, x => x < 2);
    CountFour(0, 2, 2, 3, x => x <= 2);
    CountFour(0, 2, 2, 3, x => x < 3);
    CountFour(0, 2, 2, 3, x => x <= 3);
  }

  /** The docstring's NaN example: `[nan, 2, 2, 3]` ranks as
      `[nan, 1.5, 1.5, 3]`. */
  lemma NanRankExample()
    ensures var a := [None, Some(2), Some(2), Some(3)];
            && NanAverageRank(a, 0).None? && NanAverageRank(a, 1) == Some(1.5)
            && NanAverageRank(a, 2) == Some(1.5) && NanAverageRank(a, 3) == Some(3.0)
  {
    var a := [None, Some(2), Some(2), Some(3)];
    CountFour(a[0], a[1], a[2], a[3], (o: Option<int>) => o.Some? && o.value < 2);
    CountFour(a[0], a[1], a[2], a[3], (o: Option<int>) => o.Some? && o.value <= 2);
    CountFour(a[0], a[1], a[2], a[3], (o: Option<int>) => o.Some? && o.value < 3);
    CountFour(a[0], a[1], a[2], a[3], (o: Option<int>) => o.Some? && o.value <= 3);
  }
}
