/** The driver loop of `move_median` over one slice with the NaN-aware
    heap: the heap is filled while the window is incomplete and slides once
    it is full, and each step's median is appended to the output. */
module NanDriver {

  import opened Wrappers
  import opened NanHeap
  import DoubleHeap

  /** `move_median` over one slice with the NaN-aware heap: each output is
      NaN while its window holds fewer than `minCount` numbers, otherwise
      the median of the numbers among the last `window` values. */
  method MoveMedianNan(xs: seq<Option<int>>, window: nat, minCount: nat) returns (ys: seq<Option<real>>)
    requires window >= 1 && minCount >= 1
    ensures |ys| == |xs|
    ensures forall i :: 0 <= i < |xs| ==> DoubleHeap.MovingMedianAt(DoubleHeap.Last(xs[..i + 1], window), minCount, ys[i])
  {
    var zz := New(window, minCount);
    ys := [];
    while |ys| < |xs|
      invariant |ys| <= |xs|
      invariant Driving(zz, xs, window, minCount, ys)
      decreases |xs| - |ys|
    {
      zz, ys := Drive(zz, xs, window, minCount, ys);
    }
  }

  ghost predicate Driving(zz: ZZ, xs: seq<Option<int>>, window: nat, minCount: nat, ys: seq<Option<real>>) {
    && |ys| <= |xs|
    && Valid(zz) && zz.window == window && zz.minCount == minCount
    && Tracks(Window(zz), xs, window, minCount, ys)
  }

  /** The heap's window is the last `window` values read so far, and each
      output so far is the median rule applied to its own window. */
  ghost predicate Tracks(w: seq<Option<int>>, xs: seq<Option<int>>, window: nat, minCount: nat, ys: seq<Option<real>>) {
    && |ys| <= |xs|
    && w == DoubleHeap.Last(xs[..|ys|], window)
    && MediansSoFar(xs, window, minCount, ys)
  }

  /** Each output so far is the median rule applied to its own window. */
  ghost predicate MediansSoFar(xs: seq<Option<int>>, window: nat, minCount: nat, ys: seq<Option<real>>) {
    && |ys| <= |xs|
    && forall j :: 0 <= j < |ys| ==> DoubleHeap.MovingMedianAt(DoubleHeap.Last(xs[..j + 1], window), minCount, ys[j])
  }

  /** One turn of the driver's loop. */
  method Drive(zz: ZZ, xs: seq<Option<int>>, window: nat, minCount: nat, ys: seq<Option<real>>)
    returns (zz': ZZ, ys': seq<Option<real>>)
    requires |ys| < |xs| && Driving(zz, xs, window, minCount, ys)
    ensures |ys'| == |ys| + 1 && Driving(zz', xs, window, minCount, ys')
  {
    var i := |ys|;
    var m;
    DrivenValid(zz, xs, window, minCount, ys);
    zz', m := Step(zz, xs[i]);
    ys' := ys + [m];
    Driven(Window(zz), Window(zz'), xs, window, minCount, ys, m);
  }

  /** A step of the heap that slides the window by `xs[|ys|]` and reports
      that window's median keeps the loop's invariant. */
  lemma Driven(w: seq<Option<int>>, w': seq<Option<int>>, xs: seq<Option<int>>, window: nat, minCount: nat, ys: seq<Option<real>>, m: Option<real>)
    requires |ys| < |xs| && window >= 1 && Tracks(w, xs, window, minCount, ys)
    requires w' == DoubleHeap.Last(w + [xs[|ys|]], window)
    requires DoubleHeap.MovingMedianAt(w', minCount, m)
    ensures Tracks(w', xs, window, minCount, ys + [m])
  {
    LastAdvances(xs, |ys|, window, w, w');
    MediansExtended(xs, window, minCount, ys, m);
  }

  /** The handle the loop carries satisfies the heap invariant. */
  lemma DrivenValid(zz: ZZ, xs: seq<Option<int>>, window: nat, minCount: nat, ys: seq<Option<real>>)
    requires Driving(zz, xs, window, minCount, ys)
    ensures Valid(zz)
  {
  }

  lemma LastAdvances(xs: seq<Option<int>>, i: nat, window: nat, w: seq<Option<int>>, w': seq<Option<int>>)
    requires i < |xs| && window >= 1
    requires w == DoubleHeap.Last(xs[..i], window) && w' == DoubleHeap.Last(w + [xs[i]], window)
    ensures w' == DoubleHeap.Last(xs[..i + 1], window)
  {
    assert xs[..i + 1] == xs[..i] + [xs[i]];
    DoubleHeap.LastOfLast(xs[..i], xs[i], window);
  }

  lemma MediansExtended(xs: seq<Option<int>>, window: nat, minCount: nat, ys: seq<Option<real>>, m: Option<real>)
    requires |ys| < |xs|
    requires MediansSoFar(xs, window, minCount, ys)
    requires DoubleHeap.MovingMedianAt(DoubleHeap.Last(xs[..|ys| + 1], window), minCount, m)
    ensures MediansSoFar(xs, window, minCount, ys + [m])
  {
    forall j | 0 <= j < |ys| + 1
      ensures DoubleHeap.MovingMedianAt(DoubleHeap.Last(xs[..j + 1], window), minCount, (ys + [m])[j])
    {
      if j < |ys| {
        assert (ys + [m])[j] == ys[j];
      }
    }
  }
}
