/** `push` on one slice: every NaN is replaced by the most recent non-NaN
    value before it, provided that value is at most `n` positions back; a
    negative `n` (the kernel's encoding of `n=None`) means no limit.  `None`
    is NaN.  Integer arrays have no NaN, and their push is a plain copy. */
module Push {

  import opened Wrappers

  /** The position of the last non-NaN entry at or before `i`, if any. */
  function LastValid(a: seq<Option<int>>, i: int): (r: Option<nat>)
    requires i < |a|
    ensures r.Some? ==> r.value <= i && a[r.value].Some?
    ensures r.Some? ==> forall m :: r.value < m <= i ==> a[m].None?
    ensures r.None? ==> forall m :: 0 <= m <= i ==> a[m].None?
    decreases i + 1
  {
    if i < 0 then None
    else if a[i].Some? then Some(i)
    else LastValid(a, i - 1)
  }

  /** Is a gap of `d` positions within the push limit `n`? */
  predicate WithinLimit(d: int, n: int) {
    n < 0 || d <= n
  }

  /** What `push` promises for entry `i`: the entry itself if it is a
      number, otherwise the last number before it when that is close
      enough, otherwise NaN. */
  function PushedAt(a: seq<Option<int>>, n: int, i: int): Option<int>
    requires 0 <= i < |a|
  {
    if a[i].Some? then a[i]
    else
      match LastValid(a, i)
      case Some(j) => if WithinLimit(i - j, n) then a[j] else None
      case None => None
  }

  /** The whole slice as `push` promises it. */
  function Pushed(a: seq<Option<int>>, n: int): (r: seq<Option<int>>)
    ensures |r| == |a|
    ensures forall i :: 0 <= i < |a| ==> r[i] == PushedAt(a, n, i)
  {
    seq(|a|, i requires 0 <= i < |a| => PushedAt(a, n, i))
  }

  /** The state of the scan before position `i`: `index` and `last` are the
      position and value of the last number seen (position 0 and NaN when
      there is none), and entries before `i` are pushed. */
  ghost predicate ScannedTo(a: seq<Option<int>>, n: int, y: seq<Option<int>>, i: int, index: int, last: Option<int>) {
    && 0 <= i <= |a| && |y| == |a|
    && (forall m :: 0 <= m < i ==> y[m] == PushedAt(a, n, m))
    && (forall m :: i <= m < |a| ==> y[m] == a[m])
    && (if i > 0 && LastValid(a, i - 1).Some?
        then index == LastValid(a, i - 1).value && last == a[index]
        else index == 0 && last.None?)
  }

  /** The float kernel: one pass over a copy of the slice, with `ai_last`
      and `index` tracking the last number seen. */
  method PushSlice(a: seq<Option<int>>, n: int) returns (y: seq<Option<int>>)
    ensures y == Pushed(a, n)
  {
    y := a;
    var index := 0;
    var last: Option<int> := None;
    var i := 0;
    while i < |a|
      invariant ScannedTo(a, n, y, i, index, last)
    {
      var ai := y[i];
      if ai.Some? {
        last := ai;
        index := i;
      } else if WithinLimit(i - index, n) {
        y := y[i := last];
      }
      i := i + 1;
    }
  }

  /** The integer kernel returns a copy. */
  function PushInts(a: seq<int>): (y: seq<int>)
    ensures |y| == |a|
  {
    a
  }

  /** An integer slice seen as a float slice without NaN. */
  function AsFloats(a: seq<int>): (r: seq<Option<int>>)
    ensures |r| == |a| && forall i :: 0 <= i < |a| ==> r[i] == Some(a[i])
  {
    seq(|a|, i requires 0 <= i < |a| => Some(a[i]))
  }

  /** The integer kernel's copy is what the float kernel does to a slice
      without NaN, whatever `n` is. */
  lemma PushIntsAgrees(a: seq<int>, n: int)
    ensures AsFloats(PushInts(a)) == Pushed(AsFloats(a), n)
  {
  }

  /** Numbers are never changed, and a NaN is only ever replaced by an
      earlier number no more than `n` positions back, with only NaNs in
      between. */
  lemma PushKeepsNumbers(a: seq<Option<int>>, n: int, i: int)
    requires 0 <= i < |a|
    ensures a[i].Some? ==> Pushed(a, n)[i] == a[i]
    ensures a[i].None? && Pushed(a, n)[i].Some? ==>
              exists j :: 0 <= j < i && WithinLimit(i - j, n) && Pushed(a, n)[i] == a[j]
                          && forall m :: j < m <= i ==> a[m].None?
  {
    if a[i].None? && Pushed(a, n)[i].Some? {
      var j := LastValid(a, i).value;
      assert 0 <= j < i && WithinLimit(i - j, n) && Pushed(a, n)[i] == a[j];
    }
  }

  /** A NaN stays NaN exactly when no number precedes it within `n`. */
  lemma PushLeavesNaN(a: seq<Option<int>>, n: int, i: int)
    requires 0 <= i < |a| && a[i].None?
    ensures Pushed(a, n)[i].None? <==>
              forall j :: 0 <= j < i && WithinLimit(i - j, n) ==> a[j].None?
  {
    if Pushed(a, n)[i].None? {
      forall j | 0 <= j < i && WithinLimit(i - j, n)
        ensures a[j].None?
      {
        var lv := LastValid(a, i);
        if lv.Some? {
          assert !WithinLimit(i - lv.value, n);
          assert j > lv.value ==> a[j].None?;
        }
      }
    } else {
      var j := LastValid(a, i).value;
      assert 0 <= j < i && WithinLimit(i - j, n) && a[j].Some?;
    }
  }

  /** A larger limit fills at least the same entries, with the same values;
      no limit fills the most. */
  lemma PushMonotone(a: seq<Option<int>>, n: int, n': int, i: int)
    requires 0 <= i < |a|
    requires 0 <= n <= n' || n' < 0
    ensures Pushed(a, n)[i].Some? ==> Pushed(a, n')[i] == Pushed(a, n)[i]
  {
  }

  /** Without a limit, pushing twice is pushing once. */
  lemma PushIdempotent(a: seq<Option<int>>, n: int)
    requires n < 0
    ensures Pushed(Pushed(a, n), n) == Pushed(a, n)
  {
    var p := Pushed(a, n);
    forall i | 0 <= i < |a|
      ensures PushedAt(p, n, i) == p[i]
    {
      if p[i].None? {
        NoNumberBefore(a, n, i);
      }
    }
  }

  /** Without a limit, a NaN survives only if nothing before it is a
      number, and then nothing before it survives as a number either. */
  lemma NoNumberBefore(a: seq<Option<int>>, n: int, i: int)
    requires n < 0 && 0 <= i < |a| && Pushed(a, n)[i].None?
    ensures LastValid(Pushed(a, n), i).None?
  {
    var p := Pushed(a, n);
    assert LastValid(a, i).None?;
    forall m | 0 <= m <= i
      ensures p[m].None?
    {
      assert LastValid(a, m).None?;
    }
  }

  /** With a limit, pushing twice can push further than pushing once: for
      `[1, NaN, NaN]` and `n = 1` the first push gives `[1, 1, NaN]` and the
      second `[1, 1, 1]`. */
  lemma PushLimitedNotIdempotent()
    ensures var a := [Some(1), None, None];
            Pushed(a, 1) == [Some(1), Some(1), None] && Pushed(Pushed(a, 1), 1) == [Some(1), Some(1), Some(1)]
  {
    var a := [Some(1), None, None];
    assert PushedAt(a, 1, 2).None?;
    var p := [Some(1), Some(1), None];
    assert Pushed(a, 1) == p;
    assert LastValid(p, 2) == Some(1);
  }

  /** A slice of length at most one is returned unchanged, which is why the
      kernel may return the copy of a 0-d array as it is. */
  lemma PushShort(a: seq<Option<int>>, n: int)
    requires |a| <= 1
    ensures Pushed(a, n) == a
  {
  }

  /** The docstring's example, `[5, nan, nan, 6, nan]` pushed without a
      limit, with `n = 1` and with `n = 2`. */
  lemma PushExample()
    ensures var a := [Some(5), None, None, Some(6), None];
            && Pushed(a, -1) == [Some(5), Some(5), Some(5), Some(6), Some(6)]
            && Pushed(a, 1) == [Some(5), Some(5), None, Some(6), Some(6)]
            && Pushed(a, 2) == [Some(5), Some(5), Some(5), Some(6), Some(6)]
  {
    var a := [Some(5), None, None, Some(6), None];
    assert LastValid(a, 1) == Some(0) && LastValid(a, 2) == Some(0) && LastValid(a, 4) == Some(3);
  }
}
