/** What the moving median must return, and why the two heap heads give
    it.  A window is a sequence of values with NaN as `None`; its median is
    taken over the non-NaN values only: the middle one of an odd number of
    them, the mean of the middle two of an even number. */
module Median {

  import opened Wrappers
  import opened Counting
  import opened Heap8
  import opened TwoHeaps

  /** The median of the non-NaN values of `w`, which must have at least
      one. */
  ghost predicate IsMedian(w: seq<Option<int>>, m: real) {
    var n := CountPresent(w);
    && n > 0
    && if n % 2 == 1 then
         exists v: int :: IsPresentKth(w, n / 2, v) && m == Mean(v, v)
       else
         exists u: int, v: int :: IsPresentKth(w, n / 2 - 1, u) && IsPresentKth(w, n / 2, v) && m == Mean(u, v)
  }

  /** The mean of two numbers. */
  function Mean(u: int, v: int): real {
    (u + v) as real / 2.0
  }

  /** A window has at most one median. */
  lemma MedianUnique(w: seq<Option<int>>, m1: real, m2: real)
    requires IsMedian(w, m1) && IsMedian(w, m2)
    ensures m1 == m2
  {
    var n := CountPresent(w);
    if n % 2 == 1 {
      var v1 :| IsPresentKth(w, n / 2, v1) && m1 == Mean(v1, v1);
      var v2 :| IsPresentKth(w, n / 2, v2) && m2 == Mean(v2, v2);
      PresentKthUnique(w, n / 2, v1, v2);
    } else {
      var u1, v1 :| IsPresentKth(w, n / 2 - 1, u1) && IsPresentKth(w, n / 2, v1) && m1 == Mean(u1, v1);
      var u2, v2 :| IsPresentKth(w, n / 2 - 1, u2) && IsPresentKth(w, n / 2, v2) && m2 == Mean(u2, v2);
      PresentKthUnique(w, n / 2 - 1, u1, u2);
      PresentKthUnique(w, n / 2, v1, v2);
    }
  }

  /** What a slot of the moving window answers: `None` when it is empty or
      when it holds a NaN sentinel of either heap. */
  function Decode(e: Ext): Option<int> {
    if e.Fin? then Some(e.v) else None
  }

  function SlotValue(nodes: seq<Node>): nat -> Option<int> {
    (t: nat) => if t < |nodes| then Decode(nodes[t].val) else None
  }

  /** The values the slots `slots` hold, in the order listed. */
  function Contents(nodes: seq<Node>, slots: seq<nat>): (w: seq<Option<int>>)
    ensures |w| == |slots|
  {
    Map(SlotValue(nodes), slots)
  }

  /** Number of non-NaN values the slots hold. */
  ghost function Present(nodes: seq<Node>, slots: seq<nat>): nat {
    CountPresent(Contents(nodes, slots))
  }

  /** Counts over a window split among two heaps add up. */
  lemma SplitCount(nodes: seq<Node>, order: seq<nat>, s: seq<nat>, l: seq<nat>, P: Option<int> -> bool)
    requires multiset(order) == multiset(s) + multiset(l)
    ensures CountWhere(Contents(nodes, order), P) == CountWhere(Contents(nodes, s), P) + CountWhere(Contents(nodes, l), P)
  {
    var f := SlotValue(nodes);
    var Q := (t: nat) => P(f(t));
    CountWhereMap(f, order, P, Q);
    CountWhereMap(f, s, P, Q);
    CountWhereMap(f, l, P, Q);
    assert multiset(s + l) == multiset(s) + multiset(l);
    CountWhereByMultiset(order, s + l, Q);
    CountWhereConcat(s, l, Q);
  }

  /** The small heap's head `v` is its largest number: all its numbers are at
      most `v`, one of them (the head) is not below it, and no number of
      the large heap is below it. */
  lemma SmallHeadRank(nodes: seq<Node>, s: seq<nat>, l: seq<nat>, v: int)
    requires HeapsOk(nodes, s, l) && |s| > 0 && nodes[s[0]].val == Fin(v)
    ensures PCountLt(Contents(nodes, s), v) < Present(nodes, s)
    ensures PCountLe(Contents(nodes, s), v) == Present(nodes, s)
    ensures PCountLt(Contents(nodes, l), v) == 0
  {
    var cs, cl := Contents(nodes, s), Contents(nodes, l);
    forall i | 0 <= i < |s|
      ensures cs[i].Some? ==> cs[i].value <= v
    {
      RootIsBest(true, Vals(nodes, s), i);
    }
    CountWhereBelow(cs, (o: Option<int>) => o.Some? && o.value < v, (o: Option<int>) => o.Some?, 0);
    CountWhereSame(cs, (o: Option<int>) => o.Some? && o.value <= v, (o: Option<int>) => o.Some?);
    forall i | 0 <= i < |l|
      ensures !(cl[i].Some? && cl[i].value < v)
    {
      assert s[0] in s && l[i] in l;
    }
    CountWhereNone(cl, (o: Option<int>) => o.Some? && o.value < v);
  }

  /** The large heap's head `v` is its smallest number: no number of either
      heap's is below it except those of the small heap, all of which are
      at most `v`, and the head itself is at most `v`. */
  lemma LargeHeadRank(nodes: seq<Node>, s: seq<nat>, l: seq<nat>, v: int)
    requires HeapsOk(nodes, s, l) && |l| > 0 && nodes[l[0]].val == Fin(v)
    ensures PCountLt(Contents(nodes, s), v) <= Present(nodes, s)
    ensures PCountLe(Contents(nodes, s), v) == Present(nodes, s)
    ensures PCountLt(Contents(nodes, l), v) == 0
    ensures PCountLe(Contents(nodes, l), v) > 0
  {
    var cs, cl := Contents(nodes, s), Contents(nodes, l);
    forall i | 0 <= i < |s|
      ensures cs[i].Some? ==> cs[i].value <= v
    {
      assert s[i] in s && l[0] in l;
    }
    CountWhereBelow(cs, (o: Option<int>) => o.Some? && o.value < v, (o: Option<int>) => o.Some?, -1);
    CountWhereSame(cs, (o: Option<int>) => o.Some? && o.value <= v, (o: Option<int>) => o.Some?);
    forall i | 0 <= i < |l|
      ensures !(cl[i].Some? && cl[i].value < v)
    {
      RootIsBest(false, Vals(nodes, l), i);
    }
    CountWhereNone(cl, (o: Option<int>) => o.Some? && o.value < v);
    CountWhereBelow(cl, (o: Option<int>) => false, (o: Option<int>) => o.Some? && o.value <= v, 0);
  }

  /** A heap with a number has a number at its head: NaN sentinels sit at
      the far end of each heap. */
  lemma HeadIsNumber(nodes: seq<Node>, heap: seq<nat>, small: bool)
    requires Linked(nodes, heap, small) && Ordered(small, Vals(nodes, heap))
    requires forall t :: t in heap ==> nodes[t].val != (if small then PosInf else NegInf)
    requires Present(nodes, heap) > 0
    ensures |heap| > 0 && nodes[heap[0]].val.Fin?
  {
    var j := CountWhereWitness(Contents(nodes, heap), (o: Option<int>) => o.Some?);
    RootIsBest(small, Vals(nodes, heap), j);
    assert heap[0] in heap;
  }

  /** A value a slot of the window holds is a value of the window. */
  lemma InWindow(nodes: seq<Node>, order: seq<nat>, s: seq<nat>, l: seq<nat>, t: nat, v: int)
    requires multiset(order) == multiset(s) + multiset(l)
    requires (t in s || t in l) && t < |nodes| && nodes[t].val == Fin(v)
    ensures exists i :: 0 <= i < |order| && Contents(nodes, order)[i] == Some(v)
  {
    assert t in multiset(order);
    var i :| 0 <= i < |order| && order[i] == t;
    assert Contents(nodes, order)[i] == Some(v);
  }

  /** The value at the head of a heap; an empty heap shows a NaN
      sentinel. */
  function Head(nodes: seq<Node>, heap: seq<nat>): Ext
    requires InPool(nodes, heap)
  {
    if |heap| > 0 then nodes[heap[0]].val else PosInf
  }

  /** What `mm_get_median` and `zz_get_median` need to read: the head the
      rule picks holds a number. */
  predicate Readable(sHead: Ext, lHead: Ext, ds: int, dl: int, eff: int) {
    && (eff % 2 == 1 && dl > ds ==> lHead.Fin?)
    && (eff % 2 == 1 && dl <= ds ==> sHead.Fin?)
    && (eff % 2 == 0 ==> sHead.Fin? && lHead.Fin?)
  }

  /** The tail of `mm_get_median` and `zz_get_median`: for an odd effective
      window size the head of the heap with more numbers (the small heap on
      a tie), for an even one the mean of both heads. */
  function ReadMedian(sHead: Ext, lHead: Ext, ds: int, dl: int, eff: int): real
    requires Readable(sHead, lHead, ds, dl, eff)
  {
    if eff % 2 == 1 then
      if dl > ds then lHead.v as real else sHead.v as real
    else
      (sHead.v as real + lHead.v as real) / 2.0
  }

  /** The reading rule is right whenever the small heap's head is the
      `ds - 1`-th smallest number and the large heap's the `ds`-th, with
      `ds` and `dl` within one of each other. */
  lemma ReadIsMedian(w: seq<Option<int>>, sHead: Ext, lHead: Ext, ds: int, dl: int)
    requires 0 <= ds && 0 <= dl && -1 <= ds - dl <= 1 && ds + dl > 0
    requires CountPresent(w) == ds + dl
    requires ds > 0 ==> sHead.Fin? && IsPresentKth(w, ds - 1, sHead.v)
    requires dl > 0 ==> lHead.Fin? && IsPresentKth(w, ds, lHead.v)
    ensures Readable(sHead, lHead, ds, dl, ds + dl)
    ensures IsMedian(w, ReadMedian(sHead, lHead, ds, dl, ds + dl))
  {
    var n := ds + dl;
    var m := ReadMedian(sHead, lHead, ds, dl, n);
    if n % 2 == 1 {
      if dl > ds {
        assert IsPresentKth(w, n / 2, lHead.v) && m == Mean(lHead.v, lHead.v);
      } else {
        assert IsPresentKth(w, n / 2, sHead.v) && m == Mean(sHead.v, sHead.v);
      }
    } else {
      assert IsPresentKth(w, n / 2 - 1, sHead.v) && IsPresentKth(w, n / 2, lHead.v);
      assert m == Mean(sHead.v, lHead.v);
    }
  }

  /** A number at the small heap's head is the window's `ds - 1`-th
      smallest number, `ds` being the small heap's count of numbers. */
  lemma SmallHeadKth(nodes: seq<Node>, order: seq<nat>, s: seq<nat>, l: seq<nat>)
    requires HeapsOk(nodes, s, l) && multiset(order) == multiset(s) + multiset(l)
    requires |s| > 0 && nodes[s[0]].val.Fin?
    ensures IsPresentKth(Contents(nodes, order), Present(nodes, s) - 1, nodes[s[0]].val.v)
  {
    var u := nodes[s[0]].val.v;
    SmallHeadRank(nodes, s, l, u);
    SplitCount(nodes, order, s, l, (o: Option<int>) => o.Some? && o.value < u);
    SplitCount(nodes, order, s, l, (o: Option<int>) => o.Some? && o.value <= u);
    InWindow(nodes, order, s, l, s[0], u);
  }

  /** A number at the large heap's head is the window's `ds`-th smallest
      number. */
  lemma LargeHeadKth(nodes: seq<Node>, order: seq<nat>, s: seq<nat>, l: seq<nat>)
    requires HeapsOk(nodes, s, l) && multiset(order) == multiset(s) + multiset(l)
    requires |l| > 0 && nodes[l[0]].val.Fin?
    ensures IsPresentKth(Contents(nodes, order), Present(nodes, s), nodes[l[0]].val.v)
  {
    var v := nodes[l[0]].val.v;
    LargeHeadRank(nodes, s, l, v);
    SplitCount(nodes, order, s, l, (o: Option<int>) => o.Some? && o.value < v);
    SplitCount(nodes, order, s, l, (o: Option<int>) => o.Some? && o.value <= v);
    InWindow(nodes, order, s, l, l[0], v);
  }

  /** Separated heaps whose numbers differ in count by at most one have the
      window's median at their heads: the rule of `mm_get_median` and
      `zz_get_median` reads it off. */
  lemma HeadsAreMedian(nodes: seq<Node>, order: seq<nat>, s: seq<nat>, l: seq<nat>)
    requires HeapsOk(nodes, s, l) && multiset(order) == multiset(s) + multiset(l)
    requires forall t :: t in s ==> nodes[t].val != PosInf
    requires forall t :: t in l ==> nodes[t].val != NegInf
    requires -1 <= Present(nodes, s) - Present(nodes, l) <= 1
    requires Present(nodes, s) + Present(nodes, l) > 0
    ensures Present(nodes, order) == Present(nodes, s) + Present(nodes, l)
    ensures var ds, dl := Present(nodes, s), Present(nodes, l);
            && Readable(Head(nodes, s), Head(nodes, l), ds, dl, ds + dl)
            && IsMedian(Contents(nodes, order), ReadMedian(Head(nodes, s), Head(nodes, l), ds, dl, ds + dl))
  {
    SplitCount(nodes, order, s, l, (o: Option<int>) => o.Some?);
    if Present(nodes, s) > 0 {
      HeadIsNumber(nodes, s, true);
      SmallHeadKth(nodes, order, s, l);
    }
    if Present(nodes, l) > 0 {
      HeadIsNumber(nodes, l, false);
      LargeHeadKth(nodes, order, s, l);
    }
    ReadIsMedian(Contents(nodes, order), Head(nodes, s), Head(nodes, l), Present(nodes, s), Present(nodes, l));
  }
}
