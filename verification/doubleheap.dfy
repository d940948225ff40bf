/** The NaN-free moving-median double heap, `mm_*` in `move_median.c`.
    A handle holds `window` node slots.  While fewer than `window` values
    are in, `InsertInit` fills the next free slot; once the window is
    complete, `Update` overwrites the oldest node.  `GetMedian` reads the
    median off the two heap heads. */
module DoubleHeap {

  import opened Wrappers
  import opened Counting
  import opened Heap8
  import opened TwoHeaps
  import opened Median

  /** `mm_handle`.  The insertion list `first -> ... -> last` is `order`,
      oldest slot first; `s` and `l` are the small and large heaps as slot
      sequences; `sLeaf` and `lLeaf` are `s_first_leaf` and `l_first_leaf`;
      `complete` is `init_wnd_complete`. */
  datatype MM = MM(
    window: nat,
    minCount: nat,
    maxS: nat,
    nodes: seq<Node>,
    s: seq<nat>,
    l: seq<nat>,
    order: seq<nat>,
    sLeaf: nat,
    lLeaf: nat,
    complete: bool)

  /** `max_s_heap_size`: the small heap gets half the window, rounded up;
      the large heap gets the rest, which is at most as much. */
  function SmallCapacity(window: nat): (c: nat)
    ensures window <= 2 * c <= window + 1
    ensures window - c <= c && c - (window - c) == window % 2
  {
    window / 2 + window % 2
  }

  /** The slots in use are `0 .. count - 1`, each listed once. */
  ghost predicate SlotsInUse(order: seq<nat>) {
    && (forall i :: 0 <= i < |order| ==> order[i] < |order|)
    && (forall i, j :: 0 <= i < j < |order| ==> order[i] != order[j])
  }

  /** Every node in a heap holds a number. */
  ghost predicate AllNumbers(nodes: seq<Node>, heap: seq<nat>) {
    forall t :: t in heap ==> t < |nodes| && nodes[t].val.Fin?
  }

  /** The invariant of a handle between calls: the heaps are in order and
      separated and hold exactly the listed slots, the small heap has as
      many nodes as the large one or one more, the leaf indices are current
      and the completion flag says whether the window is full. */
  ghost predicate Valid(mm: MM) {
    && mm.window >= 1 && mm.minCount >= 1
    && mm.maxS == SmallCapacity(mm.window)
    && |mm.nodes| == mm.window
    && |mm.order| <= mm.window
    && SlotsInUse(mm.order)
    && multiset(mm.order) == multiset(mm.s) + multiset(mm.l)
    && HeapsOk(mm.nodes, mm.s, mm.l)
    && AllNumbers(mm.nodes, mm.s) && AllNumbers(mm.nodes, mm.l)
    && |mm.l| <= |mm.s| <= |mm.l| + 1
    && (|mm.s| > 0 ==> mm.sLeaf == FirstLeaf(|mm.s|))
    && (|mm.l| > 0 ==> mm.lLeaf == FirstLeaf(|mm.l|))
    && (mm.complete <==> |mm.order| == mm.window)
  }

  /** The values in the window, oldest first. */
  function Window(mm: MM): seq<Option<int>> {
    Contents(mm.nodes, mm.order)
  }

  /** Neither heap outgrows its part of the slot array. */
  lemma WithinCapacity(mm: MM)
    requires Valid(mm)
    ensures |mm.s| <= mm.maxS && |mm.l| <= mm.window - mm.maxS
    ensures |mm.s| + |mm.l| == |mm.order|
  {
    assert |multiset(mm.order)| == |multiset(mm.s)| + |multiset(mm.l)|;
  }

  /** `mm_new` followed by `mm_reset`: an empty handle. */
  function New(window: nat, minCount: nat): (mm: MM)
    requires window >= 1 && minCount >= 1
    ensures Valid(mm) && mm.window == window && mm.minCount == minCount
    ensures Window(mm) == [] && !mm.complete
  {
    var maxS := SmallCapacity(window);
    MM(window, minCount, maxS, seq(window, _ => Node(true, 0, Fin(0))), [], [], [], 0, 0, false)
  }

  /** `mm_reset`: empty the handle for the next slice, keeping its size. */
  function Reset(mm: MM): (r: MM)
    requires Valid(mm)
    ensures Valid(r) && r.window == mm.window && r.minCount == mm.minCount
    ensures Window(r) == [] && !r.complete
  {
    mm.(s := [], l := [], order := [], complete := false)
  }

  /** `mm_update`'s relinking: the oldest node becomes the newest. */
  function Rotate(order: seq<nat>): (r: seq<nat>)
    requires |order| > 0
    ensures |r| == |order| && multiset(r) == multiset(order)
  {
    assert order == [order[0]] + order[1..];
    order[1..] + [order[0]]
  }

  /** `mm_update`: the oldest value leaves the window and `x` enters it in
      the same node, which becomes the newest; the heap sizes stay. */
  method Update(mm: MM, x: int) returns (r: MM)
    requires Valid(mm) && |mm.order| > 0
    ensures Valid(r)
    ensures Window(r) == Window(mm)[1..] + [Some(x)]
    ensures r.order == mm.order[1..] + [mm.order[0]]
    ensures |r.s| == |mm.s| && |r.l| == |mm.l|
    ensures r.window == mm.window && r.minCount == mm.minCount && r.complete == mm.complete
  {
    var q := mm.order[0];
    var order := Rotate(mm.order);
    assert q in multiset(mm.order);
    assert SetVal(mm.nodes, q, mm.nodes[q].val) == mm.nodes;
    var nodes, s, l := Helper(mm.nodes, mm.s, mm.l, mm.sLeaf, mm.lLeaf, q, Fin(x), mm.nodes[q].val);
    r := mm.(nodes := nodes, s := s, l := l, order := order);
    Rotated(mm, r, q, x);
    NumbersKept(mm.nodes, nodes, mm.s, mm.l, s, l, q, x);
    assert multiset(order) == multiset(s) + multiset(l);
    assert |r.l| <= |r.s| <= |r.l| + 1;
    assert HeapsOk(r.nodes, r.s, r.l);
  }

  /** Only `q`'s value changed, to a number, and the heaps hold the same
      slots between them (`q` among them): all values are still numbers. */
  lemma NumbersKept(nodes0: seq<Node>, nodes: seq<Node>, s0: seq<nat>, l0: seq<nat>, s: seq<nat>, l: seq<nat>, q: nat, x: int)
    requires forall t :: (t in s0 || t in l0) && t != q ==> t < |nodes0| && nodes0[t].val.Fin?
    requires multiset(s) + multiset(l) == multiset(s0) + multiset(l0)
    requires |nodes| == |nodes0| && q < |nodes| && nodes[q].val == Fin(x)
    requires forall t :: 0 <= t < |nodes0| && t != q ==> nodes[t].val == nodes0[t].val
    ensures AllNumbers(nodes, s) && AllNumbers(nodes, l)
  {
    forall t | t in s || t in l
      ensures t < |nodes| && nodes[t].val.Fin?
    {
      assert t in multiset(s) + multiset(l);
      assert t in multiset(s0) || t in multiset(l0);
      if t != q {
        assert t in s0 || t in l0;
      }
    }
  }

  /** The facts `Update` and `InsertInit` share once the helper has run on
      the rotated list. */
  lemma Rotated(mm: MM, r: MM, q: nat, x: int)
    requires |mm.order| > 0 && q == mm.order[0] && SlotsInUse(mm.order) && q < |mm.nodes|
    requires r.order == mm.order[1..] + [q]
    requires |r.nodes| == |mm.nodes| && r.nodes[q].val == Fin(x)
    requires forall t :: 0 <= t < |mm.nodes| && t != q ==> r.nodes[t].val == mm.nodes[t].val
    requires forall i :: 0 <= i < |mm.order| ==> mm.order[i] < |mm.nodes|
    ensures SlotsInUse(r.order)
    ensures Contents(r.nodes, r.order) == Contents(mm.nodes, mm.order)[1..] + [Some(x)]
  {
    forall i | 1 <= i < |mm.order|
      ensures mm.order[i] != q
    {
    }
  }

  /** `mm_insert_init`: while the window is not yet full, `x` goes into
      the next free slot.  The new node joins the large heap exactly when
      the small heap is full or bigger, so the small heap keeps as many
      nodes as the large one or one more; the flag turns on when the
      window fills. */
  method InsertInit(mm: MM, x: int) returns (r: MM)
    requires Valid(mm) && !mm.complete
    ensures Valid(r)
    ensures Window(r) == Window(mm) + [Some(x)]
    ensures r.window == mm.window && r.minCount == mm.minCount
    ensures r.complete <==> |mm.order| + 1 == mm.window
  {
    if |mm.s| == 0 {
      r := InsertFirst(mm, x);
    } else {
      r := InsertLater(mm, x);
    }
  }

  /** The first value of a window becomes the root of the small heap. */
  method InsertFirst(mm: MM, x: int) returns (r: MM)
    requires Valid(mm) && !mm.complete && |mm.s| == 0
    ensures Valid(r)
    ensures Window(r) == [Some(x)] && Window(mm) == []
    ensures r.window == mm.window && r.minCount == mm.minCount
    ensures r.complete <==> 1 == mm.window
  {
    WithinCapacity(mm);
    var q: nat := 0;
    var nodes := mm.nodes[q := Node(true, 0, Fin(x))];
    r := mm.(nodes := nodes, s := [q], order := [q], sLeaf := 0,
             complete := mm.complete || 1 >= mm.window);
    assert Vals(nodes, [q]) == [Fin(x)];
  }

  /** A later value of a window that is not yet full fills the next free
      slot, joins a heap by the rule of `AddLeaf` and is sifted into
      place. */
  method InsertLater(mm: MM, x: int) returns (r: MM)
    requires Valid(mm) && !mm.complete && |mm.s| > 0
    ensures Valid(r)
    ensures Window(r) == Window(mm) + [Some(x)]
    ensures r.window == mm.window && r.minCount == mm.minCount
    ensures r.complete <==> |mm.order| + 1 == mm.window
  {
    WithinCapacity(mm);
    var q: nat := |mm.s| + |mm.l|;
    var nodes1, s1, l1, sLeaf, lLeaf, y := AddLeaf(mm, q, x);
    var order := [q] + mm.order;
    var first := order[0];
    order := Rotate(order);
    var nodes, s, l := Helper(nodes1, s1, l1, sLeaf, lLeaf, first, Fin(x), y);
    r := mm.(nodes := nodes, s := s, l := l, order := order, sLeaf := sLeaf, lLeaf := lLeaf,
             complete := mm.complete || q + 1 >= mm.window);
    assert order == mm.order + [q];
    InsertedContents(mm, r, nodes1, q, x);
    NumbersKept(nodes1, nodes, s1, l1, s, l, q, x);
    assert multiset(order) == multiset(mm.order) + multiset{q};
  }

  /** The placement part of `mm_insert_init`: the node in slot `q` is
      appended to the large heap if the small heap is full or bigger, to the
      small heap otherwise, and the leaf index of that heap is recomputed.
      The ghost `y` is the extreme value under which the heaps are in order
      before the node gets its value. */
  method AddLeaf(mm: MM, q: nat, x: int)
    returns (nodes1: seq<Node>, s1: seq<nat>, l1: seq<nat>, sLeaf: nat, lLeaf: nat, ghost y: Ext)
    requires Valid(mm) && !mm.complete && |mm.s| > 0 && q == |mm.order|
    ensures q < |nodes1| && (q in s1 || q in l1)
    ensures HeapsOk(SetVal(nodes1, q, y), s1, l1)
    ensures multiset(s1) + multiset(l1) == multiset(mm.s) + multiset(mm.l) + multiset{q}
    ensures |nodes1| == |mm.nodes| && forall t :: 0 <= t < |mm.nodes| && t != q ==> nodes1[t].val == mm.nodes[t].val
    ensures |s1| > 0 ==> sLeaf == FirstLeaf(|s1|)
    ensures |l1| > 0 ==> lLeaf == FirstLeaf(|l1|)
    ensures |l1| <= |s1| <= |l1| + 1
    ensures forall t :: (t in s1 || t in l1) && t != q ==> t < |nodes1| && nodes1[t].val.Fin?
  {
    WithinCapacity(mm);
    assert q !in mm.s && q !in mm.l by {
      assert q !in mm.order;
      assert q !in multiset(mm.s) + multiset(mm.l);
    }
    if |mm.s| == mm.maxS || |mm.s| > |mm.l| {
      nodes1 := mm.nodes[q := Node(false, |mm.l|, Fin(x))];
      s1, l1 := mm.s, mm.l + [q];
      sLeaf, lLeaf := mm.sLeaf, FirstLeaf(|mm.l| + 1);
      y := PosInf;
      NewLeafOk(mm, nodes1, s1, l1, q, true, Fin(x), y);
    } else {
      nodes1 := mm.nodes[q := Node(true, |mm.s|, Fin(x))];
      s1, l1 := mm.s + [q], mm.l;
      sLeaf, lLeaf := FirstLeaf(|mm.s| + 1), mm.lLeaf;
      y := NegInf;
      NewLeafOk(mm, nodes1, s1, l1, q, false, Fin(x), y);
    }
  }

  /** The pool with the new leaf in place, its value standing in as the
      extreme of its heap, satisfies the helper's demand. */
  lemma NewLeafOk(mm: MM, nodes1: seq<Node>, s1: seq<nat>, l1: seq<nat>, q: nat, toLarge: bool, v: Ext, y: Ext)
    requires Valid(mm) && q == |mm.order| && q < mm.window && q !in mm.s && q !in mm.l
    requires toLarge ==> nodes1 == mm.nodes[q := Node(false, |mm.l|, v)] && s1 == mm.s && l1 == mm.l + [q] && y == PosInf
    requires !toLarge ==> nodes1 == mm.nodes[q := Node(true, |mm.s|, v)] && s1 == mm.s + [q] && l1 == mm.l && y == NegInf
    ensures HeapsOk(SetVal(nodes1, q, y), s1, l1)
  {
    var ny := SetVal(nodes1, q, y);
    if toLarge {
      assert Vals(ny, l1) == Vals(mm.nodes, mm.l) + [PosInf];
      assert Vals(ny, s1) == Vals(mm.nodes, mm.s);
      AppendWorst(false, Vals(mm.nodes, mm.l), PosInf);
    } else {
      assert Vals(ny, s1) == Vals(mm.nodes, mm.s) + [NegInf];
      assert Vals(ny, l1) == Vals(mm.nodes, mm.l);
      AppendWorst(true, Vals(mm.nodes, mm.s), NegInf);
    }
  }

  lemma InsertedContents(mm: MM, r: MM, nodes1: seq<Node>, q: nat, x: int)
    requires Valid(mm) && q == |mm.order| && q < mm.window
    requires |nodes1| == |mm.nodes| && forall t :: 0 <= t < |mm.nodes| && t != q ==> nodes1[t].val == mm.nodes[t].val
    requires |r.nodes| == |mm.nodes| && r.nodes[q].val == Fin(x)
    requires forall t :: 0 <= t < |mm.nodes| && t != q ==> r.nodes[t].val == nodes1[t].val
    requires r.order == mm.order + [q]
    ensures SlotsInUse(r.order)
    ensures Contents(r.nodes, r.order) == Contents(mm.nodes, mm.order) + [Some(x)]
  {
  }

  /** `mm_get_median`: NaN (`None`) while fewer than `min_count` values are
      in, otherwise the median of the window. */
  function GetMedian(mm: MM): (r: Option<real>)
    requires Valid(mm)
    ensures r.None? <==> |Window(mm)| < mm.minCount
    ensures r.Some? ==> IsMedian(Window(mm), r.value)
  {
    var ns, nl := |mm.s|, |mm.l|;
    var total := ns + nl;
    WithinCapacity(mm);
    if total < mm.minCount then None
    else
      var eff := if mm.window < total then mm.window else total;
      MedianAtHeads(mm);
      Some(ReadMedian(Head(mm.nodes, mm.s), Head(mm.nodes, mm.l), ns, nl, eff))
  }

  /** With all values numbers, the counts of numbers are the heap sizes, and
      the heads hold the median. */
  lemma MedianAtHeads(mm: MM)
    requires Valid(mm) && |mm.order| > 0
    ensures Present(mm.nodes, mm.s) == |mm.s| && Present(mm.nodes, mm.l) == |mm.l|
    ensures Readable(Head(mm.nodes, mm.s), Head(mm.nodes, mm.l), |mm.s|, |mm.l|, |mm.s| + |mm.l|)
    ensures IsMedian(Window(mm), ReadMedian(Head(mm.nodes, mm.s), Head(mm.nodes, mm.l), |mm.s|, |mm.l|, |mm.s| + |mm.l|))
  {
    WithinCapacity(mm);
    NumbersPresent(mm.nodes, mm.s);
    NumbersPresent(mm.nodes, mm.l);
    HeadsAreMedian(mm.nodes, mm.order, mm.s, mm.l);
  }

  lemma NumbersPresent(nodes: seq<Node>, heap: seq<nat>)
    requires AllNumbers(nodes, heap)
    ensures Present(nodes, heap) == |heap|
    ensures forall t :: t in heap ==> nodes[t].val != PosInf && nodes[t].val != NegInf
  {
    var w := Contents(nodes, heap);
    forall i | 0 <= i < |w|
      ensures w[i].Some?
    {
      assert heap[i] in heap;
    }
    CountWhereAll(w, (o: Option<int>) => o.Some?);
  }

  // ---------------------------------------------------------------------
  // The moving median over a whole slice.

  /** The last `window` entries of `xs`, or all of them while there are
      fewer. */
  function Last<T>(xs: seq<T>, window: nat): (w: seq<T>)
    ensures |w| == if |xs| < window then |xs| else window
    ensures forall i :: 0 <= i < |w| ==> w[i] == xs[|xs| - |w| + i]
  {
    if |xs| <= window then xs else xs[|xs| - window..]
  }

  function Numbers(xs: seq<int>): (w: seq<Option<int>>)
    ensures |w| == |xs| && forall i :: 0 <= i < |xs| ==> w[i] == Some(xs[i])
  {
    Map((x: int) => Some(x), xs)
  }

  /** What `move_median` must give for one window: NaN while the window
      holds fewer than `minCount` numbers, otherwise its median. */
  ghost predicate MovingMedianAt(w: seq<Option<int>>, minCount: nat, r: Option<real>) {
    && (r.None? <==> CountPresent(w) < minCount)
    && (r.Some? ==> IsMedian(w, r.value))
  }

  /** Every value in the window is a number. */
  lemma WindowAllNumbers(mm: MM)
    requires Valid(mm)
    ensures CountPresent(Window(mm)) == |Window(mm)|
  {
    var w := Window(mm);
    forall i | 0 <= i < |w|
      ensures w[i].Some?
    {
      var t := mm.order[i];
      assert t in multiset(mm.order);
      assert t in multiset(mm.s) || t in multiset(mm.l);
      assert t in mm.s || t in mm.l;
    }
    CountWhereAll(w, (o: Option<int>) => o.Some?);
  }

  /** Taking the last `window` entries twice is taking them once. */
  lemma LastOfLast<T>(xs: seq<T>, x: T, window: nat)
    requires window >= 1
    ensures Last(Last(xs, window) + [x], window) == Last(xs + [x], window)
  {
  }

  lemma NumbersSnoc(xs: seq<int>, i: int)
    requires 0 <= i < |xs|
    ensures Numbers(xs[..i + 1]) == Numbers(xs[..i]) + [Some(xs[i])]
  {
    assert xs[..i + 1] == xs[..i] + [xs[i]];
  }

  lemma MediansExtended(xs: seq<int>, window: nat, minCount: nat, ys: seq<Option<real>>, m: Option<real>)
    requires |ys| < |xs|
    requires forall j :: 0 <= j < |ys| ==> MovingMedianAt(Last(Numbers(xs[..j + 1]), window), minCount, ys[j])
    requires MovingMedianAt(Last(Numbers(xs[..|ys| + 1]), window), minCount, m)
    ensures forall j :: 0 <= j < |ys| + 1 ==> MovingMedianAt(Last(Numbers(xs[..j + 1]), window), minCount, (ys + [m])[j])
  {
    forall j | 0 <= j < |ys| + 1
      ensures MovingMedianAt(Last(Numbers(xs[..j + 1]), window), minCount, (ys + [m])[j])
    {
      if j < |ys| {
        assert (ys + [m])[j] == ys[j];
      }
    }
  }

  /** One value of the slice: `InsertInit` while the window is not
      complete, `Update` after, then `GetMedian`. */
  method Step(mm: MM, x: int) returns (r: MM, m: Option<real>)
    requires Valid(mm)
    ensures Valid(r) && r.window == mm.window && r.minCount == mm.minCount
    ensures Window(r) == Last(Window(mm) + [Some(x)], mm.window)
    ensures MovingMedianAt(Window(r), r.minCount, m)
  {
    if !mm.complete {
      r := InsertInit(mm, x);
    } else {
      r := Update(mm, x);
    }
    m := GetMedian(r);
    WindowAllNumbers(r);
  }

  /** The moving median of a NaN-free slice, driven the way the double heap
      is meant to be used: `InsertInit` until the window is complete, then
      `Update`, reading `GetMedian` after every value.  Entry `i` of the
      result is the median of the `window` values ending at `xs[i]`. */
  method MoveMedian(xs: seq<int>, window: nat, minCount: nat) returns (ys: seq<Option<real>>)
    requires window >= 1 && minCount >= 1
    ensures |ys| == |xs|
    ensures forall i :: 0 <= i < |xs| ==> MovingMedianAt(Last(Numbers(xs[..i + 1]), window), minCount, ys[i])
  {
    var mm := New(window, minCount);
    ys := [];
    assert Numbers(xs[..0]) == [];
    while |ys| < |xs|
      invariant |ys| <= |xs|
      invariant Driving(mm, xs, window, minCount, ys)
      decreases |xs| - |ys|
    {
      mm, ys := Drive(mm, xs, window, minCount, ys);
    }
  }

  /** The driver's loop invariant after `|ys|` values of `xs`. */
  ghost predicate Driving(mm: MM, xs: seq<int>, window: nat, minCount: nat, ys: seq<Option<real>>) {
    && |ys| <= |xs|
    && Valid(mm) && mm.window == window && mm.minCount == minCount
    && Window(mm) == Last(Numbers(xs[..|ys|]), window)
    && forall j :: 0 <= j < |ys| ==> MovingMedianAt(Last(Numbers(xs[..j + 1]), window), minCount, ys[j])
  }

  /** One turn of the driver's loop. */
  method Drive(mm: MM, xs: seq<int>, window: nat, minCount: nat, ys: seq<Option<real>>)
    returns (mm': MM, ys': seq<Option<real>>)
    requires |ys| < |xs| && Driving(mm, xs, window, minCount, ys)
    ensures |ys'| == |ys| + 1 && Driving(mm', xs, window, minCount, ys')
  {
    var i := |ys|;
    ghost var before := Numbers(xs[..i]);
    NumbersSnoc(xs, i);
    LastOfLast(before, Some(xs[i]), window);
    var m;
    mm', m := Step(mm, xs[i]);
    assert Window(mm') == Last(before + [Some(xs[i])], window);
    MediansExtended(xs, window, minCount, ys, m);
    ys' := ys + [m];
  }
}
