/** The NaN-aware moving-median double heap, `zz_*` in `move_median.c`.
    A NaN entering the window becomes -inf in the small heap or +inf in
    the large heap, so that it sits at the bottom of whichever heap holds
    it, and is listed in that heap's NaN list.  The median is read from the
    numbers only: `n_s - n_s_nan` of them in the small heap and
    `n_l - n_l_nan` in the large one, which the code keeps within one of
    each other by moving NaNs between the heaps. */
module NanHeap {

  import opened Wrappers
  import opened Counting
  import opened Heap8
  import opened TwoHeaps
  import opened Median
  import opened NanList
  import DoubleHeap

  /** `zz_handle`.  As in `DoubleHeap.MM`, with the two NaN lists
      `first_nan_s .. last_nan_s` and `first_nan_l .. last_nan_l` as
      `nanS` and `nanL`; their lengths are `n_s_nan` and `n_l_nan`. */
  datatype ZZ = ZZ(
    window: nat,
    minCount: nat,
    maxS: nat,
    nodes: seq<Node>,
    s: seq<nat>,
    l: seq<nat>,
    order: seq<nat>,
    sLeaf: nat,
    lLeaf: nat,
    complete: bool,
    nanS: seq<nat>,
    nanL: seq<nat>)

  /** The NaN bookkeeping: the small heap holds numbers and -inf, the large
      heap numbers and +inf, and each NaN list holds exactly the slots of
      its heap whose node is an infinity, each once. */
  ghost predicate Booked(nodes: seq<Node>, s: seq<nat>, l: seq<nat>, nanS: seq<nat>, nanL: seq<nat>) {
    && (forall t :: t in s ==> t < |nodes| && nodes[t].val != PosInf)
    && (forall t :: t in l ==> t < |nodes| && nodes[t].val != NegInf)
    && Distinct(nanS) && Distinct(nanL)
    && (forall t :: t in nanS <==> t in s && t < |nodes| && nodes[t].val == NegInf)
    && (forall t :: t in nanL <==> t in l && t < |nodes| && nodes[t].val == PosInf)
  }

  /** The balance the insertion rules keep, in terms of the heap sizes
      `ns`, `nl`, the NaN counts `ks`, `kl` and the number of values in the
      window.  While the small heap is not full, it holds as many numbers as
      the large heap or one more, and as many NaNs or one more.  Once it is
      full, the numbers differ by at most one, and by at least as many as
      the values still to come before the window is complete, less one:
      all of those will join the large heap. */
  ghost predicate Balanced(window: int, maxS: int, ns: int, nl: int, ks: int, kl: int, count: int) {
    var d := (ns - ks) - (nl - kl);
    if ns < maxS then 0 <= d <= 1 && 0 <= ks - kl <= 1
    else -1 <= d <= 1 && d - (window - count) >= -1
  }

  /** Everything of the invariant but the NaN bookkeeping and the balance:
      the heaps are in order and separated and hold exactly the listed
      slots, the leaf indices are current, the completion flag says whether
      the window is full, and each heap fits in its part of the slot
      array. */
  ghost predicate Shaped(zz: ZZ) {
    && zz.window >= 1 && zz.minCount >= 1
    && zz.maxS == DoubleHeap.SmallCapacity(zz.window)
    && |zz.nodes| == zz.window
    && |zz.order| <= zz.window
    && DoubleHeap.SlotsInUse(zz.order)
    && multiset(zz.order) == multiset(zz.s) + multiset(zz.l)
    && HeapsOk(zz.nodes, zz.s, zz.l)
    && (|zz.s| > 0 ==> zz.sLeaf == FirstLeaf(|zz.s|))
    && (|zz.l| > 0 ==> zz.lLeaf == FirstLeaf(|zz.l|))
    && |zz.s| <= zz.maxS && |zz.l| <= zz.window - zz.maxS
  }

  /** The invariant but for the completion flag. */
  ghost predicate Ready(zz: ZZ) {
    && Shaped(zz)
    && Booked(zz.nodes, zz.s, zz.l, zz.nanS, zz.nanL)
    && Balanced(zz.window, zz.maxS, |zz.s|, |zz.l|, |zz.nanS|, |zz.nanL|, |zz.order|)
  }

  /** The invariant of a handle between calls. */
  ghost predicate Valid(zz: ZZ) {
    && Ready(zz)
    && (zz.complete <==> |zz.order| == zz.window)
  }

  /** The values in the window, oldest first; `None` is a NaN. */
  function Window(zz: ZZ): seq<Option<int>> {
    Contents(zz.nodes, zz.order)
  }

  /** `nonnan_n_s` and `nonnan_n_l`. */
  function NumbersS(zz: ZZ): int {
    |zz.s| - |zz.nanS|
  }

  function NumbersL(zz: ZZ): int {
    |zz.l| - |zz.nanL|
  }

  /** Size facts that follow from the invariant: the heaps split the
      window, the NaN lists fit in their heaps, the small heap is empty
      only when the window is, and a complete window fills both heaps. */
  lemma Sizes(zz: ZZ)
    requires Valid(zz)
    ensures |zz.s| + |zz.l| == |zz.order|
    ensures |zz.nanS| <= |zz.s| && |zz.nanL| <= |zz.l|
    ensures |zz.s| == 0 ==> |zz.order| == 0
    ensures zz.complete ==> |zz.s| == zz.maxS && |zz.l| == zz.window - zz.maxS
  {
    assert |multiset(zz.order)| == |multiset(zz.s)| + |multiset(zz.l)|;
    DistinctSubsetLength(zz.nanS, zz.s);
    DistinctSubsetLength(zz.nanL, zz.l);
  }

  /** `zz_new` followed by `zz_reset`: an empty handle. */
  function New(window: nat, minCount: nat): (zz: ZZ)
    requires window >= 1 && minCount >= 1
    ensures Valid(zz) && zz.window == window && zz.minCount == minCount
    ensures Window(zz) == [] && !zz.complete
  {
    var maxS := DoubleHeap.SmallCapacity(window);
    ZZ(window, minCount, maxS, seq(window, _ => Node(true, 0, Fin(0))), [], [], [], 0, 0, false, [], [])
  }

  /** `zz_reset`: empty the handle for the next slice, keeping its size. */
  function Reset(zz: ZZ): (r: ZZ)
    requires Valid(zz)
    ensures Valid(r) && r.window == zz.window && r.minCount == zz.minCount
    ensures Window(r) == [] && !r.complete
  {
    zz.(s := [], l := [], order := [], complete := false, nanS := [], nanL := [])
  }

  // ---------------------------------------------------------------------
  // Reading the median.

  /** Is slot `t` a number? */
  function NumberAt(nodes: seq<Node>): nat -> bool {
    (t: nat) => t < |nodes| && nodes[t].val.Fin?
  }

  function NanAt(nodes: seq<Node>): nat -> bool {
    (t: nat) => !(t < |nodes| && nodes[t].val.Fin?)
  }

  lemma LinkedIsDistinct(nodes: seq<Node>, heap: seq<nat>, small: bool)
    requires Linked(nodes, heap, small)
    ensures Distinct(heap)
  {
    forall i, j | 0 <= i < j < |heap|
      ensures heap[i] != heap[j]
    {
      LinkedDistinct(nodes, heap, small, i, j);
    }
  }

  /** A heap's numbers are its nodes less its NaN list. */
  lemma NumbersInHeap(nodes: seq<Node>, heap: seq<nat>, small: bool, nans: seq<nat>)
    requires Linked(nodes, heap, small) && Distinct(nans)
    requires forall t :: t in heap ==> t < |nodes| && nodes[t].val != (if small then PosInf else NegInf)
    requires forall t :: t in nans <==> t in heap && t < |nodes| && nodes[t].val == (if small then NegInf else PosInf)
    ensures Present(nodes, heap) == |heap| - |nans|
  {
    LinkedIsDistinct(nodes, heap, small);
    CountWhereMap(SlotValue(nodes), heap, (o: Option<int>) => o.Some?, NumberAt(nodes));
    CountMembers(heap, nans, NanAt(nodes));
    CountWhereSplit(heap, NumberAt(nodes), NanAt(nodes));
  }

  lemma NumbersCounted(zz: ZZ)
    requires Valid(zz)
    ensures Present(zz.nodes, zz.s) == NumbersS(zz)
    ensures Present(zz.nodes, zz.l) == NumbersL(zz)
    ensures Present(zz.nodes, zz.order) == NumbersS(zz) + NumbersL(zz)
  {
    NumbersInHeap(zz.nodes, zz.s, true, zz.nanS);
    NumbersInHeap(zz.nodes, zz.l, false, zz.nanL);
    SplitCount(zz.nodes, zz.order, zz.s, zz.l, (o: Option<int>) => o.Some?);
  }

  /** `zz_get_median`: NaN (`None`) while the window holds fewer than
      `min_count` numbers, otherwise the median of its numbers. */
  function GetMedian(zz: ZZ): (r: Option<real>)
    requires Valid(zz)
    ensures r.None? <==> CountPresent(Window(zz)) < zz.minCount
    ensures r.Some? ==> IsMedian(Window(zz), r.value)
  {
    var ds, dl := NumbersS(zz), NumbersL(zz);
    var total := ds + dl;
    NumbersCounted(zz);
    if total < zz.minCount then None
    else
      var eff := if zz.window < total then zz.window else total;
      MedianAtHeads(zz);
      Some(ReadMedian(Head(zz.nodes, zz.s), Head(zz.nodes, zz.l), ds, dl, eff))
  }

  /** With at least one number in the window, the heads hold the median
      and the effective window is the number count. */
  lemma MedianAtHeads(zz: ZZ)
    requires Valid(zz) && NumbersS(zz) + NumbersL(zz) > 0
    ensures NumbersS(zz) + NumbersL(zz) <= zz.window
    ensures Readable(Head(zz.nodes, zz.s), Head(zz.nodes, zz.l), NumbersS(zz), NumbersL(zz), NumbersS(zz) + NumbersL(zz))
    ensures IsMedian(Window(zz), ReadMedian(Head(zz.nodes, zz.s), Head(zz.nodes, zz.l), NumbersS(zz), NumbersL(zz), NumbersS(zz) + NumbersL(zz)))
  {
    Sizes(zz);
    NumbersCounted(zz);
    HeadsAreMedian(zz.nodes, zz.order, zz.s, zz.l);
  }

  // ---------------------------------------------------------------------
  // Keeping the NaN lists right across `zz_update_helper`.

  lemma LinkedIgnoresVal(nodes: seq<Node>, heap: seq<nat>, small: bool, q: nat, v: Ext)
    requires q < |nodes|
    ensures Linked(SetVal(nodes, q, v), heap, small) <==> Linked(nodes, heap, small)
  {
  }

  /** The root that trades places with `q` holds a number: `q`'s new value
      belongs beyond it, so it is no infinity of its own heap's kind, and
      its heap holds no infinity of the other kind. */
  lemma TradedIsNumber(nodes0: seq<Node>, s0: seq<nat>, l0: seq<nat>, nanS0: seq<nat>, nanL0: seq<nat>,
                       s: seq<nat>, l: seq<nat>, q: nat, x: Ext)
    requires q < |nodes0| && (q in s0 || q in l0)
    requires Linked(nodes0, s0, true) && Linked(nodes0, l0, false)
    requires Booked(SetVal(nodes0, q, Fin(0)), s0, l0, nanS0, nanL0)
    requires HelperTraded(nodes0, s0, l0, s, l, q, x)
    ensures var o := if nodes0[q].small then l0[0] else s0[0];
            o != q && o < |nodes0| && nodes0[o].val.Fin?
    ensures nodes0[q].small ==> q in s0 && l0[0] in l0
    ensures !nodes0[q].small ==> q in l0 && s0[0] in s0
  {
    if nodes0[q].small {
      var o := l0[0];
      assert o in l0;
      assert !nodes0[o].small;
    } else {
      var o := s0[0];
      assert o in s0;
      assert nodes0[o].small;
    }
  }

  /** After the helper has moved `q`, which took the value `x` and was
      appended to the NaN list of `x`'s sign if `x` is an infinity, the
      bookkeeping holds again, provided `q` ended in the heap its value
      belongs to. */
  lemma Rebook(nodes0: seq<Node>, s0: seq<nat>, l0: seq<nat>, nanS0: seq<nat>, nanL0: seq<nat>,
               nodes: seq<Node>, s: seq<nat>, l: seq<nat>, nanS: seq<nat>, nanL: seq<nat>, q: nat, x: Ext)
    requires q < |nodes0| && (q in s0 || q in l0)
    requires Linked(nodes0, s0, true) && Linked(nodes0, l0, false)
    requires Booked(SetVal(nodes0, q, Fin(0)), s0, l0, nanS0, nanL0)
    requires nanS == if x == NegInf then nanS0 + [q] else nanS0
    requires nanL == if x == PosInf then nanL0 + [q] else nanL0
    requires HeapsOk(nodes, s, l) && |nodes| == |nodes0| && nodes[q].val == x
    requires forall t :: 0 <= t < |nodes0| && t != q ==> nodes[t].val == nodes0[t].val
    requires Kept(s0, l0, s, l) || HelperTraded(nodes0, s0, l0, s, l, q, x)
    requires x == NegInf ==> q in s
    requires x == PosInf ==> q in l
    ensures Booked(nodes, s, l, nanS, nanL)
  {
    var n0 := SetVal(nodes0, q, Fin(0));
    assert q !in nanS0 && q !in nanL0;
    var o := SlotsMoved(nodes0, s0, l0, nanS0, nanL0, nodes, s, l, q, x);
    forall t | t in s
      ensures t < |nodes| && nodes[t].val != PosInf
    {
      if t != q && t != o {
        assert n0[t] == nodes0[t];
      }
    }
    forall t | t in l
      ensures t < |nodes| && nodes[t].val != NegInf
    {
      if t != q && t != o {
        assert n0[t] == nodes0[t];
      }
    }
    forall t: nat
      ensures t in nanS <==> t in s && t < |nodes| && nodes[t].val == NegInf
    {
      if t != q && t != o && t < |n0| {
        assert n0[t] == nodes0[t];
      }
    }
    forall t: nat
      ensures t in nanL <==> t in l && t < |nodes| && nodes[t].val == PosInf
    {
      if t != q && t != o && t < |n0| {
        assert n0[t] == nodes0[t];
      }
    }
  }

  /** The slot `o` that traded heaps with `q`, or `q` itself if none did:
      it holds a number, and every other slot stayed in its heap. */
  lemma SlotsMoved(nodes0: seq<Node>, s0: seq<nat>, l0: seq<nat>, nanS0: seq<nat>, nanL0: seq<nat>,
                   nodes: seq<Node>, s: seq<nat>, l: seq<nat>, q: nat, x: Ext) returns (o: nat)
    requires q < |nodes0| && (q in s0 || q in l0)
    requires Linked(nodes0, s0, true) && Linked(nodes0, l0, false)
    requires Booked(SetVal(nodes0, q, Fin(0)), s0, l0, nanS0, nanL0)
    requires |nodes| == |nodes0|
    requires forall t :: 0 <= t < |nodes0| && t != q ==> nodes[t].val == nodes0[t].val
    requires Kept(s0, l0, s, l) || HelperTraded(nodes0, s0, l0, s, l, q, x)
    ensures o != q ==> o < |nodes| && nodes[o].val.Fin?
    ensures forall t :: t != q && t != o ==> (t in s <==> t in s0) && (t in l <==> t in l0)
  {
    o := q;
    if !Kept(s0, l0, s, l) {
      TradedIsNumber(nodes0, s0, l0, nanS0, nanL0, s, l, q, x);
      o := if nodes0[q].small then l0[0] else s0[0];
    }
    forall t | t != q && t != o
      ensures (t in s <==> t in s0) && (t in l <==> t in l0)
    {
      assert t in s <==> t in multiset(s);
      assert t in l <==> t in multiset(l);
      assert t in s0 <==> t in multiset(s0);
      assert t in l0 <==> t in multiset(l0);
    }
  }

  /** A heap with more nodes than NaN-list entries holds a number. */
  lemma FinWitness(nodes: seq<Node>, heap: seq<nat>, nans: seq<nat>) returns (a: nat)
    requires Distinct(heap) && |heap| > |nans|
    requires forall t :: t in heap ==> t < |nodes| && (nodes[t].val.Fin? || t in nans)
    ensures a in heap && a < |nodes| && nodes[a].val.Fin?
  {
    if forall t :: t in heap ==> t in nans {
      DistinctSubsetLength(heap, nans);
      assert false;
    }
    a :| a in heap && a !in nans;
  }

  /** Without a trade, a slot of the small heap still holds no more than
      a slot of the large heap. */
  lemma KeptApart(nodes: seq<Node>, s0: seq<nat>, l0: seq<nat>, s: seq<nat>, l: seq<nat>, a: nat, b: nat)
    requires HeapsOk(nodes, s, l) && a in s0 && b in l0 && a < |nodes| && b < |nodes|
    ensures Kept(s0, l0, s, l) ==> !Before(true, nodes[a].val, nodes[b].val)
  {
    if Kept(s0, l0, s, l) {
      assert a in multiset(s) && b in multiset(l);
    }
  }

  /** Where `zz_update_helper` leaves a node that took an infinity: -inf
      ends in the small heap and +inf in the large one.  An infinity that
      starts in the wrong heap is traded with the other root, which the
      callers guarantee by having a number in the heap it must go to. */
  lemma Placed(nodes0: seq<Node>, s0: seq<nat>, l0: seq<nat>, nanS0: seq<nat>, nanL0: seq<nat>,
               nodes: seq<Node>, s: seq<nat>, l: seq<nat>, q: nat, x: Ext)
    requires q < |nodes0| && (q in s0 || q in l0)
    requires Linked(nodes0, s0, true) && Linked(nodes0, l0, false)
    requires Booked(SetVal(nodes0, q, Fin(0)), s0, l0, nanS0, nanL0)
    requires HeapsOk(nodes, s, l) && |nodes| == |nodes0| && nodes[q].val == x
    requires forall t :: 0 <= t < |nodes0| && t != q ==> nodes[t].val == nodes0[t].val
    requires Kept(s0, l0, s, l) || HelperTraded(nodes0, s0, l0, s, l, q, x)
    requires x == NegInf && q in l0 ==> |s0| > |nanS0|
    requires x == PosInf && q in s0 ==> |l0| > |nanL0|
    ensures x == NegInf ==> q in s
    ensures x == PosInf ==> q in l
  {
    var n0 := SetVal(nodes0, q, Fin(0));
    assert q in s0 <==> nodes0[q].small;
    if x == NegInf && q in l0 {
      LinkedIsDistinct(nodes0, s0, true);
      var a := FinWitness(n0, s0, nanS0);
      assert a != q && nodes[a].val.Fin?;
      KeptApart(nodes, s0, l0, s, l, a, q);
      assert q in multiset(s);
    } else if x == PosInf && q in s0 {
      LinkedIsDistinct(nodes0, l0, false);
      var a := FinWitness(n0, l0, nanL0);
      assert a != q && nodes[a].val.Fin?;
      KeptApart(nodes, s0, l0, s, l, q, a);
      assert q in multiset(l);
    } else if x == NegInf || x == PosInf {
      assert Kept(s0, l0, s, l);
      assert q in multiset(s) || q in multiset(l);
    }
  }

  // ---------------------------------------------------------------------
  // Replacing the oldest value.

  /** `zz_update_nonan`: the oldest node becomes the newest, takes `x` and
      is sifted into place.  `y` is the value the node is taken to hold
      beforehand, which may differ from its stored value where a caller has
      already given it a stand-in. */
  method UpdateNonan(zz: ZZ, x: Ext, ghost y: Ext) returns (r: ZZ)
    requires |zz.order| > 0 && zz.order[0] < |zz.nodes|
    requires zz.order[0] in zz.s || zz.order[0] in zz.l
    requires HeapsOk(SetVal(zz.nodes, zz.order[0], y), zz.s, zz.l)
    requires |zz.s| > 0 ==> zz.sLeaf == FirstLeaf(|zz.s|)
    requires |zz.l| > 0 ==> zz.lLeaf == FirstLeaf(|zz.l|)
    ensures r.order == zz.order[1..] + [zz.order[0]]
    ensures HeapsOk(r.nodes, r.s, r.l)
    ensures |r.s| == |zz.s| && |r.l| == |zz.l|
    ensures multiset(r.s) + multiset(r.l) == multiset(zz.s) + multiset(zz.l)
    ensures |r.nodes| == |zz.nodes| && r.nodes[zz.order[0]].val == x
    ensures forall t :: 0 <= t < |zz.nodes| && t != zz.order[0] ==> r.nodes[t].val == zz.nodes[t].val
    ensures Kept(zz.s, zz.l, r.s, r.l) || HelperTraded(zz.nodes, zz.s, zz.l, r.s, r.l, zz.order[0], x)
    ensures r == zz.(nodes := r.nodes, s := r.s, l := r.l, order := r.order)
  {
    var q := zz.order[0];
    var order := DoubleHeap.Rotate(zz.order);
    var nodes, s, l := Helper(zz.nodes, zz.s, zz.l, zz.sLeaf, zz.lLeaf, q, x, y);
    r := zz.(nodes := nodes, s := s, l := l, order := order);
  }

  /** `zz_update_withnan_skipevict`: as `UpdateNonan`, but an infinity is
      first appended to the NaN list of its sign.  The caller has taken
      the oldest node off its NaN list already (`Booked` holds with that
      node counted as a number) and guarantees a number in the heap an
      infinity must be traded into. */
  method SkipEvict(zz: ZZ, x: Ext, ghost y: Ext) returns (r: ZZ)
    requires |zz.order| > 0 && zz.order[0] < |zz.nodes|
    requires zz.order[0] in zz.s || zz.order[0] in zz.l
    requires HeapsOk(SetVal(zz.nodes, zz.order[0], y), zz.s, zz.l)
    requires |zz.s| > 0 ==> zz.sLeaf == FirstLeaf(|zz.s|)
    requires |zz.l| > 0 ==> zz.lLeaf == FirstLeaf(|zz.l|)
    requires Booked(SetVal(zz.nodes, zz.order[0], Fin(0)), zz.s, zz.l, zz.nanS, zz.nanL)
    requires x == NegInf && zz.order[0] in zz.l ==> |zz.s| > |zz.nanS|
    requires x == PosInf && zz.order[0] in zz.s ==> |zz.l| > |zz.nanL|
    ensures r.order == zz.order[1..] + [zz.order[0]]
    ensures HeapsOk(r.nodes, r.s, r.l) && Booked(r.nodes, r.s, r.l, r.nanS, r.nanL)
    ensures |r.s| == |zz.s| && |r.l| == |zz.l|
    ensures multiset(r.s) + multiset(r.l) == multiset(zz.s) + multiset(zz.l)
    ensures |r.nodes| == |zz.nodes| && r.nodes[zz.order[0]].val == x
    ensures forall t :: 0 <= t < |zz.nodes| && t != zz.order[0] ==> r.nodes[t].val == zz.nodes[t].val
    ensures |r.nanS| == |zz.nanS| + (if x == NegInf then 1 else 0)
    ensures |r.nanL| == |zz.nanL| + (if x == PosInf then 1 else 0)
    ensures r.window == zz.window && r.minCount == zz.minCount && r.maxS == zz.maxS
    ensures r.sLeaf == zz.sLeaf && r.lLeaf == zz.lLeaf && r.complete == zz.complete
  {
    var q := zz.order[0];
    var nanS, nanL := zz.nanS, zz.nanL;
    if !x.Fin? {
      if x == PosInf {
        nanL := nanL + [q];
      } else {
        nanS := nanS + [q];
      }
    }
    r := UpdateNonan(zz.(nanS := nanS, nanL := nanL), x, y);
    LinkedIgnoresVal(zz.nodes, zz.s, true, q, y);
    LinkedIgnoresVal(zz.nodes, zz.l, false, q, y);
    Placed(zz.nodes, zz.s, zz.l, zz.nanS, zz.nanL, r.nodes, r.s, r.l, q, x);
    Rebook(zz.nodes, zz.s, zz.l, zz.nanS, zz.nanL, r.nodes, r.s, r.l, r.nanS, r.nanL, q, x);
  }

  // ---------------------------------------------------------------------
  // Facts the update and insert operations share.

  /** Each NaN list fits in its heap. */
  lemma ListsFit(nodes: seq<Node>, s: seq<nat>, l: seq<nat>, nanS: seq<nat>, nanL: seq<nat>)
    requires Booked(nodes, s, l, nanS, nanL)
    ensures |nanS| <= |s| && |nanL| <= |l|
  {
    DistinctSubsetLength(nanS, s);
    DistinctSubsetLength(nanL, l);
  }

  /** A heap with a number in slot `q` has fewer NaNs than nodes. */
  lemma NumberBesideNans(heap: seq<nat>, nans: seq<nat>, q: nat)
    requires Distinct(nans) && (forall t :: t in nans ==> t in heap)
    requires q in heap && q !in nans
    ensures |nans| < |heap|
  {
    DistinctSubsetLength(nans, Without(heap, q));
  }

  /** Taking slot `q` off the NaN lists books it as a number. */
  lemma Unlisted(nodes: seq<Node>, s: seq<nat>, l: seq<nat>, nanS: seq<nat>, nanL: seq<nat>,
                 q: nat, nanS': seq<nat>, nanL': seq<nat>)
    requires Booked(nodes, s, l, nanS, nanL) && q < |nodes|
    requires Distinct(nanS') && Distinct(nanL')
    requires forall t :: t in nanS' <==> t in nanS && t != q
    requires forall t :: t in nanL' <==> t in nanL && t != q
    ensures Booked(SetVal(nodes, q, Fin(0)), s, l, nanS', nanL')
  {
  }

  /** Nothing but the numbers of the nodes matters to the window. */
  lemma SameContents(nodes0: seq<Node>, nodes: seq<Node>, order: seq<nat>)
    requires |nodes| == |nodes0|
    requires forall t :: 0 <= t < |nodes| ==> Decode(nodes[t].val) == Decode(nodes0[t].val)
    ensures Contents(nodes, order) == Contents(nodes0, order)
  {
  }

  /** The oldest slot, which took `x`, is now the newest: the window
      drops its first value and gains `x`'s. */
  lemma Shifted(nodes0: seq<Node>, order0: seq<nat>, nodes: seq<Node>, order: seq<nat>, x: Ext)
    requires |order0| > 0 && DoubleHeap.SlotsInUse(order0) && |order0| <= |nodes0|
    requires order == order0[1..] + [order0[0]]
    requires |nodes| == |nodes0| && nodes[order0[0]].val == x
    requires forall t :: 0 <= t < |nodes0| && t != order0[0] ==> nodes[t].val == nodes0[t].val
    ensures DoubleHeap.SlotsInUse(order)
    ensures Contents(nodes, order) == Contents(nodes0, order0)[1..] + [Decode(x)]
  {
    forall i | 1 <= i < |order0|
      ensures order0[i] != order0[0]
    {
    }
  }

  /** A new slot `q` at the end of the window, holding `x`, adds `x`'s
      value at the end. */
  lemma Appended(nodes0: seq<Node>, order0: seq<nat>, nodes: seq<Node>, q: nat, x: Ext)
    requires DoubleHeap.SlotsInUse(order0) && q == |order0| && q < |nodes0|
    requires |nodes| == |nodes0| && nodes[q].val == x
    requires forall t :: 0 <= t < |nodes0| && t != q ==> nodes[t].val == nodes0[t].val
    ensures DoubleHeap.SlotsInUse(order0 + [q])
    ensures Contents(nodes, order0 + [q]) == Contents(nodes0, order0) + [Decode(x)]
  {
  }

  /** Which list the oldest node is on, told as the code tells it: by its
      value being infinite and by the heap it is in. */
  lemma EvictedNan(zz: ZZ)
    requires Valid(zz) && |zz.order| > 0
    ensures zz.order[0] < |zz.nodes| && (zz.order[0] in zz.s || zz.order[0] in zz.l)
    ensures zz.order[0] in zz.s <==> zz.nodes[zz.order[0]].small
    ensures zz.order[0] in zz.nanS <==> !zz.nodes[zz.order[0]].val.Fin? && zz.nodes[zz.order[0]].small
    ensures zz.order[0] in zz.nanL <==> !zz.nodes[zz.order[0]].val.Fin? && !zz.nodes[zz.order[0]].small
  {
    var q := zz.order[0];
    assert q in multiset(zz.order);
    assert q in multiset(zz.s) || q in multiset(zz.l);
  }

  /** `zz_update_withnan`: the oldest node leaves its NaN list if it is
      on one, then `SkipEvict` puts `x` in it.  The caller guarantees a
      number in the heap an infinity must be traded into. */
  method UpdateWithNan(zz: ZZ, x: Ext) returns (r: ZZ)
    requires Valid(zz) && zz.complete
    requires x == NegInf && zz.order[0] in zz.l ==> NumbersS(zz) > 0
    requires x == PosInf && zz.order[0] in zz.s ==> NumbersL(zz) > 0
    ensures Shaped(r) && Booked(r.nodes, r.s, r.l, r.nanS, r.nanL)
    ensures Window(r) == Window(zz)[1..] + [Decode(x)]
    ensures |r.s| == |zz.s| && |r.l| == |zz.l| && |r.order| == |zz.order|
    ensures |r.nanS| == |zz.nanS| - (if zz.order[0] in zz.nanS then 1 else 0) + (if x == NegInf then 1 else 0)
    ensures |r.nanL| == |zz.nanL| - (if zz.order[0] in zz.nanL then 1 else 0) + (if x == PosInf then 1 else 0)
    ensures r.window == zz.window && r.minCount == zz.minCount && r.maxS == zz.maxS && r.complete
  {
    Sizes(zz);
    var q := zz.order[0];
    var nanS, nanL := Unlink(zz);
    EvictedNan(zz);
    assert SetVal(zz.nodes, q, zz.nodes[q].val) == zz.nodes;
    r := SkipEvict(zz.(nanS := nanS, nanL := nanL), x, zz.nodes[q].val);
    Shifted(zz.nodes, zz.order, r.nodes, r.order, x);
    assert r.order == DoubleHeap.Rotate(zz.order);
  }

  /** The list part of `zz_update_withnan`: if the oldest node is
      infinite it is unlinked from the NaN list of its heap. */
  method Unlink(zz: ZZ) returns (nanS: seq<nat>, nanL: seq<nat>)
    requires Valid(zz) && |zz.order| > 0
    ensures zz.order[0] < |zz.nodes|
    ensures Booked(SetVal(zz.nodes, zz.order[0], Fin(0)), zz.s, zz.l, nanS, nanL)
    ensures |nanS| == |zz.nanS| - (if zz.order[0] in zz.nanS then 1 else 0)
    ensures |nanL| == |zz.nanL| - (if zz.order[0] in zz.nanL then 1 else 0)
  {
    EvictedNan(zz);
    var q := zz.order[0];
    nanS, nanL := zz.nanS, zz.nanL;
    if !zz.nodes[q].val.Fin? {
      if zz.nodes[q].small {
        WithoutDistinct(nanS, q);
        nanS := Without(nanS, q);
      } else {
        WithoutDistinct(nanL, q);
        nanL := Without(nanL, q);
      }
    }
    Unlisted(zz.nodes, zz.s, zz.l, zz.nanS, zz.nanL, q, nanS, nanL);
  }

  // ---------------------------------------------------------------------
  // Moving a NaN between the heaps.

  /** `move_nan_helper`: the NaN in slot `p`, already moved to the end of
      the other NaN list, flips its infinity and is sifted, which takes it
      to the other heap.  `nanS0` and `nanL0` are the lists without `p`. */
  method MoveNanHelper(zz: ZZ, p: nat, ghost nanS0: seq<nat>, ghost nanL0: seq<nat>) returns (r: ZZ)
    requires Shaped(zz) && p < |zz.nodes|
    requires (p in zz.s && zz.nodes[p].val == NegInf) || (p in zz.l && zz.nodes[p].val == PosInf)
    requires Booked(SetVal(zz.nodes, p, Fin(0)), zz.s, zz.l, nanS0, nanL0)
    requires p in zz.s ==> zz.nanS == nanS0 && zz.nanL == nanL0 + [p] && |zz.l| > |nanL0|
    requires p in zz.l ==> zz.nanL == nanL0 && zz.nanS == nanS0 + [p] && |zz.s| > |nanS0|
    ensures Shaped(r) && Booked(r.nodes, r.s, r.l, r.nanS, r.nanL)
    ensures Window(r) == Window(zz)
    ensures |r.s| == |zz.s| && |r.l| == |zz.l| && r.nanS == zz.nanS && r.nanL == zz.nanL
    ensures r == zz.(nodes := r.nodes, s := r.s, l := r.l)
  {
    var x := if zz.nodes[p].val == NegInf then PosInf else NegInf;
    assert SetVal(zz.nodes, p, zz.nodes[p].val) == zz.nodes;
    var nodes, s, l := Helper(zz.nodes, zz.s, zz.l, zz.sLeaf, zz.lLeaf, p, x, zz.nodes[p].val);
    Placed(zz.nodes, zz.s, zz.l, nanS0, nanL0, nodes, s, l, p, x);
    Rebook(zz.nodes, zz.s, zz.l, nanS0, nanL0, nodes, s, l, zz.nanS, zz.nanL, p, x);
    SameContents(zz.nodes, nodes, zz.order);
    r := zz.(nodes := nodes, s := s, l := l);
  }

  /** The first entry of a list without duplicates is not in the rest. */
  lemma PopDistinct(xs: seq<nat>)
    requires Distinct(xs) && |xs| > 0
    ensures Distinct(xs[1..]) && forall t :: t in xs[1..] <==> t in xs && t != xs[0]
  {
    forall t | t in xs[1..]
      ensures t != xs[0]
    {
      var i :| 0 <= i < |xs| - 1 && xs[1..][i] == t;
      assert xs[i + 1] == t;
    }
  }

  /** `move_nan_from_s_to_l`: the oldest NaN of the small heap becomes the
      newest NaN of the large heap.  It needs a number in the large heap to
      trade places with. */
  method MoveNanFromSToL(zz: ZZ) returns (r: ZZ)
    requires Shaped(zz) && Booked(zz.nodes, zz.s, zz.l, zz.nanS, zz.nanL)
    requires |zz.nanS| > 0 && NumbersL(zz) > 0
    ensures Shaped(r) && Booked(r.nodes, r.s, r.l, r.nanS, r.nanL)
    ensures Window(r) == Window(zz) && r.order == zz.order
    ensures |r.s| == |zz.s| && |r.l| == |zz.l|
    ensures |r.nanS| == |zz.nanS| - 1 && |r.nanL| == |zz.nanL| + 1
    ensures r.window == zz.window && r.minCount == zz.minCount && r.maxS == zz.maxS && r.complete == zz.complete
  {
    var p := zz.nanS[0];
    assert p in zz.nanS && p in zz.s;
    assert p !in zz.l by {
      assert zz.nodes[p].small;
    }
    PopDistinct(zz.nanS);
    Unlisted(zz.nodes, zz.s, zz.l, zz.nanS, zz.nanL, p, zz.nanS[1..], zz.nanL);
    r := MoveNanHelper(zz.(nanS := zz.nanS[1..], nanL := zz.nanL + [p]), p, zz.nanS[1..], zz.nanL);
  }

  /** `move_nan_from_l_to_s`: the mirror image. */
  method MoveNanFromLToS(zz: ZZ) returns (r: ZZ)
    requires Shaped(zz) && Booked(zz.nodes, zz.s, zz.l, zz.nanS, zz.nanL)
    requires |zz.nanL| > 0 && NumbersS(zz) > 0
    ensures Shaped(r) && Booked(r.nodes, r.s, r.l, r.nanS, r.nanL)
    ensures Window(r) == Window(zz) && r.order == zz.order
    ensures |r.s| == |zz.s| && |r.l| == |zz.l|
    ensures |r.nanL| == |zz.nanL| - 1 && |r.nanS| == |zz.nanS| + 1
    ensures r.window == zz.window && r.minCount == zz.minCount && r.maxS == zz.maxS && r.complete == zz.complete
  {
    var p := zz.nanL[0];
    assert p in zz.nanL && p in zz.l;
    assert p !in zz.s by {
      assert !zz.nodes[p].small;
    }
    PopDistinct(zz.nanL);
    Unlisted(zz.nodes, zz.s, zz.l, zz.nanS, zz.nanL, p, zz.nanS, zz.nanL[1..]);
    r := MoveNanHelper(zz.(nanL := zz.nanL[1..], nanS := zz.nanS + [p]), p, zz.nanS, zz.nanL[1..]);
  }

  // ---------------------------------------------------------------------
  // The full window.

  /** `zz_update_checknan`: the oldest value leaves and `x` enters.  A NaN
      goes to the small heap as -inf when, counting the departing value
      out, the small heap would hold more numbers, and to the large heap as
      +inf otherwise.  If the number counts then differ by two, a NaN moves
      from the heap with fewer numbers to the other. */
  method UpdateCheckNan(zz: ZZ, x: Option<int>) returns (r: ZZ)
    requires Valid(zz) && zz.complete
    ensures Valid(r) && r.complete
    ensures Window(r) == Window(zz)[1..] + [x]
    ensures r.window == zz.window && r.minCount == zz.minCount
  {
    Sizes(zz);
    EvictedNan(zz);
    var q := zz.order[0];
    var v: Ext;
    if x.None? {
      var evictS := if !zz.nodes[q].val.Fin? && zz.nodes[q].small then 1 else 0;
      var evictL := if !zz.nodes[q].val.Fin? && !zz.nodes[q].small then 1 else 0;
      if NumbersS(zz) + evictS > NumbersL(zz) + evictL {
        v := NegInf;
      } else {
        v := PosInf;
        if q in zz.s && evictS == 0 {
          NumberBesideNans(zz.s, zz.nanS, q);
        }
      }
    } else {
      v := Fin(x.value);
    }
    var r1 := UpdateWithNan(zz, v);
    r := Rebalance(r1);
  }

  /** The end of `zz_update_checknan`: with the window full and the number
      counts at most two apart, a NaN moves from the heap with fewer
      numbers to the other when they are two apart. */
  method Rebalance(zz: ZZ) returns (r: ZZ)
    requires Shaped(zz) && Booked(zz.nodes, zz.s, zz.l, zz.nanS, zz.nanL)
    requires zz.complete && |zz.order| == zz.window
    requires -2 <= NumbersS(zz) - NumbersL(zz) <= 2
    ensures Valid(r) && r.complete && Window(r) == Window(zz)
    ensures r.window == zz.window && r.minCount == zz.minCount
  {
    ListsFit(zz.nodes, zz.s, zz.l, zz.nanS, zz.nanL);
    assert |zz.s| + |zz.l| == |zz.order| by {
      assert |multiset(zz.order)| == |multiset(zz.s)| + |multiset(zz.l)|;
    }
    if NumbersL(zz) == NumbersS(zz) + 2 {
      r := MoveNanFromSToL(zz);
    } else if NumbersS(zz) == NumbersL(zz) + 2 {
      r := MoveNanFromLToS(zz);
    } else {
      r := zz;
    }
  }

  // ---------------------------------------------------------------------
  // Filling the window.

  /** The balance after a NaN joins a window that is not yet full: it goes
      to the large heap when the small heap is full or has more NaNs, unless
      the large heap is full. */
  lemma NanInsertBalance(window: int, maxS: int, ns: int, nl: int, ks: int, kl: int)
    requires window <= 2 * maxS <= window + 1
    requires Balanced(window, maxS, ns, nl, ks, kl, ns + nl)
    requires ns + nl < window && 1 <= ns <= maxS && 0 <= nl <= window - maxS
    requires 0 <= ks <= ns && 0 <= kl <= nl
    ensures var toLarge := (ns == maxS || ks > kl) && nl != window - maxS;
            && (toLarge ==> nl + 1 <= window - maxS && Balanced(window, maxS, ns, nl + 1, ks, kl + 1, ns + nl + 1))
            && (!toLarge ==> ns + 1 <= maxS && Balanced(window, maxS, ns + 1, nl, ks + 1, kl, ns + nl + 1))
  {
  }

  /** The balance after a number joins a window that is not yet full: it
      goes to the large heap when the small heap is full or has more
      numbers. */
  lemma NumberInsertBalance(window: int, maxS: int, ns: int, nl: int, ks: int, kl: int)
    requires window <= 2 * maxS <= window + 1
    requires Balanced(window, maxS, ns, nl, ks, kl, ns + nl)
    requires ns + nl < window && 1 <= ns <= maxS && 0 <= nl <= window - maxS
    requires 0 <= ks <= ns && 0 <= kl <= nl
    ensures var toLarge := ns == maxS || ns - ks > nl - kl;
            && (toLarge ==> nl + 1 <= window - maxS && Balanced(window, maxS, ns, nl + 1, ks, kl, ns + nl + 1))
            && (!toLarge ==> ns + 1 <= maxS && Balanced(window, maxS, ns + 1, nl, ks, kl, ns + nl + 1))
  {
  }

  /** A new last node in slot `q`, taken to hold the extreme value `y` of
      the heap it joins, leaves the heaps in order and is booked as a
      number. */
  lemma NewLeaf(zz: ZZ, nodes1: seq<Node>, s1: seq<nat>, l1: seq<nat>, q: nat, toLarge: bool, v: Ext, y: Ext)
    requires Valid(zz) && q == |zz.order| && q < zz.window
    requires toLarge ==> nodes1 == zz.nodes[q := Node(false, |zz.l|, v)] && s1 == zz.s && l1 == zz.l + [q] && y == PosInf
    requires !toLarge ==> nodes1 == zz.nodes[q := Node(true, |zz.s|, v)] && s1 == zz.s + [q] && l1 == zz.l && y == NegInf
    ensures q !in zz.s && q !in zz.l
    ensures HeapsOk(SetVal(nodes1, q, y), s1, l1)
    ensures Booked(SetVal(nodes1, q, Fin(0)), s1, l1, zz.nanS, zz.nanL)
  {
    assert q !in zz.s && q !in zz.l by {
      assert q !in zz.order;
      assert q !in multiset(zz.s) + multiset(zz.l);
    }
    var ny := SetVal(nodes1, q, y);
    if toLarge {
      assert Vals(ny, l1) == Vals(zz.nodes, zz.l) + [PosInf];
      assert Vals(ny, s1) == Vals(zz.nodes, zz.s);
      AppendWorst(false, Vals(zz.nodes, zz.l), PosInf);
    } else {
      assert Vals(ny, s1) == Vals(zz.nodes, zz.s) + [NegInf];
      assert Vals(ny, l1) == Vals(zz.nodes, zz.l);
      AppendWorst(true, Vals(zz.nodes, zz.s), NegInf);
    }
  }

  /** `zz_insert_nan`: a NaN joins a window that is not yet full, in the
      next unused slot, as +inf in the large heap or -inf in the small
      heap by the rule of `NanInsertBalance`. */
  method InsertNan(zz: ZZ) returns (r: ZZ)
    requires Valid(zz) && !zz.complete && |zz.s| > 0
    ensures Ready(r) && Window(r) == Window(zz) + [None]
    ensures r.window == zz.window && r.minCount == zz.minCount && r.complete == zz.complete
  {
    var q: nat := |zz.s| + |zz.l|;
    var z1, v := AddNanLeaf(zz);
    r := SkipEvict(z1, v, v);
    assert r.order == zz.order + [q];
    Appended(zz.nodes, zz.order, r.nodes, q, v);
    assert multiset(r.order) == multiset(zz.order) + multiset{q};
  }

  /** The placement part of `zz_insert_nan`: the large heap if the small
      heap is full or holds more NaNs and the large heap is not full, the
      small heap otherwise, with the infinity of that heap. */
  method AddNanLeaf(zz: ZZ) returns (z1: ZZ, v: Ext)
    requires Valid(zz) && !zz.complete && |zz.s| > 0
    ensures LeafAdded(zz, z1, v)
    ensures v == NegInf ==> |zz.order| in z1.s && |zz.order| !in z1.l
    ensures v == PosInf ==> |zz.order| in z1.l && |zz.order| !in z1.s
    ensures v == NegInf || v == PosInf
    ensures |z1.s| <= zz.maxS && |z1.l| <= zz.window - zz.maxS
    ensures Balanced(zz.window, zz.maxS, |z1.s|, |z1.l|, |zz.nanS| + (if v == NegInf then 1 else 0),
                     |zz.nanL| + (if v == PosInf then 1 else 0), |zz.order| + 1)
  {
    Sizes(zz);
    var lFull := |zz.l| == zz.window - zz.maxS;
    var sFull := |zz.s| == zz.maxS;
    NanInsertBalance(zz.window, zz.maxS, |zz.s|, |zz.l|, |zz.nanS|, |zz.nanL|);
    var toLarge := (sFull || |zz.nanS| > |zz.nanL|) && !lFull;
    v := if toLarge then PosInf else NegInf;
    z1 := WithLeaf(zz, toLarge, v);
    LeafAddedOk(zz, toLarge, v, v);
  }

  /** The number branch of `zz_insert_init` after the first node: the
      node in the next unused slot joins the heaps by the rule of
      `NumberInsertBalance` and `zz_update_nonan` gives it `x`. */
  method InsertNumber(zz: ZZ, x: int) returns (r: ZZ)
    requires Valid(zz) && !zz.complete && |zz.s| > 0
    ensures Ready(r) && Window(r) == Window(zz) + [Some(x)]
    ensures r.window == zz.window && r.minCount == zz.minCount && r.complete == zz.complete
  {
    var q: nat := |zz.s| + |zz.l|;
    var z1, y := AddNumberLeaf(zz, x);
    r := UpdateNonan(z1, Fin(x), y);
    LinkedIgnoresVal(z1.nodes, z1.s, true, q, y);
    LinkedIgnoresVal(z1.nodes, z1.l, false, q, y);
    Rebook(z1.nodes, z1.s, z1.l, z1.nanS, z1.nanL, r.nodes, r.s, r.l, r.nanS, r.nanL, q, Fin(x));
    assert r.order == zz.order + [q];
    Appended(zz.nodes, zz.order, r.nodes, q, Fin(x));
    assert multiset(r.order) == multiset(zz.order) + multiset{q};
  }

  /** The placement part of the number branch: the large heap if the
      small heap is full or holds more numbers, the small heap otherwise.
      The ghost `y` is the extreme value under which the heaps are in order
      before the node gets its value. */
  method AddNumberLeaf(zz: ZZ, x: int) returns (z1: ZZ, ghost y: Ext)
    requires Valid(zz) && !zz.complete && |zz.s| > 0
    ensures LeafAdded(zz, z1, y)
    ensures |z1.s| <= zz.maxS && |z1.l| <= zz.window - zz.maxS
    ensures Balanced(zz.window, zz.maxS, |z1.s|, |z1.l|, |zz.nanS|, |zz.nanL|, |zz.order| + 1)
  {
    Sizes(zz);
    NumberInsertBalance(zz.window, zz.maxS, |zz.s|, |zz.l|, |zz.nanS|, |zz.nanL|);
    var toLarge := |zz.s| == zz.maxS || NumbersS(zz) > NumbersL(zz);
    y := if toLarge then PosInf else NegInf;
    z1 := WithLeaf(zz, toLarge, Fin(x));
    LeafAddedOk(zz, toLarge, Fin(x), y);
  }

  /** What adding the node in the next unused slot as a new last leaf
      achieves, with `y` the value it is taken to hold: it is first in the
      window and the heaps hold it besides their old slots. */
  ghost predicate LeafAdded(zz: ZZ, z1: ZZ, y: Ext) {
    var q: nat := |zz.order|;
    && q == |zz.s| + |zz.l| && q < |z1.nodes| && z1.order == [q] + zz.order
    && (q in z1.s || q in z1.l)
    && HeapsOk(SetVal(z1.nodes, q, y), z1.s, z1.l)
    && Booked(SetVal(z1.nodes, q, Fin(0)), z1.s, z1.l, z1.nanS, z1.nanL)
    && multiset(z1.s) + multiset(z1.l) == multiset(zz.s) + multiset(zz.l) + multiset{q}
    && |z1.nodes| == |zz.nodes|
    && (forall t :: 0 <= t < |zz.nodes| && t != q ==> z1.nodes[t].val == zz.nodes[t].val)
    && (|z1.s| > 0 ==> z1.sLeaf == FirstLeaf(|z1.s|))
    && (|z1.l| > 0 ==> z1.lLeaf == FirstLeaf(|z1.l|))
    && z1 == zz.(nodes := z1.nodes, s := z1.s, l := z1.l, sLeaf := z1.sLeaf, lLeaf := z1.lLeaf, order := z1.order)
  }

  /** The node in the next unused slot, holding `v`, put first in the
      window and appended to the large heap or the small one, whose first
      leaf index is recomputed. */
  function WithLeaf(zz: ZZ, toLarge: bool, v: Ext): (z1: ZZ)
    requires |zz.s| + |zz.l| < |zz.nodes|
    ensures |z1.s| + |z1.l| == |zz.s| + |zz.l| + 1 && |z1.order| == |zz.order| + 1
    ensures toLarge ==> |z1.l| == |zz.l| + 1 && z1.s == zz.s
    ensures !toLarge ==> |z1.s| == |zz.s| + 1 && z1.l == zz.l
  {
    var q: nat := |zz.s| + |zz.l|;
    if toLarge then
      zz.(nodes := zz.nodes[q := Node(false, |zz.l|, v)], l := zz.l + [q],
          lLeaf := FirstLeaf(|zz.l| + 1), order := [q] + zz.order)
    else
      zz.(nodes := zz.nodes[q := Node(true, |zz.s|, v)], s := zz.s + [q],
          sLeaf := FirstLeaf(|zz.s| + 1), order := [q] + zz.order)
  }

  lemma LeafAddedOk(zz: ZZ, toLarge: bool, v: Ext, y: Ext)
    requires Valid(zz) && !zz.complete
    requires y == if toLarge then PosInf else NegInf
    ensures |zz.s| + |zz.l| < |zz.nodes|
    ensures LeafAdded(zz, WithLeaf(zz, toLarge, v), y)
  {
    Sizes(zz);
    var q: nat := |zz.s| + |zz.l|;
    var z1 := WithLeaf(zz, toLarge, v);
    NewLeaf(zz, z1.nodes, z1.s, z1.l, q, toLarge, v, y);
    WithLeafFrame(zz, toLarge, v);
  }

  /** The bookkeeping half of `LeafAdded`: the new slot is first in the
      window, one heap gains it, and no other slot or field changes. */
  lemma WithLeafFrame(zz: ZZ, toLarge: bool, v: Ext)
    requires |zz.s| + |zz.l| < |zz.nodes|
    requires |zz.s| > 0 ==> zz.sLeaf == FirstLeaf(|zz.s|)
    requires |zz.l| > 0 ==> zz.lLeaf == FirstLeaf(|zz.l|)
    ensures var q: nat := |zz.s| + |zz.l|; var z1 := WithLeaf(zz, toLarge, v);
      && z1.order == [q] + zz.order && q < |z1.nodes|
      && (q in z1.s || q in z1.l)
      && multiset(z1.s) + multiset(z1.l) == multiset(zz.s) + multiset(zz.l) + multiset{q}
      && |z1.nodes| == |zz.nodes|
      && (forall t :: 0 <= t < |zz.nodes| && t != q ==> z1.nodes[t].val == zz.nodes[t].val)
      && (|z1.s| > 0 ==> z1.sLeaf == FirstLeaf(|z1.s|))
      && (|z1.l| > 0 ==> z1.lLeaf == FirstLeaf(|z1.l|))
      && z1 == zz.(nodes := z1.nodes, s := z1.s, l := z1.l, sLeaf := z1.sLeaf, lLeaf := z1.lLeaf, order := z1.order)
  {
    var q: nat := |zz.s| + |zz.l|;
    var z1 := WithLeaf(zz, toLarge, v);
    if toLarge {
      assert z1.s == zz.s && z1.l == zz.l + [q] && q in z1.l;
    } else {
      assert z1.s == zz.s + [q] && z1.l == zz.l && q in z1.s;
    }
  }

  /** The balance of a window whose only value is in the small heap. */
  lemma FirstBalance(window: int, maxS: int, k: int)
    requires 1 <= window <= 2 * maxS <= window + 1 && 0 <= k <= 1
    ensures 1 <= maxS && Balanced(window, maxS, 1, 0, k, 0, 1)
  {
  }

  /** `zz_insert_init`: `x` (`None` for NaN) joins a window that is not
      yet full.  The first value becomes the root of the small heap, -inf
      if it is a NaN; later NaNs go through `InsertNan`, later numbers
      through `InsertNumber`.  The window is complete once it holds
      `window` values. */
  method InsertInit(zz: ZZ, x: Option<int>) returns (r: ZZ)
    requires Valid(zz) && !zz.complete
    ensures Valid(r) && Window(r) == Window(zz) + [x]
    ensures r.window == zz.window && r.minCount == zz.minCount
    ensures r.complete <==> |zz.order| + 1 == zz.window
  {
    Sizes(zz);
    var q: nat := |zz.s| + |zz.l|;
    if |zz.s| == 0 {
      r := InsertFirst(zz, x);
    } else if x.None? {
      r := InsertNan(zz);
    } else {
      r := InsertNumber(zz, x.value);
    }
    r := r.(complete := r.complete || q + 1 >= zz.window);
  }

  /** The first value of a window becomes the root of the small heap,
      -inf and listed if it is a NaN. */
  method InsertFirst(zz: ZZ, x: Option<int>) returns (r: ZZ)
    requires Valid(zz) && !zz.complete && |zz.s| == 0
    ensures Ready(r) && Window(r) == [x] && Window(zz) == []
    ensures r.window == zz.window && r.minCount == zz.minCount && r.complete == zz.complete
  {
    Sizes(zz);
    r := Seeded(zz, x);
    SeededReady(zz, x);
  }

  /** The handle once slot 0 holds the first value of the window. */
  function Seeded(zz: ZZ, x: Option<int>): ZZ
    requires |zz.nodes| > 0
  {
    var v := if x.None? then NegInf else Fin(x.value);
    zz.(nodes := zz.nodes[0 := Node(true, 0, v)], s := [0], l := [], order := [0], sLeaf := 0,
        nanS := if x.None? then [0] else [], nanL := [])
  }

  lemma SeededReady(zz: ZZ, x: Option<int>)
    requires zz.window >= 1 && zz.minCount >= 1 && |zz.nodes| == zz.window
    requires zz.maxS == DoubleHeap.SmallCapacity(zz.window)
    ensures Ready(Seeded(zz, x)) && Window(Seeded(zz, x)) == [x]
  {
    var r := Seeded(zz, x);
    var v := if x.None? then NegInf else Fin(x.value);
    assert Vals(r.nodes, [0]) == [v];
    FirstBalance(zz.window, zz.maxS, |r.nanS|);
    assert Window(r) == [x];
  }

  // ---------------------------------------------------------------------
  // What the invariant promises, and the moving median.

  /** The facts the code's own consistency check asserts: each heap holds
      at least as many nodes as NaNs, the small heap fits its capacity and
      the number counts differ by at most one. */
  lemma Consistent(zz: ZZ)
    requires Valid(zz)
    ensures 0 <= NumbersS(zz) && 0 <= NumbersL(zz)
    ensures |zz.s| <= zz.maxS
    ensures -1 <= NumbersS(zz) - NumbersL(zz) <= 1
    ensures forall t :: t in zz.nanS ==> t in zz.s && zz.nodes[t].val == NegInf
    ensures forall t :: t in zz.nanL ==> t in zz.l && zz.nodes[t].val == PosInf
  {
    Sizes(zz);
  }

  /** One value of the input: `zz_insert_init` while the window is
      filling, `zz_update_checknan` once it is full, then
      `zz_get_median`. */
  method Step(zz: ZZ, x: Option<int>) returns (r: ZZ, m: Option<real>)
    requires Valid(zz)
    ensures Valid(r) && r.window == zz.window && r.minCount == zz.minCount
    ensures Window(r) == DoubleHeap.Last(Window(zz) + [x], zz.window)
    ensures DoubleHeap.MovingMedianAt(Window(r), r.minCount, m)
  {
    r := Advance(zz, x);
    m := GetMedian(r);
  }

  /** The window moves on by `x`: filled while incomplete, slid after. */
  method Advance(zz: ZZ, x: Option<int>) returns (r: ZZ)
    requires Valid(zz)
    ensures Valid(r) && r.window == zz.window && r.minCount == zz.minCount
    ensures Window(r) == DoubleHeap.Last(Window(zz) + [x], zz.window)
  {
    if !zz.complete {
      r := Fill(zz, x);
    } else {
      r := Slide(zz, x);
    }
  }

  method Fill(zz: ZZ, x: Option<int>) returns (r: ZZ)
    requires Valid(zz) && !zz.complete
    ensures Valid(r) && r.window == zz.window && r.minCount == zz.minCount
    ensures Window(r) == DoubleHeap.Last(Window(zz) + [x], zz.window)
  {
    r := InsertInit(zz, x);
    LastGrows(Window(zz), x, zz.window);
  }

  method Slide(zz: ZZ, x: Option<int>) returns (r: ZZ)
    requires Valid(zz) && zz.complete
    ensures Valid(r) && r.window == zz.window && r.minCount == zz.minCount
    ensures Window(r) == DoubleHeap.Last(Window(zz) + [x], zz.window)
  {
    r := UpdateCheckNan(zz, x);
    LastSlides(Window(zz), x, zz.window);
  }

  lemma LastGrows(w: seq<Option<int>>, x: Option<int>, window: nat)
    requires |w| < window
    ensures DoubleHeap.Last(w + [x], window) == w + [x]
  {
  }

  lemma LastSlides(w: seq<Option<int>>, x: Option<int>, window: nat)
    requires |w| == window >= 1
    ensures DoubleHeap.Last(w + [x], window) == w[1..] + [x]
  {
    assert (w + [x])[1..] == w[1..] + [x];
  }
}
