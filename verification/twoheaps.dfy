/** The pair of heaps of the moving median: the small heap (largest value
    at its root) holds the lower part of the window and the large heap
    (smallest value at its root) the upper part.  `SwapHeads` and `Helper`
    are `mm_swap_heap_heads` and `mm_update_helper`; the NaN-aware copies
    `swap_heap_heads` and `zz_update_helper` are the same code. */
module TwoHeaps {

  import opened Counting
  import opened Heap8

  /** No value of `own` belongs strictly nearer its root than a value of
      `other` would: for the small heap, every own value is at most every
      other value; for the large heap, at least. */
  ghost predicate Sep(small: bool, nodes: seq<Node>, own: seq<nat>, other: seq<nat>) {
    && InPool(nodes, own) && InPool(nodes, other)
    && forall a, b :: a in own && b in other ==> !Before(small, nodes[a].val, nodes[b].val)
  }

  /** Every value of the small heap is at most every value of the large
      heap. */
  ghost predicate Cross(nodes: seq<Node>, s: seq<nat>, l: seq<nat>) {
    Sep(true, nodes, s, l)
  }

  lemma SepFlip(nodes: seq<Node>, s: seq<nat>, l: seq<nat>)
    ensures Sep(false, nodes, l, s) <==> Cross(nodes, s, l)
  {
  }

  /** Both heaps linked and ordered, and separated from each other. */
  ghost predicate HeapsOk(nodes: seq<Node>, s: seq<nat>, l: seq<nat>) {
    && Linked(nodes, s, true) && Linked(nodes, l, false)
    && Ordered(true, Vals(nodes, s)) && Ordered(false, Vals(nodes, l))
    && Cross(nodes, s, l)
  }

  /** `HeapsOk` seen from one side. */
  ghost predicate SideOk(small: bool, nodes: seq<Node>, own: seq<nat>, other: seq<nat>) {
    && Linked(nodes, own, small) && Linked(nodes, other, !small)
    && Ordered(small, Vals(nodes, own)) && Ordered(!small, Vals(nodes, other))
    && Sep(small, nodes, own, other)
  }

  lemma SideOkIsHeapsOk(nodes: seq<Node>, s: seq<nat>, l: seq<nat>)
    ensures SideOk(true, nodes, s, l) <==> HeapsOk(nodes, s, l)
    ensures SideOk(false, nodes, l, s) <==> HeapsOk(nodes, s, l)
  {
    SepFlip(nodes, s, l);
  }

  /** With the root's value replaced by anything, a heap is still ordered
      below the root. */
  lemma RootFree(small: bool, v: seq<Ext>, w: seq<Ext>)
    requires Ordered(small, v) && |v| > 0 && |w| == |v|
    requires forall i :: 0 < i < |v| ==> w[i] == v[i]
    ensures DownExcept(small, w, 0)
  {
    forall i | 0 < i < |w| && Parent(i) != 0
      ensures !Before(small, w[i], w[Parent(i)])
    {
      ParentOf(i, Parent(i));
    }
  }

  /** `mm_swap_heap_heads`: the roots trade heaps, then each sinks to its
      place. */
  method SwapHeads(nodes0: seq<Node>, s0: seq<nat>, l0: seq<nat>, sNode: nat, lNode: nat)
    returns (nodes: seq<Node>, s: seq<nat>, l: seq<nat>)
    requires Linked(nodes0, s0, true) && Linked(nodes0, l0, false)
    requires |s0| > 0 && |l0| > 0 && sNode == s0[0] && lNode == l0[0]
    requires DownExcept(true, Vals(nodes0, s0), 0) && DownExcept(false, Vals(nodes0, l0), 0)
    ensures Linked(nodes, s, true) && Linked(nodes, l, false)
    ensures Ordered(true, Vals(nodes, s)) && Ordered(false, Vals(nodes, l))
    ensures |s| == |s0| && |l| == |l0|
    ensures multiset(s) == multiset(s0[0 := lNode]) && multiset(l) == multiset(l0[0 := sNode])
    ensures |nodes| == |nodes0| && forall t :: 0 <= t < |nodes0| ==> nodes[t].val == nodes0[t].val
    ensures forall t :: 0 <= t < |nodes0| && t != sNode && t != lNode ==> nodes[t].small == nodes0[t].small
  {
    var n1 := nodes0[sNode := nodes0[sNode].(small := false)][lNode := nodes0[lNode].(small := true)];
    var s1, l1 := s0[0 := lNode], l0[0 := sNode];
    RootsTraded(nodes0, s0, l0);
    var n2, n3, i, j;
    n2, s, i := SiftDown(n1, s1, true, 0);
    OtherSideKept(n1, n2, true, l1);
    n3, l, j := SiftDown(n2, l1, false, 0);
    OtherSideKept(n2, n3, false, s);
    nodes := n3;
  }

  /** With the roots' heap flags exchanged and the roots exchanged in the
      heap arrays, both heaps are still linked and in order below the root. */
  lemma RootsTraded(nodes0: seq<Node>, s0: seq<nat>, l0: seq<nat>)
    requires Linked(nodes0, s0, true) && Linked(nodes0, l0, false) && |s0| > 0 && |l0| > 0
    requires DownExcept(true, Vals(nodes0, s0), 0) && DownExcept(false, Vals(nodes0, l0), 0)
    ensures var sNode, lNode := s0[0], l0[0];
      var n1 := nodes0[sNode := nodes0[sNode].(small := false)][lNode := nodes0[lNode].(small := true)];
      var s1, l1 := s0[0 := lNode], l0[0 := sNode];
      && Linked(n1, s1, true) && Linked(n1, l1, false)
      && DownExcept(true, Vals(n1, s1), 0) && DownExcept(false, Vals(n1, l1), 0)
  {
    var sNode, lNode := s0[0], l0[0];
    var n1 := nodes0[sNode := nodes0[sNode].(small := false)][lNode := nodes0[lNode].(small := true)];
    var s1, l1 := s0[0 := lNode], l0[0 := sNode];
    forall i | 0 < i < |s1|
      ensures s1[i] != lNode && s1[i] != sNode
    {
      LinkedDistinct(nodes0, s0, true, 0, i);
    }
    forall i | 0 < i < |l1|
      ensures l1[i] != lNode && l1[i] != sNode
    {
      LinkedDistinct(nodes0, l0, false, 0, i);
    }
    assert forall i :: 0 < i < |s1| ==> Vals(n1, s1)[i] == Vals(nodes0, s0)[i];
    assert forall i :: 0 < i < |l1| ==> Vals(n1, l1)[i] == Vals(nodes0, l0)[i];
  }

  // ---------------------------------------------------------------------
  // `mm_update_helper`: a node takes a new value and moves to its place.

  /** What every branch of the update starts from: `ny` is the pool with
      `q`'s value replaced by a stand-in that leaves both heaps in order
      (its old value, or for a freshly appended leaf the extreme value that
      belongs there), and `n1` is the pool with the new value `x`. */
  ghost predicate Prepared(small: bool, ny: seq<Node>, n1: seq<Node>, own: seq<nat>, other: seq<nat>, q: nat, x: Ext) {
    && q < |ny| && q in own && n1 == SetVal(ny, q, x)
    && SideOk(small, ny, own, other)
  }

  /** What every branch ends with: both heaps in order and separated, the
      same slots in the two heaps together, no value changed, and no node
      but `q` changed heaps unless it is one `x` belongs beyond (the root
      of the other heap that traded places with `q`). */
  ghost predicate Settled(small: bool, n1: seq<Node>, own0: seq<nat>, other0: seq<nat>,
                          nodes: seq<Node>, own: seq<nat>, other: seq<nat>, q: nat)
    requires q < |n1|
  {
    && SideOk(small, nodes, own, other)
    && |own| == |own0| && |other| == |other0|
    && multiset(own) + multiset(other) == multiset(own0) + multiset(other0)
    && |nodes| == |n1|
    && (forall t :: 0 <= t < |n1| ==> nodes[t].val == n1[t].val)
    && (Kept(own0, other0, own, other) || Traded(small, n1, own0, other0, own, other, q))
  }

  /** Both heaps hold the same slots as before. */
  ghost predicate Kept(own0: seq<nat>, other0: seq<nat>, own: seq<nat>, other: seq<nat>) {
    multiset(own) == multiset(own0) && multiset(other) == multiset(other0)
  }

  /** `q` and the root `o` of the other heap traded heaps, and the new value
      of `q` belongs beyond `o`. */
  ghost predicate Traded(small: bool, n1: seq<Node>, own0: seq<nat>, other0: seq<nat>,
                         own: seq<nat>, other: seq<nat>, q: nat) {
    && |other0| > 0 && q < |n1| && other0[0] < |n1| && other0[0] != q
    && Before(small, n1[q].val, n1[other0[0]].val)
    && multiset(own) == multiset(own0) - multiset{q} + multiset{other0[0]}
    && multiset(other) == multiset(other0) - multiset{other0[0]} + multiset{q}
  }

  /** Without a trade between heaps: when the new value belongs nowhere
      beyond the other heap, the heaps stay separated. */
  lemma KeptSep(small: bool, ny: seq<Node>, n: seq<Node>, own0: seq<nat>, other: seq<nat>, own: seq<nat>, q: nat, x: Ext)
    requires q < |ny| && q in own0 && SideOk(small, ny, own0, other)
    requires |n| == |ny| && forall t :: 0 <= t < |ny| ==> n[t].val == SetVal(ny, q, x)[t].val
    requires InPool(n, own) && multiset(own) == multiset(own0)
    requires forall b :: b in other ==> !Before(small, x, ny[b].val)
    ensures Sep(small, n, own, other)
  {
    forall a, b | a in own && b in other
      ensures !Before(small, n[a].val, n[b].val)
    {
      assert a in multiset(own0);
      assert b != q;
    }
  }

  /** Every value of an ordered heap relates to its root in the same way. */
  lemma BelowRoot(small: bool, nodes: seq<Node>, heap: seq<nat>, b: nat)
    requires Linked(nodes, heap, small) && Ordered(small, Vals(nodes, heap)) && b in heap
    ensures !Before(small, nodes[b].val, nodes[heap[0]].val)
  {
    var j :| 0 <= j < |heap| && heap[j] == b;
    RootIsBest(small, Vals(nodes, heap), j);
  }

  /** A value not beyond the other heap's root is beyond none of it. */
  lemma NotBeyondRoot(small: bool, nodes: seq<Node>, other: seq<nat>, x: Ext)
    requires Linked(nodes, other, !small) && Ordered(!small, Vals(nodes, other)) && |other| > 0
    requires !Before(small, x, nodes[other[0]].val)
    ensures forall b :: b in other ==> !Before(small, x, nodes[b].val)
  {
    forall b | b in other
      ensures !Before(small, x, nodes[b].val)
    {
      BelowRoot(!small, nodes, other, b);
    }
  }

  /** A value not beyond a node of `own` is beyond none of the other
      heap. */
  lemma NotBeyondNode(small: bool, ny: seq<Node>, own: seq<nat>, other: seq<nat>, p: nat, x: Ext)
    requires Sep(small, ny, own, other) && p in own
    requires !Before(small, x, ny[p].val)
    ensures forall b :: b in other ==> !Before(small, x, ny[b].val)
  {
  }

  /** The members of a sequence whose first entry was replaced. */
  lemma HeadReplaced(heap: seq<nat>, nodes: seq<Node>, small: bool, z: nat, a: nat)
    requires Linked(nodes, heap, small) && |heap| > 0
    requires a in heap[0 := z]
    ensures a == z || (a in heap && a != heap[0])
  {
    var j :| 0 <= j < |heap| && heap[0 := z][j] == a;
    if j > 0 {
      LinkedDistinct(nodes, heap, small, 0, j);
    }
  }

  /** After the roots trade places the heaps are separated again: the old
      root `o` of the other heap is the pivot, every value left in `own` is
      not beyond it, and every value in `other` now, `x` included, is not
      before it. */
  lemma TradedSep(small: bool, ny: seq<Node>, n2: seq<Node>, n: seq<Node>, own0: seq<nat>, other0: seq<nat>,
                  own2: seq<nat>, own: seq<nat>, other: seq<nat>, q: nat, x: Ext)
    requires q < |ny| && q in own0 && SideOk(small, ny, own0, other0)
    requires |other0| > 0 && Before(small, x, ny[other0[0]].val)
    requires Linked(n2, own2, small) && |own2| > 0 && own2[0] == q && multiset(own2) == multiset(own0)
    requires |n| == |ny| && forall t :: 0 <= t < |ny| ==> n[t].val == SetVal(ny, q, x)[t].val
    requires InPool(n, own) && InPool(n, other)
    requires multiset(own) == multiset(own2[0 := other0[0]])
    requires multiset(other) == multiset(other0[0 := q])
    ensures Sep(small, n, own, other)
  {
    var o := other0[0];
    assert o != q;
    forall a, b | a in own && b in other
      ensures !Before(small, n[a].val, n[b].val)
    {
      assert a in multiset(own2[0 := o]);
      HeadReplaced(own2, n2, small, o, a);
      assert b in multiset(other0[0 := q]);
      HeadReplaced(other0, ny, !small, q, b);
      if a != o {
        assert a in multiset(own0);
      }
      if b != q {
        BelowRoot(!small, ny, other0, b);
        assert b != q;
      }
    }
  }

  /** Trade the roots: `q`, now the root of its heap, and the other heap's
      root, which `x` belongs beyond. */
  method Trade(small: bool, ghost ny: seq<Node>, ghost own0: seq<nat>, n2: seq<Node>, own2: seq<nat>, other0: seq<nat>, q: nat, x: Ext)
    returns (nodes: seq<Node>, own: seq<nat>, other: seq<nat>)
    requires q < |ny| && q in own0 && SideOk(small, ny, own0, other0)
    requires |other0| > 0 && Before(small, x, ny[other0[0]].val)
    requires Linked(n2, own2, small) && Ordered(small, Vals(n2, own2))
    requires |own2| == |own0| && own2[0] == q && multiset(own2) == multiset(own0)
    requires SideFrame(SetVal(ny, q, x), n2, small)
    requires Linked(n2, other0, !small) && Ordered(!small, Vals(n2, other0))
    ensures Settled(small, SetVal(ny, q, x), own0, other0, nodes, own, other, q)
  {
    var o := other0[0];
    ghost var n1 := SetVal(ny, q, x);
    if small {
      nodes, own, other := SwapHeads(n2, own2, other0, q, o);
    } else {
      nodes, other, own := SwapHeads(n2, other0, own2, o, q);
    }
    TradedSep(small, ny, n2, nodes, own0, other0, own2, own, other, q, x);
    assert multiset(own2[0 := o]) == multiset(own2) - multiset{q} + multiset{o};
    assert multiset(other0[0 := q]) == multiset(other0) - multiset{o} + multiset{q};
    assert Traded(small, n1, own0, other0, own, other, q);
    assert multiset(own) + multiset(other) == multiset(own0) + multiset(other0);
  }

  /** The branch where `x` belongs above its parent: it moves up, and if it
      then belongs beyond the other heap's root, the roots trade. */
  method UpBranch(small: bool, ghost ny: seq<Node>, n1: seq<Node>, own0: seq<nat>, other0: seq<nat>, q: nat, x: Ext)
    returns (nodes: seq<Node>, own: seq<nat>, other: seq<nat>)
    requires Prepared(small, ny, n1, own0, other0, q, x)
    requires 0 < n1[q].idx && Before(small, x, n1[own0[Parent(n1[q].idx)]].val)
    ensures Settled(small, n1, own0, other0, nodes, own, other, q)
  {
    var idx := n1[q].idx;
    ValsSet(ny, own0, small, q, x);
    ValsSet(ny, other0, !small, q, x);
    ParentOf(idx, Parent(idx));
    ReplacedUp(small, Vals(ny, own0), idx, x);
    var n2, own2, k := SiftUp(n1, own0, small, idx);
    OtherSideKept(n1, n2, small, other0);
    if |other0| > 0 && Before(small, x, n2[other0[0]].val) {
      if k != 0 {
        // The root would be a node other than `q`, not beyond the other
        // root, yet at least as near the root as `x`.
        assert own2[0] in multiset(own0);
        RootIsBest(small, Vals(n2, own2), k);
        LinkedDistinct(n2, own2, small, 0, k);
        assert false;
      }
      nodes, own, other := Trade(small, ny, own0, n2, own2, other0, q, x);
    } else {
      if |other0| > 0 {
        NotBeyondRoot(small, ny, other0, x);
      }
      nodes, own, other := n2, own2, other0;
      KeptSep(small, ny, nodes, own0, other, own, q, x);
    }
  }

  /** The branch where `x` does not belong above its parent: it moves
      down, unless its position is a leaf. */
  method DownBranch(small: bool, ghost ny: seq<Node>, n1: seq<Node>, own0: seq<nat>, other0: seq<nat>,
                    ownLeaf: nat, q: nat, x: Ext)
    returns (nodes: seq<Node>, own: seq<nat>, other: seq<nat>)
    requires Prepared(small, ny, n1, own0, other0, q, x) && ownLeaf == FirstLeaf(|own0|)
    requires 0 < n1[q].idx && !Before(small, x, n1[own0[Parent(n1[q].idx)]].val)
    ensures Settled(small, n1, own0, other0, nodes, own, other, q)
  {
    var idx := n1[q].idx;
    ValsSet(ny, own0, small, q, x);
    ValsSet(ny, other0, !small, q, x);
    ParentOf(idx, Parent(idx));
    ReplacedDown(small, Vals(ny, own0), idx, x);
    var p := own0[Parent(idx)];
    LinkedDistinct(ny, own0, small, idx, Parent(idx));
    NotBeyondNode(small, ny, own0, other0, p, x);
    other := other0;
    if idx < ownLeaf {
      var k;
      nodes, own, k := SiftDown(n1, own0, small, idx);
      OtherSideKept(n1, nodes, small, other0);
    } else {
      FirstLeafTest(|own0|, idx);
      LeafDone(small, Vals(n1, own0), idx);
      nodes, own := n1, own0;
    }
    KeptSep(small, ny, nodes, own0, other, own, q, x);
  }

  /** The branch where `q` is the root: trade with the other root if `x`
      belongs beyond it, otherwise move down. */
  method HeadBranch(small: bool, ghost ny: seq<Node>, n1: seq<Node>, own0: seq<nat>, other0: seq<nat>, q: nat, x: Ext)
    returns (nodes: seq<Node>, own: seq<nat>, other: seq<nat>)
    requires Prepared(small, ny, n1, own0, other0, q, x)
    requires n1[q].idx == 0
    ensures Settled(small, n1, own0, other0, nodes, own, other, q)
  {
    ValsSet(ny, own0, small, q, x);
    ValsSet(ny, other0, !small, q, x);
    ReplacedDown(small, Vals(ny, own0), 0, x);
    if |other0| > 0 && Before(small, x, n1[other0[0]].val) {
      assert Vals(n1, own0)[0] == x;
      assert SideFrame(n1, n1, small);
      nodes, own, other := Trade(small, ny, own0, n1, own0, other0, q, x);
    } else {
      if |other0| > 0 {
        NotBeyondRoot(small, ny, other0, x);
      }
      var k;
      nodes, own, k := SiftDown(n1, own0, small, 0);
      OtherSideKept(n1, nodes, small, other0);
      other := other0;
      KeptSep(small, ny, nodes, own0, other, own, q, x);
    }
  }

  /** `mm_update_helper` seen from the heap `q` is in. */
  method HelperSide(small: bool, ghost ny: seq<Node>, n1: seq<Node>, own0: seq<nat>, other0: seq<nat>,
                    ownLeaf: nat, q: nat, x: Ext)
    returns (nodes: seq<Node>, own: seq<nat>, other: seq<nat>)
    requires Prepared(small, ny, n1, own0, other0, q, x) && ownLeaf == FirstLeaf(|own0|)
    ensures Settled(small, n1, own0, other0, nodes, own, other, q)
  {
    var idx := n1[q].idx;
    if idx > 0 {
      if Before(small, x, n1[own0[Parent(idx)]].val) {
        nodes, own, other := UpBranch(small, ny, n1, own0, other0, q, x);
      } else {
        nodes, own, other := DownBranch(small, ny, n1, own0, other0, ownLeaf, q, x);
      }
    } else {
      nodes, own, other := HeadBranch(small, ny, n1, own0, other0, q, x);
    }
  }

  /** The trade `Helper` may end with: `q` and the root of the other heap
      swap heaps, and `x` belongs beyond that root. */
  ghost predicate HelperTraded(nodes0: seq<Node>, s0: seq<nat>, l0: seq<nat>, s: seq<nat>, l: seq<nat>, q: nat, x: Ext)
    requires q < |nodes0|
  {
    if nodes0[q].small then
      && |l0| > 0 && l0[0] < |nodes0| && Before(true, x, nodes0[l0[0]].val)
      && multiset(s) == multiset(s0) - multiset{q} + multiset{l0[0]}
      && multiset(l) == multiset(l0) - multiset{l0[0]} + multiset{q}
    else
      && |s0| > 0 && s0[0] < |nodes0| && Before(false, x, nodes0[s0[0]].val)
      && multiset(l) == multiset(l0) - multiset{q} + multiset{s0[0]}
      && multiset(s) == multiset(s0) - multiset{s0[0]} + multiset{q}
  }

  /** `mm_update_helper` (and `zz_update_helper`): the node in slot `q`
      takes the value `x` and the heaps are restored.  The caller gives a
      stand-in value `y` for which the heaps were in order with `q` in
      place.  Afterwards both heaps are in order and separated, the two
      heaps hold the same slots between them as before, only `q`'s value
      changed, and a node other than `q` changed heaps only when `x`
      belongs beyond it: the root that traded places with `q`. */
  method Helper(nodes0: seq<Node>, s0: seq<nat>, l0: seq<nat>, sLeaf: nat, lLeaf: nat, q: nat, x: Ext, ghost y: Ext)
    returns (nodes: seq<Node>, s: seq<nat>, l: seq<nat>)
    requires q < |nodes0| && (q in s0 || q in l0)
    requires HeapsOk(SetVal(nodes0, q, y), s0, l0)
    requires |s0| > 0 ==> sLeaf == FirstLeaf(|s0|)
    requires |l0| > 0 ==> lLeaf == FirstLeaf(|l0|)
    ensures HeapsOk(nodes, s, l)
    ensures |s| == |s0| && |l| == |l0|
    ensures multiset(s) + multiset(l) == multiset(s0) + multiset(l0)
    ensures |nodes| == |nodes0| && nodes[q].val == x
    ensures forall t :: 0 <= t < |nodes0| && t != q ==> nodes[t].val == nodes0[t].val
    ensures Kept(s0, l0, s, l) || HelperTraded(nodes0, s0, l0, s, l, q, x)
  {
    ghost var ny := SetVal(nodes0, q, y);
    var n1 := SetVal(nodes0, q, x);
    assert n1 == SetVal(ny, q, x);
    SideOkIsHeapsOk(ny, s0, l0);
    if nodes0[q].small {
      nodes, s, l := HelperSide(true, ny, n1, s0, l0, sLeaf, q, x);
      SettledFacts(true, nodes0, s0, l0, nodes, s, l, q, x);
    } else {
      nodes, l, s := HelperSide(false, ny, n1, l0, s0, lLeaf, q, x);
      SettledFacts(false, nodes0, l0, s0, nodes, l, s, q, x);
      assert multiset(l) + multiset(s) == multiset(s) + multiset(l);
    }
    SideOkIsHeapsOk(nodes, s, l);
  }

  /** `Settled` read back in terms of the values before `q` changed. */
  lemma SettledFacts(small: bool, nodes0: seq<Node>, own0: seq<nat>, other0: seq<nat>,
                     nodes: seq<Node>, own: seq<nat>, other: seq<nat>, q: nat, x: Ext)
    requires q < |nodes0|
    requires Settled(small, SetVal(nodes0, q, x), own0, other0, nodes, own, other, q)
    ensures SideOk(small, nodes, own, other)
    ensures |own| == |own0| && |other| == |other0|
    ensures multiset(own) + multiset(other) == multiset(own0) + multiset(other0)
    ensures |nodes| == |nodes0| && nodes[q].val == x
    ensures forall t :: 0 <= t < |nodes0| && t != q ==> nodes[t].val == nodes0[t].val
    ensures Kept(own0, other0, own, other) ||
            (&& |other0| > 0 && other0[0] < |nodes0| && Before(small, x, nodes0[other0[0]].val)
             && multiset(own) == multiset(own0) - multiset{q} + multiset{other0[0]}
             && multiset(other) == multiset(other0) - multiset{other0[0]} + multiset{q})
  {
    var n1 := SetVal(nodes0, q, x);
    if !Kept(own0, other0, own, other) {
      assert Traded(small, n1, own0, other0, own, other, q);
      assert n1[other0[0]].val == nodes0[other0[0]].val;
    }
  }
}
