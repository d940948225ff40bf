/** The 8-ary heaps behind the moving median.  Both heaps draw their nodes
    from one pool of slots: a heap is the sequence of slot numbers it holds,
    root first, and every node records which heap it is in (`small`) and its
    position there (`idx`).  The small heap keeps its largest value at the
    root, the large heap its smallest; the code that moves nodes is written
    once here for both, with the flag `small` choosing the direction. */
module Heap8 {

  import opened Counting

  /** `NUM_CHILDREN`. */
  const NumChildren: int := 8

  /** `P_IDX`. */
  function Parent(i: int): int {
    (i - 1) / NumChildren
  }

  /** `FC_IDX`. */
  function FirstChild(i: int): int {
    NumChildren * i + 1
  }

  /** The first leaf of a heap of `n` nodes, `ceil((n - 1) / 8)`. */
  function FirstLeaf(n: int): int
    requires n >= 1
  {
    (n - 1 + NumChildren - 1) / NumChildren
  }

  /** The children of `p` are the positions `FirstChild(p) .. FirstChild(p) + 7`,
      and exactly those have `p` as parent. */
  lemma ParentOf(i: int, p: int)
    requires i >= 1 && p >= 0
    ensures Parent(i) == p <==> FirstChild(p) <= i < FirstChild(p) + NumChildren
    ensures 0 <= Parent(i) < i
  {
  }

  /** A position below `FirstLeaf(n)` is exactly one with a child in the
      heap, so the update may skip the downward move for the others. */
  lemma FirstLeafTest(n: int, i: int)
    requires 0 <= i < n
    ensures i < FirstLeaf(n) <==> FirstChild(i) < n
  {
  }

  // ---------------------------------------------------------------------
  // Values.  NaN never sits in a heap: the NaN-aware heaps hold it as an
  // infinity of the right sign.

  datatype Ext = NegInf | Fin(v: int) | PosInf

  /** The order of doubles restricted to the infinities and the integers. */
  predicate Lt(x: Ext, y: Ext) {
    match x
    case NegInf => !y.NegInf?
    case Fin(a) => y.PosInf? || (y.Fin? && a < y.v)
    case PosInf => false
  }

  predicate Le(x: Ext, y: Ext) {
    !Lt(y, x)
  }

  /** Does `x` belong strictly nearer the root than `y`?  In the small heap
      that is `x > y`, in the large heap `x < y`. */
  predicate Before(small: bool, x: Ext, y: Ext) {
    if small then Lt(y, x) else Lt(x, y)
  }

  // ---------------------------------------------------------------------
  // Nodes and heaps.

  /** A node: the heap it is in, its position in that heap, its value. */
  datatype Node = Node(small: bool, idx: nat, val: Ext)

  /** Every entry names a slot of the pool. */
  ghost predicate InPool(nodes: seq<Node>, heap: seq<nat>) {
    forall i :: 0 <= i < |heap| ==> heap[i] < |nodes|
  }

  /** The values a slot sequence points at, in its order. */
  function Vals(nodes: seq<Node>, heap: seq<nat>): (v: seq<Ext>)
    requires InPool(nodes, heap)
    ensures |v| == |heap|
    ensures forall i :: 0 <= i < |heap| ==> v[i] == nodes[heap[i]].val
  {
    seq(|heap|, i requires 0 <= i < |heap| => nodes[heap[i]].val)
  }

  /** Back-pointers agree: the node at position `i` records `i` and the
      heap's side.  In particular no slot occurs twice. */
  ghost predicate Linked(nodes: seq<Node>, heap: seq<nat>, small: bool) {
    forall i :: 0 <= i < |heap| ==>
      heap[i] < |nodes| && nodes[heap[i]].idx == i && nodes[heap[i]].small == small
  }

  lemma LinkedDistinct(nodes: seq<Node>, heap: seq<nat>, small: bool, i: int, j: int)
    requires Linked(nodes, heap, small) && 0 <= i < |heap| && 0 <= j < |heap| && i != j
    ensures heap[i] != heap[j]
  {
  }

  /** Heap order: no node belongs above its parent. */
  ghost predicate Ordered(small: bool, v: seq<Ext>) {
    forall i :: 0 < i < |v| ==> !Before(small, v[i], v[Parent(i)])
  }

  /** Heap order except that position `k` may belong above its parent;
      `k`'s children are in order even with respect to `k`'s parent. */
  ghost predicate UpExcept(small: bool, v: seq<Ext>, k: int) {
    && 0 <= k < |v|
    && (forall i :: 0 < i < |v| && i != k ==> !Before(small, v[i], v[Parent(i)]))
    && (k > 0 ==> forall i :: 0 < i < |v| && Parent(i) == k ==> !Before(small, v[i], v[Parent(k)]))
  }

  /** Heap order except that `k`'s children may belong above `k`; they are
      in order with respect to `k`'s parent. */
  ghost predicate DownExcept(small: bool, v: seq<Ext>, k: int) {
    && 0 <= k < |v|
    && (forall i :: 0 < i < |v| && Parent(i) != k ==> !Before(small, v[i], v[Parent(i)]))
    && (k > 0 ==> forall i :: 0 < i < |v| && Parent(i) == k ==> !Before(small, v[i], v[Parent(k)]))
  }

  /** The root of an ordered heap is its best value: the largest of the
      small heap, the smallest of the large heap. */
  lemma {:induction false} RootIsBest(small: bool, v: seq<Ext>, i: int)
    requires Ordered(small, v) && 0 <= i < |v|
    ensures !Before(small, v[i], v[0])
    decreases i
  {
    if i > 0 {
      ParentOf(i, Parent(i));
      RootIsBest(small, v, Parent(i));
    }
  }

  // ---------------------------------------------------------------------
  // Child selection.

  /** The unrolled comparisons of `get_largest_child` / `get_smallest_child`:
      positions `i0 + c - 1` down to `i0` are compared in turn with the best
      so far, `b`, and replace it when strictly better. */
  function ScanChildren(small: bool, v: seq<Ext>, i0: int, c: int, b: int): (r: int)
    requires 0 <= i0 && 0 <= c && i0 + c <= |v| && 0 <= b < |v|
    ensures r == b || i0 <= r < i0 + c
    ensures !Before(small, v[b], v[r])
    ensures forall m :: i0 <= m < i0 + c ==> !Before(small, v[m], v[r])
    decreases c
  {
    if c == 0 then b
    else
      var m := i0 + c - 1;
      ScanChildren(small, v, i0, c - 1, if Before(small, v[m], v[b]) then m else b)
  }

  /** `get_largest_child` (small heap) or `get_smallest_child` (large
      heap): position `idx` itself, or the child holding the best of `idx`
      and its children. */
  function BestChild(small: bool, v: seq<Ext>, idx: int): (b: int)
    requires 0 <= idx < |v|
    ensures b == idx || (idx < b < |v| && Parent(b) == idx)
    ensures !Before(small, v[idx], v[b])
    ensures forall i :: 0 < i < |v| && Parent(i) == idx ==> !Before(small, v[i], v[b])
  {
    var i0 := FirstChild(idx);
    var i1 := if i0 + NumChildren < |v| then i0 + NumChildren else |v|;
    if i1 <= i0 then idx
    else
      var r := ScanChildren(small, v, i0, i1 - i0, idx);
      assert r != idx ==> Parent(r) == idx by {
        if r != idx {
          ParentOf(r, idx);
        }
      }
      assert forall i :: 0 < i < |v| && Parent(i) == idx ==> i0 <= i < i1 by {
        forall i | 0 < i < |v| && Parent(i) == idx
          ensures i0 <= i < i1
        {
          ParentOf(i, idx);
        }
      }
      r
  }

  // ---------------------------------------------------------------------
  // Moving nodes.

  /** `MM_SWAP_NODES`: exchange the nodes at positions `i` and `j` and
      update both back-pointers. */
  function SwapNodes(nodes: seq<Node>, heap: seq<nat>, i: nat, j: nat): (r: (seq<Node>, seq<nat>))
    requires 0 <= i < |heap| && 0 <= j < |heap| && InPool(nodes, heap)
    ensures |r.0| == |nodes| && |r.1| == |heap| && multiset(r.1) == multiset(heap)
  {
    var a, b := heap[i], heap[j];
    (nodes[a := nodes[a].(idx := j)][b := nodes[b].(idx := i)], Swap(heap, i, j))
  }

  /** Moves within one heap change only back-pointers of that heap's
      nodes. */
  ghost predicate SideFrame(nodes0: seq<Node>, nodes: seq<Node>, small: bool) {
    && |nodes| == |nodes0|
    && forall q :: 0 <= q < |nodes0| ==>
         && nodes[q].val == nodes0[q].val
         && nodes[q].small == nodes0[q].small
         && (nodes0[q].small != small ==> nodes[q] == nodes0[q])
  }

  /** A swap keeps the back-pointers, exchanges the two values and touches
      nothing outside the heap. */
  lemma SwapNodesLinked(nodes: seq<Node>, heap: seq<nat>, small: bool, i: nat, j: nat)
    requires Linked(nodes, heap, small) && 0 <= i < |heap| && 0 <= j < |heap|
    ensures var r := SwapNodes(nodes, heap, i, j);
            && Linked(r.0, r.1, small)
            && Vals(r.0, r.1) == Swap(Vals(nodes, heap), i, j)
            && SideFrame(nodes, r.0, small)
  {
    var r := SwapNodes(nodes, heap, i, j);
    if i != j {
      LinkedDistinct(nodes, heap, small, i, j);
    }
    assert Vals(r.0, r.1) == Swap(Vals(nodes, heap), i, j);
  }

  /** A node that moved within the other heap leaves this heap's links and
      values as they were, and no move changes any value. */
  lemma OtherSideKept(nodes0: seq<Node>, nodes: seq<Node>, small: bool, other: seq<nat>)
    requires SideFrame(nodes0, nodes, small) && Linked(nodes0, other, !small)
    ensures Linked(nodes, other, !small) && Vals(nodes, other) == Vals(nodes0, other)
  {
  }

  /** Moves change no value, so any slot sequence shows the same values. */
  lemma ValsKept(nodes0: seq<Node>, nodes: seq<Node>, small: bool, a: seq<nat>)
    requires SideFrame(nodes0, nodes, small) && InPool(nodes0, a)
    ensures InPool(nodes, a) && Vals(nodes, a) == Vals(nodes0, a)
  {
  }

  lemma SideFrameTrans(n0: seq<Node>, n1: seq<Node>, n2: seq<Node>, small: bool)
    requires SideFrame(n0, n1, small) && SideFrame(n1, n2, small)
    ensures SideFrame(n0, n2, small)
  {
  }

  /** One step of the upward move keeps the exception at the node. */
  lemma UpStep(small: bool, v: seq<Ext>, k: int)
    requires UpExcept(small, v, k) && k > 0
    requires Before(small, v[k], v[Parent(k)])
    ensures UpExcept(small, Swap(v, k, Parent(k)), Parent(k))
  {
    var p := Parent(k);
    ParentOf(k, p);
    var w := Swap(v, k, p);
    forall i | 0 < i < |w| && i != p
      ensures !Before(small, w[i], w[Parent(i)])
    {
      ParentOf(i, Parent(i));
    }
    if p > 0 {
      ParentOf(p, Parent(p));
      forall i | 0 < i < |w| && Parent(i) == p
        ensures !Before(small, w[i], w[Parent(p)])
      {
        ParentOf(i, p);
      }
    }
  }

  /** The upward move may stop at the root or below a parent that belongs
      above it. */
  lemma UpDone(small: bool, v: seq<Ext>, k: int)
    requires UpExcept(small, v, k)
    requires k == 0 || !Before(small, v[k], v[Parent(k)])
    ensures Ordered(small, v)
  {
  }

  /** One step of the downward move keeps the exception at the node. */
  lemma DownStep(small: bool, v: seq<Ext>, k: int, c: int)
    requires DownExcept(small, v, k) && c == BestChild(small, v, k)
    requires Before(small, v[c], v[k])
    ensures k < c && DownExcept(small, Swap(v, k, c), c)
  {
    var w := Swap(v, k, c);
    ParentOf(c, k);
    forall i | 0 < i < |w| && Parent(i) != c
      ensures !Before(small, w[i], w[Parent(i)])
    {
      ParentOf(i, Parent(i));
    }
    forall i | 0 < i < |w| && Parent(i) == c
      ensures !Before(small, w[i], w[k])
    {
      ParentOf(i, c);
    }
  }

  /** The downward move may stop when no child belongs above the node. */
  lemma DownDone(small: bool, v: seq<Ext>, k: int, c: int)
    requires DownExcept(small, v, k) && c == BestChild(small, v, k)
    requires !Before(small, v[c], v[k])
    ensures Ordered(small, v)
  {
  }

  /** `mm_move_up_small` (small heap) and `mm_move_down_large` (large
      heap): the node at `idx0`, which belongs above its parent, trades
      places with its parent until it reaches the root or its parent
      belongs above it. */
  method SiftUp(nodes0: seq<Node>, heap0: seq<nat>, small: bool, idx0: nat)
    returns (nodes: seq<Node>, heap: seq<nat>, idx: nat)
    requires Linked(nodes0, heap0, small) && 0 < idx0 < |heap0|
    requires UpExcept(small, Vals(nodes0, heap0), idx0)
    requires Before(small, nodes0[heap0[idx0]].val, nodes0[heap0[Parent(idx0)]].val)
    ensures Linked(nodes, heap, small) && Ordered(small, Vals(nodes, heap))
    ensures SideFrame(nodes0, nodes, small)
    ensures |heap| == |heap0| && multiset(heap) == multiset(heap0)
    ensures idx < idx0 && heap[idx] == heap0[idx0]
  {
    var node := heap0[idx0];
    var val := nodes0[node].val;
    nodes, heap, idx := nodes0, heap0, idx0;
    var p := Parent(idx);
    ParentOf(idx, p);
    while true
      invariant Linked(nodes, heap, small) && SideFrame(nodes0, nodes, small)
      invariant |heap| == |heap0| && multiset(heap) == multiset(heap0)
      invariant 0 < idx <= idx0 && heap[idx] == node && nodes[node].val == val
      invariant 0 <= p < idx && p == Parent(idx)
      invariant UpExcept(small, Vals(nodes, heap), idx)
      invariant Before(small, val, nodes[heap[p]].val)
      decreases idx
    {
      UpStep(small, Vals(nodes, heap), idx);
      SwapNodesLinked(nodes, heap, small, idx, p);
      var nodes', heap' := SwapNodes(nodes, heap, idx, p).0, SwapNodes(nodes, heap, idx, p).1;
      SideFrameTrans(nodes0, nodes, nodes', small);
      nodes, heap := nodes', heap';
      idx := p;
      if idx == 0 {
        UpDone(small, Vals(nodes, heap), idx);
        return;
      }
      p := Parent(idx);
      ParentOf(idx, p);
      if !Before(small, val, nodes[heap[p]].val) {
        UpDone(small, Vals(nodes, heap), idx);
        return;
      }
    }
  }

  /** `mm_move_down_small` (small heap) and `mm_move_up_large` (large
      heap): while the best child belongs above the node, the two trade
      places. */
  method SiftDown(nodes0: seq<Node>, heap0: seq<nat>, small: bool, idx0: nat)
    returns (nodes: seq<Node>, heap: seq<nat>, idx: nat)
    requires Linked(nodes0, heap0, small) && 0 <= idx0 < |heap0|
    requires DownExcept(small, Vals(nodes0, heap0), idx0)
    ensures Linked(nodes, heap, small) && Ordered(small, Vals(nodes, heap))
    ensures SideFrame(nodes0, nodes, small)
    ensures |heap| == |heap0| && multiset(heap) == multiset(heap0)
    ensures idx0 <= idx < |heap| && heap[idx] == heap0[idx0]
  {
    var node := heap0[idx0];
    var val := nodes0[node].val;
    nodes, heap, idx := nodes0, heap0, idx0;
    var c := BestChild(small, Vals(nodes, heap), idx);
    while Before(small, nodes[heap[c]].val, val)
      invariant Linked(nodes, heap, small) && SideFrame(nodes0, nodes, small)
      invariant |heap| == |heap0| && multiset(heap) == multiset(heap0)
      invariant idx0 <= idx < |heap| && heap[idx] == node && nodes[node].val == val
      invariant DownExcept(small, Vals(nodes, heap), idx)
      invariant c == BestChild(small, Vals(nodes, heap), idx)
      decreases |heap| - idx
    {
      DownStep(small, Vals(nodes, heap), idx, c);
      SwapNodesLinked(nodes, heap, small, idx, c);
      var nodes', heap' := SwapNodes(nodes, heap, idx, c).0, SwapNodes(nodes, heap, idx, c).1;
      SideFrameTrans(nodes0, nodes, nodes', small);
      nodes, heap := nodes', heap';
      idx := c;
      c := BestChild(small, Vals(nodes, heap), idx);
    }
    DownDone(small, Vals(nodes, heap), idx, c);
  }

  // ---------------------------------------------------------------------
  // A new value for one node.

  /** The node in slot `q` takes the value `x`. */
  function SetVal(nodes: seq<Node>, q: nat, x: Ext): (r: seq<Node>)
    requires q < |nodes|
    ensures |r| == |nodes| && r[q] == nodes[q].(val := x)
    ensures forall t :: 0 <= t < |nodes| && t != q ==> r[t] == nodes[t]
  {
    nodes[q := nodes[q].(val := x)]
  }

  /** A new value for a node changes the heap it is in at the node's
      position only, and leaves every other heap alone. */
  lemma ValsSet(nodes: seq<Node>, heap: seq<nat>, small: bool, q: nat, x: Ext)
    requires Linked(nodes, heap, small) && q < |nodes|
    ensures Linked(SetVal(nodes, q, x), heap, small)
    ensures q in heap ==> nodes[q].idx < |heap| && Vals(SetVal(nodes, q, x), heap) == Vals(nodes, heap)[nodes[q].idx := x]
    ensures nodes[q].small != small ==> Vals(SetVal(nodes, q, x), heap) == Vals(nodes, heap)
  {
    var r := SetVal(nodes, q, x);
    if q in heap {
      var k :| 0 <= k < |heap| && heap[k] == q;
      forall i | 0 <= i < |heap| && i != k
        ensures heap[i] != q
      {
        LinkedDistinct(nodes, heap, small, i, k);
      }
      assert Vals(r, heap) == Vals(nodes, heap)[nodes[q].idx := x];
    }
    if nodes[q].small != small {
      assert Vals(r, heap) == Vals(nodes, heap);
    }
  }

  /** A value raised above its parent's (in the heap's sense) may only need
      to move up. */
  lemma ReplacedUp(small: bool, v: seq<Ext>, k: int, x: Ext)
    requires Ordered(small, v) && 0 < k < |v|
    requires Before(small, x, v[Parent(k)])
    ensures UpExcept(small, v[k := x], k)
  {
    var w := v[k := x];
    ParentOf(k, Parent(k));
    forall i | 0 < i < |w| && i != k
      ensures !Before(small, w[i], w[Parent(i)])
    {
      ParentOf(i, Parent(i));
    }
  }

  /** A value not above its parent's may only need to move down. */
  lemma ReplacedDown(small: bool, v: seq<Ext>, k: int, x: Ext)
    requires Ordered(small, v) && 0 <= k < |v|
    requires k == 0 || !Before(small, x, v[Parent(k)])
    ensures DownExcept(small, v[k := x], k)
  {
    var w := v[k := x];
    if k > 0 {
      ParentOf(k, Parent(k));
    }
    forall i | 0 < i < |w| && Parent(i) != k
      ensures !Before(small, w[i], w[Parent(i)])
    {
      ParentOf(i, Parent(i));
    }
  }

  /** A node without children is where the downward move ends. */
  lemma LeafDone(small: bool, v: seq<Ext>, k: int)
    requires DownExcept(small, v, k) && FirstChild(k) >= |v|
    ensures Ordered(small, v)
  {
    forall i | 0 < i < |v| && Parent(i) == k
      ensures false
    {
      ParentOf(i, k);
    }
  }

  /** A value that belongs nowhere nearer the root than anything else may be
      appended as a new leaf. */
  lemma AppendWorst(small: bool, v: seq<Ext>, e: Ext)
    requires Ordered(small, v)
    requires e == (if small then NegInf else PosInf)
    ensures Ordered(small, v + [e])
  {
    var w := v + [e];
    forall i | 0 < i < |w|
      ensures !Before(small, w[i], w[Parent(i)])
    {
      ParentOf(i, Parent(i));
    }
  }
}
