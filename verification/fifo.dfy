/** The insertion list of both double heaps at the level of the C code's
    pointers: each node's `next`, and the handle's `first` and `last`.
    `mm_insert_init`, `mm_update` and their `zz_*` copies are the only
    code that moves them.  The heaps' own modules keep the list as the
    sequence of slots `order`, oldest first; `Circular` is the link between
    the two.

    As written, the first insert sets the first node's `next` to
    `l_heap[0]`, which is `nodes[max_s_heap_size]`.  For a window of two
    or more that is some pointer of the heap array, and the second insert
    overwrites it before any update reads it.  For a window of one,
    `max_s_heap_size` is 1 and `nodes[1]` lies past the one-entry pointer
    array, so the first update sets `first` to a word that is not a node
    address and the second update follows it.  The evidently intended
    behaviour, which the heap modules assume, is that a one-node list
    rotates onto itself; a first node linked to itself does exactly that. */
module Fifo {

  import opened Wrappers
  import DoubleHeap

  /** A node pointer as the code holds it: null, the address of node slot
      `slot`, or a word that is not the address of any node (read past the
      pointer array, or never set). */
  datatype Ptr = Null | To(slot: nat) | Junk

  /** The `next` field of every node slot, and the handle's `first` and
      `last`. */
  datatype Chain = Chain(next: seq<Ptr>, first: Ptr, last: Ptr)

  /** The word `node->next = l_heap[0]` reads.  The pointer array
      `nodes[]` has `window` entries and `l_heap` starts at entry
      `max_s_heap_size`; past the array lies the first node record. */
  function LHeapHead(window: nat, heap: seq<Ptr>): Ptr
    requires |heap| == window
  {
    var maxS := DoubleHeap.SmallCapacity(window);
    if maxS < window then heap[maxS] else Junk
  }

  /** `l_heap[0]` is an entry of the pointer array exactly when the window
      has room for a large heap, that is when it is at least two. */
  lemma LHeapHeadInArray(window: nat, heap: seq<Ptr>)
    requires |heap| == window && window >= 1
    ensures DoubleHeap.SmallCapacity(window) < window <==> window >= 2
    ensures window == 1 ==> LHeapHead(window, heap) == Junk
  {
  }

  /** The first insert: slot 0 becomes the whole list and its `next` is
      set to `head`. */
  function InsertFirst(c: Chain, head: Ptr): (r: Chain)
    requires |c.next| >= 1
    ensures |r.next| == |c.next| && r.next[1..] == c.next[1..]
    ensures r.first == To(0) && r.last == To(0) && r.next[0] == head
  {
    Chain(c.next[0 := head], To(0), To(0))
  }

  /** The first insert as written: `node->next = l_heap[0]`. */
  function InsertFirstAsWritten(c: Chain, heap: seq<Ptr>): (r: Chain)
    requires |c.next| >= 1 && |heap| == |c.next|
    ensures |r.next| == |c.next| && r.first == To(0) && r.last == To(0)
    ensures |c.next| == 1 ==> r.next[0] == Junk
    ensures |c.next| >= 2 ==> r.next[0] == heap[DoubleHeap.SmallCapacity(|c.next|)]
  {
    InsertFirst(c, LHeapHead(|c.next|, heap))
  }

  /** The first insert as intended: the first node is its own successor. */
  function InsertFirstLinked(c: Chain): (r: Chain)
    requires |c.next| >= 1
    ensures Circular(r, [0])
  {
    InsertFirst(c, To(0))
  }

  /** A pointer that can be followed: the address of a node slot. */
  predicate Follows(p: Ptr, n: nat) {
    p.To? && p.slot < n
  }

  /** `mm_update`'s relinking: the first node is taken, `first` moves to
      its `next`, the last node's `next` is set to it and it becomes the
      last.  Following a pointer that is not a node address has no defined
      result: `None`. */
  function Update(c: Chain): (r: Option<Chain>)
    ensures r.Some? <==> Follows(c.first, |c.next|) && Follows(c.last, |c.next|)
    ensures r.Some? ==> |r.value.next| == |c.next| && r.value.last == c.first
  {
    if Follows(c.first, |c.next|) && Follows(c.last, |c.next|) then
      var node := c.first.slot;
      Some(Chain(c.next[c.last.slot := c.first], c.next[node], c.first))
    else None
  }

  /** An insert after the first: the new node `q` is pushed in front with
      `first` as its `next`, and the update that follows moves it to the
      back. */
  function InsertLater(c: Chain, q: nat): (r: Option<Chain>)
    requires q < |c.next|
  {
    Update(Chain(c.next[q := c.first], To(q), c.last))
  }

  /** The position after `i` in a ring of `n`. */
  function Around(i: nat, n: nat): (j: nat)
    requires i < n
    ensures j < n
  {
    if i + 1 < n then i + 1 else 0
  }

  /** The pointers thread `order` in a ring: `first` and `last` are its
      ends and every node's `next` is the following node, the last node's
      being the first. */
  ghost predicate Circular(c: Chain, order: seq<nat>) {
    && |order| >= 1
    && (forall i, j :: 0 <= i < j < |order| ==> order[i] != order[j])
    && (forall i :: 0 <= i < |order| ==> order[i] < |c.next|)
    && c.first == To(order[0]) && c.last == To(order[|order| - 1])
    && (forall i {:trigger c.next[order[i]]} :: 0 <= i < |order| ==> c.next[order[i]] == To(order[Around(i, |order|)]))
  }

  /** On a ring, an update is defined and rotates the list exactly as the
      heap modules' `order` does. */
  lemma UpdateRotates(c: Chain, order: seq<nat>)
    requires Circular(c, order)
    ensures Update(c).Some?
    ensures Circular(Update(c).value, DoubleHeap.Rotate(order))
  {
    var r := Update(c).value;
    var o := DoubleHeap.Rotate(order);
    var n := |order|;
    assert c.next[order[n - 1]] == To(order[0]);
    assert r.next == c.next;
    RotateAt(order, 0);
    RotateAt(order, n - 1);
    forall i | 0 <= i < n
      ensures o[i] < |r.next| && r.next[o[i]] == To(o[Around(i, n)])
    {
      RotateAt(order, i);
      RotateAt(order, Around(i, n));
      assert c.next[order[Around(i, n)]] == To(order[Around(Around(i, n), n)]);
    }
    forall i, j | 0 <= i < j < n
      ensures o[i] != o[j]
    {
      RotateAt(order, i);
      RotateAt(order, j);
    }
  }

  /** Entry `i` of the rotated list is the entry after `i` in the ring. */
  lemma RotateAt(order: seq<nat>, i: nat)
    requires i < |order|
    ensures |DoubleHeap.Rotate(order)| == |order|
    ensures DoubleHeap.Rotate(order)[i] == order[Around(i, |order|)]
  {
  }

  /** On a ring, an insert into a free slot `q` is defined and adds `q` at
      the back, as `InsertInit` extends the heap modules' `order`. */
  lemma InsertLaterAppends(c: Chain, order: seq<nat>, q: nat)
    requires Circular(c, order) && q < |c.next| && q !in order
    ensures InsertLater(c, q).Some?
    ensures Circular(InsertLater(c, q).value, order + [q])
  {
    var c1 := Chain(c.next[q := c.first], To(q), c.last);
    var r := Update(c1).value;
    var o := order + [q];
    var n := |order|;
    assert r.next == c.next[q := To(order[0])][order[n - 1] := To(q)];
    forall i | 0 <= i < n + 1
      ensures r.next[o[i]] == To(o[Around(i, n + 1)])
    {
      if i < n - 1 {
        assert order[i] in order && order[i] != order[n - 1];
        assert c.next[order[i]] == To(order[Around(i, n)]);
      }
    }
    forall i, j | 0 <= i < j < n + 1
      ensures o[i] != o[j]
    {
      if j == n {
        assert o[i] in order;
      }
    }
  }

  /** For a window of two or more the code as written is sound: whatever
      the first insert stored in the first node's `next`, the second
      insert (into slot 1) overwrites it and leaves a ring. */
  lemma SecondInsertRepairs(c: Chain, head: Ptr)
    requires |c.next| >= 2
    ensures InsertLater(InsertFirst(c, head), 1).Some?
    ensures Circular(InsertLater(InsertFirst(c, head), 1).value, [0, 1])
  {
    var c1 := InsertFirst(c, head);
    var r := InsertLater(c1, 1).value;
    assert r.next[0] == To(1) && r.next[1] == To(0);
  }

  /** For a window of one the code as written goes wrong: the first
      insert reads `l_heap[0]` past the pointer array, the first update
      makes that word `first`, and the second update has no node to
      follow. */
  lemma WindowOneFollowsJunk(c: Chain, heap: seq<Ptr>)
    requires |c.next| == 1 && |heap| == 1
    ensures var c1 := InsertFirstAsWritten(c, heap);
      && Update(c1).Some? && Update(c1).value.first == Junk
      && Update(Update(c1).value).None?
  {
    LHeapHeadInArray(1, heap);
  }

  /** With the first node linked to itself, every window size works: the
      first insert leaves a ring, which every later insert and update
      keeps; for a window of one the update rotates the single node onto
      itself, which is what the heap modules' `Update` does. */
  lemma WindowOneLinked(c: Chain)
    requires |c.next| == 1
    ensures var c1 := InsertFirstLinked(c);
      && Update(c1).Some? && Circular(Update(c1).value, [0])
      && Update(Update(c1).value).Some?
  {
    var c1 := InsertFirstLinked(c);
    UpdateRotates(c1, [0]);
    assert DoubleHeap.Rotate([0]) == [0];
    UpdateRotates(Update(c1).value, [0]);
  }
}
