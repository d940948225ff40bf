/** The NaN lists of the NaN-aware double heap.  Each heap keeps the slots
    whose node holds NaN in a list, oldest first: a NaN that leaves the
    window is unlinked wherever it is, a new NaN is appended, and a
    rebalance takes the first NaN of one list to the end of the other.
    Here a list is the sequence of its slots. */
module NanList {

  import opened Wrappers
  import opened Counting

  /** No slot is listed twice. */
  ghost predicate Distinct(xs: seq<nat>) {
    forall i, j :: 0 <= i < j < |xs| ==> xs[i] != xs[j]
  }

  /** `xs` with `t` unlinked. */
  function Without(xs: seq<nat>, t: nat): (r: seq<nat>)
    ensures forall u :: u in r <==> u in xs && u != t
    ensures |r| <= |xs| && (t in xs ==> |r| < |xs|)
    ensures t !in xs ==> r == xs
  {
    if |xs| == 0 then []
    else if xs[0] == t then Without(xs[1..], t)
    else [xs[0]] + Without(xs[1..], t)
  }

  /** Unlinking keeps a list free of duplicates and shortens it by one. */
  lemma {:induction false} WithoutDistinct(xs: seq<nat>, t: nat)
    requires Distinct(xs)
    ensures Distinct(Without(xs, t))
    ensures t in xs ==> |Without(xs, t)| == |xs| - 1
  {
    if |xs| > 0 {
      assert Distinct(xs[1..]);
      WithoutDistinct(xs[1..], t);
      if xs[0] == t {
        assert t !in xs[1..];
      } else {
        assert xs[0] !in xs[1..];
        var r := Without(xs, t);
        forall i, j | 0 <= i < j < |r|
          ensures r[i] != r[j]
        {
          if i == 0 {
            assert r[j] in Without(xs[1..], t);
          }
        }
      }
    }
  }

  /** A duplicate-free sequence whose slots all occur in `b` is no longer
      than `b`. */
  lemma {:induction false} DistinctSubsetLength(a: seq<nat>, b: seq<nat>)
    requires Distinct(a) && forall t :: t in a ==> t in b
    ensures |a| <= |b|
    decreases |a|
  {
    if |a| > 0 {
      var a' := a[1..];
      var b' := Without(b, a[0]);
      assert a[0] in b;
      forall t | t in a'
        ensures t in b'
      {
        assert t != a[0];
      }
      assert Distinct(a');
      DistinctSubsetLength(a', b');
    }
  }

  /** A list holding exactly the members of a duplicate-free `h` that
      satisfy `P` has as many entries as `P` counts in `h`. */
  lemma {:induction false} CountMembers(h: seq<nat>, xs: seq<nat>, P: nat -> bool)
    requires Distinct(h) && Distinct(xs)
    requires forall t :: t in xs <==> t in h && P(t)
    ensures CountWhere(h, P) == |xs|
    decreases |h|
  {
    if |h| == 0 {
      DistinctSubsetLength(xs, h);
    } else {
      var t := h[|h| - 1];
      var h' := h[..|h| - 1];
      assert t !in h' by {
        forall i | 0 <= i < |h'|
          ensures h'[i] != t
        {
          assert h[i] != h[|h| - 1];
        }
      }
      assert forall u :: u in h' ==> u in h;
      assert forall u :: u in h && u != t ==> u in h' by {
        forall u | u in h && u != t
          ensures u in h'
        {
          var i :| 0 <= i < |h| && h[i] == u;
          assert i < |h| - 1 && h'[i] == u;
        }
      }
      if P(t) {
        WithoutDistinct(xs, t);
        CountMembers(h', Without(xs, t), P);
      } else {
        CountMembers(h', xs, P);
      }
    }
  }

  /** `xs` with entry `i` cut out is `xs` with its slot unlinked. */
  lemma {:induction false} WithoutAt(xs: seq<nat>, i: nat)
    requires Distinct(xs) && i < |xs|
    ensures Without(xs, xs[i]) == xs[..i] + xs[i + 1..]
  {
    if i == 0 {
      assert xs[0] !in xs[1..] by {
        forall j | 1 <= j < |xs|
          ensures xs[j] != xs[0]
        {
        }
      }
    } else {
      assert Distinct(xs[1..]);
      WithoutAt(xs[1..], i - 1);
      assert xs[0] != xs[i];
      WithoutAtLater(xs, i);
    }
  }

  /** The inductive step of `WithoutAt`: cutting entry `i > 0` out of
      `xs` is keeping `xs[0]` and cutting entry `i - 1` out of the rest. */
  lemma WithoutAtLater(xs: seq<nat>, i: nat)
    requires 0 < i < |xs| && xs[0] != xs[i]
    requires Without(xs[1..], xs[1..][i - 1]) == xs[1..][..i - 1] + xs[1..][i..]
    ensures Without(xs, xs[i]) == xs[..i] + xs[i + 1..]
  {
    assert xs[1..][i - 1] == xs[i];
    assert xs[1..][..i - 1] + xs[1..][i..] == xs[1..i] + xs[i + 1..];
    assert xs[..i] + xs[i + 1..] == [xs[0]] + (xs[1..i] + xs[i + 1..]);
  }

  // ---------------------------------------------------------------------
  // The lists as the code keeps them: `next_nan` and `prev_nan` in every
  // node, and a first and last pointer per list.

  /** The `next_nan` and `prev_nan` fields of the nodes, by slot; `None` is
      a null pointer. */
  datatype Links = Links(next: seq<Option<nat>>, prev: seq<Option<nat>>)

  /** `first_nan_*` and `last_nan_*` of one list. */
  datatype Ends = Ends(first: Option<nat>, last: Option<nat>)

  datatype Threaded = Threaded(links: Links, ends: Ends)

  predicate Below(o: Option<nat>, n: nat) {
    o.None? || o.value < n
  }

  /** Every pointer names a slot. */
  ghost predicate InRange(k: Links, e: Ends) {
    && |k.prev| == |k.next|
    && (forall u :: 0 <= u < |k.next| ==> Below(k.next[u], |k.next|) && Below(k.prev[u], |k.next|))
    && Below(e.first, |k.next|) && Below(e.last, |k.next|)
  }

  /** The pointers thread the slots `xs` in order: `first` and `last` are
      its ends (both null when it is empty), and each member's `next_nan`
      and `prev_nan` are its neighbours in `xs`, null at the ends. */
  ghost predicate Threads(k: Links, e: Ends, xs: seq<nat>) {
    && Distinct(xs)
    && (forall i :: 0 <= i < |xs| ==> xs[i] < |k.next| && xs[i] < |k.prev|)
    && (|xs| == 0 ==> e.first.None? && e.last.None?)
    && (|xs| > 0 ==> e.first == Some(xs[0]) && e.last == Some(xs[|xs| - 1]))
    && (forall i {:trigger k.next[xs[i]]} :: 0 <= i < |xs| ==> k.next[xs[i]] == Succ(xs, i))
    && (forall i {:trigger k.prev[xs[i]]} :: 0 <= i < |xs| ==> k.prev[xs[i]] == Pred(xs, i))
  }

  /** The neighbours of entry `i` of a list, `None` past its ends. */
  function Succ(xs: seq<nat>, i: nat): Option<nat>
    requires i < |xs|
  {
    if i + 1 < |xs| then Some(xs[i + 1]) else None
  }

  function Pred(xs: seq<nat>, i: nat): Option<nat>
    requires i < |xs|
  {
    if i == 0 then None else Some(xs[i - 1])
  }

  /** Only the pointers of the slots in `touched` differ. */
  ghost predicate Touches(k: Links, k': Links, touched: seq<nat>) {
    && |k'.next| == |k.next| && |k'.prev| == |k.prev|
    && forall u :: 0 <= u < |k.next| && u < |k.prev| && u !in touched ==> k'.next[u] == k.next[u] && k'.prev[u] == k.prev[u]
  }

  /** What the code's consistency check asserts of a list: the first
      pointer is null exactly when the last one is, the ends have null
      outward pointers, and each member's successor points back to it. */
  lemma ThreadsChecked(k: Links, e: Ends, xs: seq<nat>)
    requires Threads(k, e, xs)
    ensures e.first.None? <==> e.last.None?
    ensures e.first.None? <==> |xs| == 0
    ensures e.last.Some? ==> e.last.value < |k.next| && k.next[e.last.value].None?
    ensures e.first.Some? ==> e.first.value < |k.prev| && k.prev[e.first.value].None?
    ensures forall u :: u in xs && k.next[u].Some? ==> k.next[u].value < |k.prev| && k.prev[k.next[u].value] == Some(u)
    ensures forall u :: u in xs && k.next[u].Some? ==> k.next[u] != k.prev[u]
  {
    if |xs| > 0 {
      assert k.next[xs[|xs| - 1]] == Succ(xs, |xs| - 1);
      assert k.prev[xs[0]] == Pred(xs, 0);
    }
    forall u | u in xs && k.next[u].Some?
      ensures k.next[u].value < |k.prev| && k.prev[k.next[u].value] == Some(u)
      ensures k.next[u] != k.prev[u]
    {
      var i :| 0 <= i < |xs| && xs[i] == u;
      assert k.next[xs[i]] == Succ(xs, i);
      assert i + 1 < |xs|;
      assert k.prev[xs[i + 1]] == Pred(xs, i + 1);
      assert k.prev[xs[i]] == Pred(xs, i);
      if i > 0 {
        assert xs[i + 1] != xs[i - 1];
      }
    }
  }

  /** A list left alone by an update that touches none of its slots keeps
      its pointers. */
  lemma ThreadsFramed(k: Links, k': Links, e: Ends, ys: seq<nat>, touched: seq<nat>)
    requires Threads(k, e, ys) && Touches(k, k', touched)
    requires forall u :: u in ys ==> u !in touched
    ensures Threads(k', e, ys)
  {
    forall i | 0 <= i < |ys|
      ensures k'.next[ys[i]] == k.next[ys[i]] && k'.prev[ys[i]] == k.prev[ys[i]]
    {
      assert ys[i] in ys;
    }
  }

  /** Appending slot `t`, as `zz_update_withnan_skipevict` and the
      `move_nan_from_*` functions do: `t` gets a null `next_nan` and the
      old last node as `prev_nan`, and becomes the last (and, in an empty
      list, the first). */
  function Append(k: Links, e: Ends, t: nat): (r: Threaded)
    requires InRange(k, e) && t < |k.next|
    ensures InRange(r.links, r.ends)
  {
    var next := k.next[t := None];
    if e.first.None? then
      Threaded(Links(next, k.prev[t := None]), Ends(Some(t), Some(t)))
    else if e.last.None? then
      Threaded(Links(next, k.prev[t := None]), Ends(e.first, Some(t)))
    else
      Threaded(Links(next[e.last.value := Some(t)], k.prev[t := e.last]), Ends(e.first, Some(t)))
  }

  lemma AppendThreads(k: Links, e: Ends, xs: seq<nat>, t: nat)
    requires InRange(k, e) && Threads(k, e, xs) && t < |k.next| && t !in xs
    ensures Threads(Append(k, e, t).links, Append(k, e, t).ends, xs + [t])
    ensures Touches(k, Append(k, e, t).links, xs + [t])
  {
    var r := Append(k, e, t);
    var ys := xs + [t];
    AppendShape(k, e, xs, t);
    forall i | 0 <= i < |ys|
      ensures r.links.next[ys[i]] == Succ(ys, i)
      ensures r.links.prev[ys[i]] == Pred(ys, i)
    {
      if i < |xs| {
        AppendKeeps(k, e, xs, t, i);
      } else if i > 0 {
        assert ys[i - 1] == xs[|xs| - 1];
      }
    }
    AppendTouches(k, e, xs, t);
  }

  /** After `Append` the list is duplicate-free, its slots are in range
      and the ends name its first and last entries. */
  lemma AppendShape(k: Links, e: Ends, xs: seq<nat>, t: nat)
    requires InRange(k, e) && Threads(k, e, xs) && t < |k.next| && t !in xs
    ensures var r := Append(k, e, t); var ys := xs + [t];
      && Distinct(ys)
      && (forall j :: 0 <= j < |ys| ==> ys[j] < |r.links.next| && ys[j] < |r.links.prev|)
      && r.ends.first == Some(ys[0]) && r.ends.last == Some(ys[|ys| - 1])
  {
    var ys := xs + [t];
    forall i, j | 0 <= i < j < |ys|
      ensures ys[i] != ys[j]
    {
      if j == |xs| {
        assert ys[i] in xs;
      }
    }
  }

  /** `Append` changes only the pointers of the old last node and `t`. */
  lemma AppendTouches(k: Links, e: Ends, xs: seq<nat>, t: nat)
    requires InRange(k, e) && Threads(k, e, xs) && t < |k.next| && t !in xs
    ensures Touches(k, Append(k, e, t).links, xs + [t])
  {
    var r := Append(k, e, t);
    var ys := xs + [t];
    forall u | 0 <= u < |k.next| && u < |k.prev| && u !in ys
      ensures r.links.next[u] == k.next[u] && r.links.prev[u] == k.prev[u]
    {
      assert u != t;
      if |xs| > 0 {
        assert e.last == Some(xs[|xs| - 1]) && xs[|xs| - 1] in ys;
      }
    }
  }

  /** The pointers of an old member after `Append`: only the old last
      node's `next_nan` changes, to the new node. */
  lemma AppendKeeps(k: Links, e: Ends, xs: seq<nat>, t: nat, i: nat)
    requires InRange(k, e) && Threads(k, e, xs) && t < |k.next| && t !in xs && i < |xs|
    ensures Append(k, e, t).links.next[xs[i]] == Succ(xs + [t], i)
    ensures Append(k, e, t).links.prev[xs[i]] == Pred(xs + [t], i)
  {
    var ys := xs + [t];
    assert xs[i] != t by {
      assert xs[i] in xs;
    }
    assert k.next[xs[i]] == Succ(xs, i) && k.prev[xs[i]] == Pred(xs, i);
    assert e.last == Some(xs[|xs| - 1]);
    if i + 1 < |xs| {
      assert xs[i] != xs[|xs| - 1];
      assert ys[i + 1] == xs[i + 1];
    } else {
      assert ys[i + 1] == t;
    }
    if i > 0 {
      assert ys[i - 1] == xs[i - 1];
    }
  }

  /** Unlinking slot `t`, as `zz_update_withnan` does for a departing
      NaN.  From the first node: the first pointer moves on and the new
      first node's `prev_nan` is cleared, or the list becomes empty.
      Elsewhere: the predecessor is linked to the successor, or becomes the
      last node, and `t`'s `next_nan` is cleared.  The code asserts that a
      node other than the first has a predecessor. */
  function Unlink(k: Links, e: Ends, t: nat): (r: Threaded)
    requires InRange(k, e) && t < |k.next|
    requires e.first == Some(t) || k.prev[t].Some?
    ensures InRange(r.links, r.ends)
  {
    if e.first == Some(t) then
      var after := k.next[t];
      if after.None? then Threaded(k, Ends(None, None))
      else Threaded(Links(k.next, k.prev[after.value := None]), Ends(after, e.last))
    else
      var before := k.prev[t].value;
      var after := k.next[t];
      var next := k.next[before := after];
      if after.None? then Threaded(Links(next[t := None], k.prev), Ends(e.first, Some(before)))
      else Threaded(Links(next[t := None], k.prev[after.value := Some(before)]), e)
  }

  lemma UnlinkThreads(k: Links, e: Ends, xs: seq<nat>, t: nat)
    requires InRange(k, e) && Threads(k, e, xs) && t in xs
    ensures t < |k.next| && (e.first == Some(t) || k.prev[t].Some?)
    ensures Threads(Unlink(k, e, t).links, Unlink(k, e, t).ends, Without(xs, t))
    ensures Touches(k, Unlink(k, e, t).links, xs)
  {
    var i :| 0 <= i < |xs| && xs[i] == t;
    WithoutAt(xs, i);
    if i == 0 {
      UnlinkFirst(k, e, xs);
      assert xs[..0] + xs[1..] == xs[1..];
    } else {
      assert xs[0] != xs[i];
      assert k.prev[xs[i]] == Some(xs[i - 1]);
      UnlinkInner(k, e, xs, i);
    }
  }

  lemma UnlinkFirst(k: Links, e: Ends, xs: seq<nat>)
    requires InRange(k, e) && Threads(k, e, xs) && |xs| > 0
    ensures Threads(Unlink(k, e, xs[0]).links, Unlink(k, e, xs[0]).ends, xs[1..])
    ensures Touches(k, Unlink(k, e, xs[0]).links, xs)
  {
    var r := Unlink(k, e, xs[0]);
    var p := PopFirst(k, e);
    PopFirstThreads(k, e, xs);
    assert r.links.next == k.next && p.links.next == k.next[xs[0] := None];
    assert r.links.prev == p.links.prev && r.ends == p.ends;
    ThreadsAgree(p.links, r.links, r.ends, xs[1..]);
  }

  /** `Threads` depends only on the pointers of the list's own members. */
  lemma ThreadsAgree(k: Links, k': Links, e: Ends, ys: seq<nat>)
    requires Threads(k, e, ys)
    requires |k'.next| == |k.next| && |k'.prev| == |k.prev|
    requires forall j :: 0 <= j < |ys| ==> k'.next[ys[j]] == k.next[ys[j]] && k'.prev[ys[j]] == k.prev[ys[j]]
    ensures Threads(k', e, ys)
  {
  }

  lemma UnlinkInner(k: Links, e: Ends, xs: seq<nat>, i: nat)
    requires InRange(k, e) && Threads(k, e, xs) && 0 < i < |xs|
    requires e.first != Some(xs[i]) && k.prev[xs[i]] == Some(xs[i - 1])
    ensures Threads(Unlink(k, e, xs[i]).links, Unlink(k, e, xs[i]).ends, xs[..i] + xs[i + 1..])
    ensures Touches(k, Unlink(k, e, xs[i]).links, xs)
  {
    var r := Unlink(k, e, xs[i]);
    var ys := xs[..i] + xs[i + 1..];
    var before, after := xs[i - 1], Succ(xs, i);
    assert k.next[xs[i]] == after;
    assert r.links.next == k.next[before := after][xs[i] := None];
    assert r.links.prev == if after.None? then k.prev else k.prev[after.value := Some(before)];
    assert r.ends == if after.None? then Ends(e.first, Some(before)) else e;
    SpliceDistinct(xs, i);
    assert ys[0] == xs[0];
    assert ys[|ys| - 1] == if after.None? then before else xs[|xs| - 1];
    SpliceNext(k.next, r.links.next, xs, ys, i);
    SplicePrev(k.prev, r.links.prev, xs, ys, i);
    SpliceTouches(k, r.links, xs, i);
    ThreadsIntro(r.links, r.ends, ys);
  }

  /** `Threads` from its parts, for a non-empty list. */
  lemma ThreadsIntro(k: Links, e: Ends, ys: seq<nat>)
    requires Distinct(ys) && |ys| > 0
    requires e.first == Some(ys[0]) && e.last == Some(ys[|ys| - 1])
    requires forall j :: 0 <= j < |ys| ==> ys[j] < |k.next| && ys[j] < |k.prev|
    requires forall j {:trigger k.next[ys[j]]} :: 0 <= j < |ys| ==> k.next[ys[j]] == Succ(ys, j)
    requires forall j {:trigger k.prev[ys[j]]} :: 0 <= j < |ys| ==> k.prev[ys[j]] == Pred(ys, j)
    ensures Threads(k, e, ys)
  {
  }

  /** An inner unlink rewrites only the pointers of `xs[i]` and its two
      neighbours. */
  lemma SpliceTouches(k: Links, k': Links, xs: seq<nat>, i: nat)
    requires 0 < i < |xs|
    requires forall j :: 0 <= j < |xs| ==> xs[j] < |k.next| && xs[j] < |k.prev|
    requires k'.next == k.next[xs[i - 1] := Succ(xs, i)][xs[i] := None]
    requires k'.prev == if i + 1 < |xs| then k.prev[xs[i + 1] := Some(xs[i - 1])] else k.prev
    ensures Touches(k, k', xs)
  {
    assert xs[i - 1] in xs && xs[i] in xs;
    if i + 1 < |xs| {
      assert xs[i + 1] in xs;
    }
  }

  /** Entry `j` of `xs` with entry `i` cut out. */
  lemma SpliceDistinct(xs: seq<nat>, i: nat)
    requires Distinct(xs) && i < |xs|
    ensures |xs[..i] + xs[i + 1..]| == |xs| - 1
    ensures forall j :: 0 <= j < |xs| - 1 ==> (xs[..i] + xs[i + 1..])[j] == if j < i then xs[j] else xs[j + 1]
    ensures Distinct(xs[..i] + xs[i + 1..])
    ensures forall u :: u in xs[..i] + xs[i + 1..] <==> u in xs && u != xs[i]
  {
    var ys := xs[..i] + xs[i + 1..];
    forall j | 0 <= j < |ys|
      ensures ys[j] == if j < i then xs[j] else xs[j + 1]
    {
    }
    forall a, b | 0 <= a < b < |ys|
      ensures ys[a] != ys[b]
    {
      var a0 := if a < i then a else a + 1;
      var b0 := if b < i then b else b + 1;
      assert ys[a] == xs[a0] && ys[b] == xs[b0];
    }
    forall u
      ensures u in ys <==> u in xs && u != xs[i]
    {
      if u in ys {
        var j :| 0 <= j < |ys| && ys[j] == u;
        var j0 := if j < i then j else j + 1;
        assert xs[j0] == u;
      }
      if u in xs && u != xs[i] {
        var j :| 0 <= j < |xs| && xs[j] == u;
        assert ys[if j < i then j else j - 1] == u;
      }
    }
  }

  /** After an inner unlink the predecessor's `next_nan` skips `xs[i]`. */
  lemma SpliceNext(next: seq<Option<nat>>, next': seq<Option<nat>>, xs: seq<nat>, ys: seq<nat>, i: nat)
    requires Distinct(xs) && 0 < i < |xs|
    requires forall j :: 0 <= j < |xs| ==> xs[j] < |next| && next[xs[j]] == Succ(xs, j)
    requires next' == next[xs[i - 1] := Succ(xs, i)][xs[i] := None]
    requires ys == xs[..i] + xs[i + 1..]
    ensures forall j :: 0 <= j < |ys| ==> ys[j] < |next'| && next'[ys[j]] == Succ(ys, j)
  {
    SpliceDistinct(xs, i);
    forall j | 0 <= j < |ys|
      ensures ys[j] < |next'| && next'[ys[j]] == Succ(ys, j)
    {
      if j < i - 1 {
        assert xs[j] != xs[i - 1] && xs[j] != xs[i];
        assert next[xs[j]] == Succ(xs, j);
      } else if j == i - 1 {
        assert xs[i - 1] != xs[i];
      } else {
        assert xs[j + 1] != xs[i - 1] && xs[j + 1] != xs[i];
        assert next[xs[j + 1]] == Succ(xs, j + 1);
      }
    }
  }

  /** After an inner unlink the successor's `prev_nan` skips `xs[i]`. */
  lemma SplicePrev(prev: seq<Option<nat>>, prev': seq<Option<nat>>, xs: seq<nat>, ys: seq<nat>, i: nat)
    requires Distinct(xs) && 0 < i < |xs|
    requires forall j :: 0 <= j < |xs| ==> xs[j] < |prev| && prev[xs[j]] == Pred(xs, j)
    requires prev' == if i + 1 < |xs| then prev[xs[i + 1] := Some(xs[i - 1])] else prev
    requires ys == xs[..i] + xs[i + 1..]
    ensures forall j :: 0 <= j < |ys| ==> ys[j] < |prev'| && prev'[ys[j]] == Pred(ys, j)
  {
    SpliceDistinct(xs, i);
    forall j | 0 <= j < |ys|
      ensures ys[j] < |prev'| && prev'[ys[j]] == Pred(ys, j)
    {
      if j < i {
        assert prev[xs[j]] == Pred(xs, j);
        if i + 1 < |xs| {
          assert xs[j] != xs[i + 1];
        }
      } else if j == i {
        assert prev[xs[i + 1]] == Pred(xs, i + 1);
      } else {
        assert xs[j + 1] != xs[i + 1];
        assert prev[xs[j + 1]] == Pred(xs, j + 1);
      }
    }
  }

  /** Taking the first node off a list, as the `move_nan_from_*` functions
      do: the first pointer moves on and the new first node's `prev_nan`
      is cleared, or the list becomes empty; the node taken gets a null
      `next_nan`. */
  function PopFirst(k: Links, e: Ends): (r: Threaded)
    requires InRange(k, e) && e.first.Some?
    ensures InRange(r.links, r.ends)
  {
    var t := e.first.value;
    var after := k.next[t];
    if after.None? then Threaded(Links(k.next[t := None], k.prev), Ends(None, None))
    else Threaded(Links(k.next[t := None], k.prev[after.value := None]), Ends(after, e.last))
  }

  lemma PopFirstThreads(k: Links, e: Ends, xs: seq<nat>)
    requires InRange(k, e) && Threads(k, e, xs) && |xs| > 0
    ensures e.first == Some(xs[0])
    ensures Threads(PopFirst(k, e).links, PopFirst(k, e).ends, xs[1..])
    ensures Touches(k, PopFirst(k, e).links, xs)
  {
    var r := PopFirst(k, e);
    var ys := xs[1..];
    PopShape(k, e, xs);
    forall j | 0 <= j < |ys|
      ensures r.links.next[ys[j]] == Succ(ys, j)
      ensures r.links.prev[ys[j]] == Pred(ys, j)
    {
      PopKeeps(k, e, xs, j);
    }
    PopTouches(k, e, xs);
  }

  /** After `PopFirst` the rest of the list is duplicate-free, its slots
      are in range and the ends name its first and last entries. */
  lemma PopShape(k: Links, e: Ends, xs: seq<nat>)
    requires InRange(k, e) && Threads(k, e, xs) && |xs| > 0
    ensures var r := PopFirst(k, e); var ys := xs[1..];
      && Distinct(ys)
      && (forall j :: 0 <= j < |ys| ==> ys[j] < |r.links.next| && ys[j] < |r.links.prev|)
      && (|ys| == 0 ==> r.ends.first.None? && r.ends.last.None?)
      && (|ys| > 0 ==> r.ends.first == Some(ys[0]) && r.ends.last == Some(ys[|ys| - 1]))
  {
    var ys := xs[1..];
    assert k.next[xs[0]] == Succ(xs, 0);
    assert Distinct(ys) by {
      forall i, j | 0 <= i < j < |ys|
        ensures ys[i] != ys[j]
      {
        assert ys[i] == xs[i + 1] && ys[j] == xs[j + 1];
      }
    }
  }

  /** `PopFirst` changes only the pointers of list members. */
  lemma PopTouches(k: Links, e: Ends, xs: seq<nat>)
    requires InRange(k, e) && Threads(k, e, xs) && |xs| > 0
    ensures Touches(k, PopFirst(k, e).links, xs)
  {
    var r := PopFirst(k, e);
    assert k.next[xs[0]] == Succ(xs, 0);
    forall u | 0 <= u < |k.next| && u < |k.prev| && u !in xs
      ensures r.links.next[u] == k.next[u] && r.links.prev[u] == k.prev[u]
    {
      if |xs| > 1 {
        assert xs[1] in xs;
      }
    }
  }

  /** The pointers of a remaining member after `PopFirst`: only the new
      first node's `prev_nan` changes, to null. */
  lemma PopKeeps(k: Links, e: Ends, xs: seq<nat>, j: nat)
    requires InRange(k, e) && Threads(k, e, xs) && j + 1 < |xs|
    ensures PopFirst(k, e).links.next[xs[j + 1]] == Succ(xs[1..], j)
    ensures PopFirst(k, e).links.prev[xs[j + 1]] == Pred(xs[1..], j)
  {
    var ys := xs[1..];
    assert ys[j] == xs[j + 1];
    assert xs[j + 1] != xs[0];
    assert k.next[xs[0]] == Succ(xs, 0);
    assert k.next[xs[j + 1]] == Succ(xs, j + 1) && k.prev[xs[j + 1]] == Pred(xs, j + 1);
    if j + 1 < |ys| {
      assert ys[j + 1] == xs[j + 2];
    }
    if j > 0 {
      assert xs[j + 1] != xs[1];
      assert ys[j - 1] == xs[j];
    }
  }

  // ---------------------------------------------------------------------
  // Both lists of a heap pair share the `next_nan` and `prev_nan` fields,
  // so a step that takes a node off one list and puts it on the other (or
  // back on the same one) must keep both threaded.

  /** The two NaN lists of a heap pair: each threaded through the same
      pointer fields, with no slot on both. */
  ghost predicate BothThreaded(k: Links, es: Ends, el: Ends, xs: seq<nat>, ys: seq<nat>) {
    && InRange(k, es) && InRange(k, el)
    && Threads(k, es, xs) && Threads(k, el, ys)
    && (forall u :: u in xs ==> u !in ys)
  }

  /** `move_nan_from_s_to_l` and `move_nan_from_l_to_s`: the first node of
      one list becomes the last of the other, and both stay threaded. */
  lemma MoveThreads(k: Links, ex: Ends, ey: Ends, xs: seq<nat>, ys: seq<nat>)
    requires BothThreaded(k, ex, ey, xs, ys) && |xs| > 0
    ensures var p := PopFirst(k, ex); var a := Append(p.links, ey, xs[0]);
      BothThreaded(a.links, p.ends, a.ends, xs[1..], ys + [xs[0]])
  {
    var t := xs[0];
    var p := PopFirst(k, ex);
    PopFirstThreads(k, ex, xs);
    ThreadsFramed(k, p.links, ey, ys, xs);
    assert t in xs;
    AppendThreads(p.links, ey, ys, t);
    var a := Append(p.links, ey, t);
    forall u | u in xs[1..]
      ensures u !in ys + [t]
    {
      var j :| 0 <= j < |xs[1..]| && xs[1..][j] == u;
      assert xs[j + 1] != xs[0];
      assert u in xs;
    }
    ThreadsFramed(p.links, a.links, p.ends, xs[1..], ys + [t]);
  }

  /** `zz_update_withnan` then `zz_update_withnan_skipevict` when a NaN
      leaves one heap and the new NaN goes to the other: the departing
      node is unlinked from its list and appended to the other list. */
  lemma EvictAcrossThreads(k: Links, ex: Ends, ey: Ends, xs: seq<nat>, ys: seq<nat>, t: nat)
    requires BothThreaded(k, ex, ey, xs, ys) && t in xs
    ensures t < |k.next| && (ex.first == Some(t) || k.prev[t].Some?)
    ensures var u := Unlink(k, ex, t); var a := Append(u.links, ey, t);
      BothThreaded(a.links, u.ends, a.ends, Without(xs, t), ys + [t])
  {
    var u := Unlink(k, ex, t);
    UnlinkThreads(k, ex, xs, t);
    ThreadsFramed(k, u.links, ey, ys, xs);
    AppendThreads(u.links, ey, ys, t);
    var a := Append(u.links, ey, t);
    ThreadsFramed(u.links, a.links, u.ends, Without(xs, t), ys + [t]);
  }

  /** The same steps when the new NaN goes to the heap the old one left:
      the node moves to the end of its own list; the other list is not
      touched. */
  lemma EvictWithinThreads(k: Links, ex: Ends, ey: Ends, xs: seq<nat>, ys: seq<nat>, t: nat)
    requires BothThreaded(k, ex, ey, xs, ys) && t in xs
    ensures t < |k.next| && (ex.first == Some(t) || k.prev[t].Some?)
    ensures var u := Unlink(k, ex, t); var a := Append(u.links, u.ends, t);
      BothThreaded(a.links, a.ends, ey, Without(xs, t) + [t], ys)
  {
    var u := Unlink(k, ex, t);
    UnlinkThreads(k, ex, xs, t);
    ThreadsFramed(k, u.links, ey, ys, xs);
    AppendThreads(u.links, u.ends, Without(xs, t), t);
    var a := Append(u.links, u.ends, t);
    ThreadsFramed(u.links, a.links, ey, ys, Without(xs, t) + [t]);
  }

  /** A NaN that leaves while a number arrives: the node is only unlinked,
      and the other list is not touched. */
  lemma EvictOnlyThreads(k: Links, ex: Ends, ey: Ends, xs: seq<nat>, ys: seq<nat>, t: nat)
    requires BothThreaded(k, ex, ey, xs, ys) && t in xs
    ensures t < |k.next| && (ex.first == Some(t) || k.prev[t].Some?)
    ensures var u := Unlink(k, ex, t);
      BothThreaded(u.links, u.ends, ey, Without(xs, t), ys)
  {
    var u := Unlink(k, ex, t);
    UnlinkThreads(k, ex, xs, t);
    ThreadsFramed(k, u.links, ey, ys, xs);
  }

  /** A NaN that arrives in a node not on either list (the departing value
      was a number, or the window is still filling): it is appended to one
      list and the other is not touched. */
  lemma AddOnlyThreads(k: Links, ex: Ends, ey: Ends, xs: seq<nat>, ys: seq<nat>, t: nat)
    requires BothThreaded(k, ex, ey, xs, ys) && t < |k.next| && t !in xs && t !in ys
    ensures var a := Append(k, ex, t);
      BothThreaded(a.links, a.ends, ey, xs + [t], ys)
  {
    AppendThreads(k, ex, xs, t);
    var a := Append(k, ex, t);
    ThreadsFramed(k, a.links, ey, ys, xs + [t]);
  }
}
