/** Cardinality facts about finite sets of indices, permutations of `0..n-1`,
    and order statistics ("the k-th smallest value") of a sequence.  The
    selection, ranking and moving-median kernels are all specified through
    these. */
module Counting {

  import opened Wrappers

  /** The indices `0..n-1` as a set. */
  function Below(n: nat): (r: set<int>)
    ensures |r| == n
    ensures forall i :: i in r <==> 0 <= i < n
  {
    if n == 0 then {} else Below(n - 1) + {n - 1}
  }

  lemma SubsetCard<T>(a: set<T>, b: set<T>)
    requires a <= b
    ensures |a| <= |b|
    ensures |a| == |b| ==> a == b
  {
    assert b == a + (b - a);
  }

  /** `z`, read as a map on indices, sends distinct members of `s` apart. */
  ghost predicate InjectiveOn(z: seq<int>, s: set<int>) {
    && (forall i :: i in s ==> 0 <= i < |z|)
    && (forall i, j :: i in s && j in s && z[i] == z[j] ==> i == j)
  }

  /** The image of a set of indices under `z`. */
  ghost function Image(z: seq<int>, s: set<int>): set<int>
    requires forall i :: i in s ==> 0 <= i < |z|
  {
    set i | i in s :: z[i]
  }

  lemma InjectiveOnSubset(z: seq<int>, s: set<int>, t: set<int>)
    requires InjectiveOn(z, s)
    requires t <= s
    ensures InjectiveOn(z, t)
  {
  }

  /** Adding one index to a set on which `z` is injective adds one image. */
  lemma ImageAddOne(z: seq<int>, t: set<int>, x: int)
    requires InjectiveOn(z, t + {x})
    requires x !in t
    ensures |Image(z, t + {x})| == |Image(z, t)| + 1
  {
    assert Image(z, t + {x}) == Image(z, t) + {z[x]};
    assert z[x] !in Image(z, t);
  }

  /** An injective map preserves the size of the members of `s` below `k`. */
  lemma {:induction false} ImageCardBelow(s: set<int>, z: seq<int>, k: nat)
    requires InjectiveOn(z, s)
    ensures |Image(z, s * Below(k))| == |s * Below(k)|
  {
    if k == 0 {
      assert s * Below(k) == {};
    } else {
      ImageCardBelow(s, z, k - 1);
      var prev := s * Below(k - 1);
      if k - 1 in s {
        assert s * Below(k) == prev + {k - 1};
        InjectiveOnSubset(z, s, prev + {k - 1});
        ImageAddOne(z, prev, k - 1);
      } else {
        assert s * Below(k) == prev;
      }
    }
  }

  /** An injective map preserves the size of the set it is applied to. */
  lemma ImageCard(s: set<int>, z: seq<int>)
    requires InjectiveOn(z, s)
    ensures |Image(z, s)| == |s|
  {
    ImageCardBelow(s, z, |z|);
    assert s * Below(|z|) == s;
  }

  /** `z` lists each of `0..n-1` exactly once. */
  ghost predicate IsPermutation(z: seq<int>, n: nat) {
    && |z| == n
    && (forall p :: 0 <= p < n ==> 0 <= z[p] < n)
    && (forall p, q :: 0 <= p < q < n ==> z[p] != z[q])
  }

  lemma PermutationInjective(z: seq<int>, n: nat)
    requires IsPermutation(z, n)
    ensures InjectiveOn(z, Below(n))
  {
    forall i, j | i in Below(n) && j in Below(n) && z[i] == z[j]
      ensures i == j
    {
    }
  }

  /** Every index in range is hit by a permutation: otherwise the image of
      `0..n-1` would fit in `n - 1` places. */
  lemma PermutationOnto(z: seq<int>, n: nat, v: int)
    requires IsPermutation(z, n)
    requires 0 <= v < n
    ensures exists p :: 0 <= p < n && z[p] == v
  {
    if forall p :: 0 <= p < n ==> z[p] != v {
      PermutationInjective(z, n);
      ImageCard(Below(n), z);
      var rest := Below(n) - {v};
      assert Image(z, Below(n)) <= rest;
      SubsetCard(Image(z, Below(n)), rest);
      assert false;
    }
  }

  /** The identity permutation `0..n-1`. */
  function Identity(n: nat): (r: seq<int>)
    ensures |r| == n
    ensures forall i :: 0 <= i < n ==> r[i] == i
  {
    seq(n, i => i)
  }

  // ---------------------------------------------------------------------
  // Counting entries of a sequence.

  /** The positions of the entries satisfying `P`. */
  ghost function Where<T>(w: seq<T>, P: T -> bool): (r: set<int>)
    ensures forall i :: i in r <==> 0 <= i < |w| && P(w[i])
  {
    set i | 0 <= i < |w| && P(w[i])
  }

  /** Number of entries satisfying `P`, counted from the front. */
  ghost function CountWhere<T>(w: seq<T>, P: T -> bool): nat {
    if |w| == 0 then 0
    else CountWhere(w[..|w| - 1], P) + (if P(w[|w| - 1]) then 1 else 0)
  }

  /** The count is the number of positions satisfying `P`. */
  lemma {:induction false} CountWhereIsCard<T>(w: seq<T>, P: T -> bool)
    ensures CountWhere(w, P) == |Where(w, P)|
  {
    if |w| > 0 {
      var w' := w[..|w| - 1];
      CountWhereIsCard(w', P);
      if P(w[|w| - 1]) {
        assert Where(w, P) == Where(w', P) + {|w| - 1};
      } else {
        assert Where(w, P) == Where(w', P);
      }
    }
  }

  lemma CountWhereMonotone<T>(w: seq<T>, P: T -> bool, Q: T -> bool)
    requires forall x :: P(x) ==> Q(x)
    ensures CountWhere(w, P) <= CountWhere(w, Q)
  {
    CountWhereIsCard(w, P);
    CountWhereIsCard(w, Q);
    SubsetCard(Where(w, P), Where(w, Q));
  }

    /** Exchange two entries. */
  function Swap<T>(s: seq<T>, i: int, j: int): (r: seq<T>)
    requires 0 <= i < |s| && 0 <= j < |s|
    ensures |r| == |s| && r[i] == s[j] && r[j] == s[i]
    ensures forall m :: 0 <= m < |s| && m != i && m != j ==> r[m] == s[m]
    ensures multiset(r) == multiset(s)
  {
    s[i := s[j]][j := s[i]]
  }

/** `b` lists the entries of `a` in the order given by the permutation `y`. */
  ghost predicate Permuted<T>(a: seq<T>, b: seq<T>, y: seq<int>) {
    && IsPermutation(y, |a|)
    && |b| == |a|
    && (forall m :: 0 <= m < |b| ==> b[m] == a[y[m]])
  }

  /** Reordering a sequence does not change how many entries satisfy `P`. */
  lemma PermutedCount<T>(a: seq<T>, b: seq<T>, y: seq<int>, P: T -> bool)
    requires Permuted(a, b, y)
    ensures CountWhere(b, P) == CountWhere(a, P)
  {
    CountWhereIsCard(a, P);
    CountWhereIsCard(b, P);
    var sb := Where(b, P);
    var sa := Where(a, P);
    PermutationInjective(y, |a|);
    InjectiveOnSubset(y, Below(|a|), sb);
    ImageCard(sb, y);
    var img := Image(y, sb);
    assert img <= sa;
    forall i | i in sa
      ensures i in img
    {
      PermutationOnto(y, |a|, i);
      var p :| 0 <= p < |a| && y[p] == i;
      assert p in sb;
    }
    assert img == sa;
  }

  lemma {:induction false} MultiplicityIsPositions<T>(w: seq<T>, v: T)
    ensures multiset(w)[v] == |set i | 0 <= i < |w| && w[i] == v|
  {
    if |w| > 0 {
      var w' := w[..|w| - 1];
      MultiplicityIsPositions(w', v);
      assert w == w' + [w[|w| - 1]];
      var all := set i | 0 <= i < |w| && w[i] == v;
      var front := set i | 0 <= i < |w'| && w'[i] == v;
      if w[|w| - 1] == v {
        assert all == front + {|w| - 1};
        assert |w| - 1 !in front;
      } else {
        assert all == front;
      }
    }
  }

  /** A multiset's multiplicity is the number of positions holding the
      value. */
  lemma MultiplicityIsCount<T>(w: seq<T>, v: T)
    ensures multiset(w)[v] == CountWhere(w, x => x == v)
  {
    MultiplicityIsPositions(w, v);
    CountWhereIsCard(w, x => x == v);
    assert (set i | 0 <= i < |w| && w[i] == v) == Where(w, x => x == v);
  }

  /** Reordering keeps the multiset of entries. */
  lemma PermutedMultiset<T>(a: seq<T>, b: seq<T>, y: seq<int>)
    requires Permuted(a, b, y)
    ensures multiset(b) == multiset(a)
  {
    forall v
      ensures multiset(b)[v] == multiset(a)[v]
    {
      MultiplicityIsCount(a, v);
      MultiplicityIsCount(b, v);
      PermutedCount(a, b, y, x => x == v);
    }
  }

  // ---------------------------------------------------------------------
  /** Counting over a concatenation adds up. */
  lemma {:induction false} CountWhereConcat<T>(u: seq<T>, v: seq<T>, P: T -> bool)
    ensures CountWhere(u + v, P) == CountWhere(u, P) + CountWhere(v, P)
    decreases |v|
  {
    if |v| == 0 {
      assert u + v == u;
    } else {
      var v' := v[..|v| - 1];
      assert (u + v)[..|u + v| - 1] == u + v';
      CountWhereConcat(u, v', P);
    }
  }

  /** A count depends only on which entries occur how often, not on their
      order. */
  lemma {:induction false} CountWhereByMultiset<T>(a: seq<T>, b: seq<T>, P: T -> bool)
    requires multiset(a) == multiset(b)
    ensures CountWhere(a, P) == CountWhere(b, P)
    decreases |a|
  {
    if |a| == 0 {
      assert |b| == |multiset(b)| == 0;
    } else {
      var x := a[|a| - 1];
      var a' := a[..|a| - 1];
      assert a == a' + [x];
      assert x in multiset(b);
      var j :| 0 <= j < |b| && b[j] == x;
      var b' := b[..j] + b[j + 1..];
      assert b == b[..j] + [x] + b[j + 1..];
      assert multiset(b) == multiset(b[..j]) + multiset{x} + multiset(b[j + 1..]);
      assert multiset(a) == multiset(a') + multiset{x};
      assert multiset(b') == multiset(b[..j]) + multiset(b[j + 1..]);
      assert multiset(a') == multiset(a) - multiset{x};
      assert multiset(a') == multiset(b');
      CountWhereByMultiset(a', b', P);
      CountWhereConcat(b[..j], [x], P);
      CountWhereConcat(b[..j] + [x], b[j + 1..], P);
      CountWhereConcat(b[..j], b[j + 1..], P);
      assert [x][..0] == [];
    }
  }

  /** `f` applied to every entry. */
  function Map<A, B>(f: A -> B, a: seq<A>): (r: seq<B>)
    ensures |r| == |a| && forall i :: 0 <= i < |a| ==> r[i] == f(a[i])
  {
    seq(|a|, i requires 0 <= i < |a| => f(a[i]))
  }

  /** Counting the images that satisfy `P` is counting the entries whose
      image does. */
  lemma {:induction false} CountWhereMap<A, B>(f: A -> B, a: seq<A>, P: B -> bool, Q: A -> bool)
    requires forall x :: Q(x) == P(f(x))
    ensures CountWhere(Map(f, a), P) == CountWhere(a, Q)
    decreases |a|
  {
    if |a| > 0 {
      assert Map(f, a)[..|a| - 1] == Map(f, a[..|a| - 1]);
      CountWhereMap(f, a[..|a| - 1], P, Q);
    }
  }

  /** Entries satisfying `P` also satisfy `Q`; one that satisfies `Q` but
      not `P` makes the count strictly smaller. */
  lemma CountWhereBelow<T>(w: seq<T>, P: T -> bool, Q: T -> bool, j: int)
    requires forall i :: 0 <= i < |w| ==> P(w[i]) ==> Q(w[i])
    ensures CountWhere(w, P) <= CountWhere(w, Q)
    ensures 0 <= j < |w| && Q(w[j]) && !P(w[j]) ==> CountWhere(w, P) < CountWhere(w, Q)
  {
    CountWhereIsCard(w, P);
    CountWhereIsCard(w, Q);
    SubsetCard(Where(w, P), Where(w, Q));
    if 0 <= j < |w| && Q(w[j]) && !P(w[j]) {
      assert j in Where(w, Q) - Where(w, P);
    }
  }

  /** No entry satisfies `P`: the count is zero. */
  lemma CountWhereNone<T>(w: seq<T>, P: T -> bool)
    requires forall i :: 0 <= i < |w| ==> !P(w[i])
    ensures CountWhere(w, P) == 0
  {
    CountWhereIsCard(w, P);
    assert Where(w, P) == {};
  }

  /** Every entry satisfies `P`: all are counted. */
  lemma CountWhereAll<T>(w: seq<T>, P: T -> bool)
    requires forall i :: 0 <= i < |w| ==> P(w[i])
    ensures CountWhere(w, P) == |w|
  {
    CountWhereIsCard(w, P);
    assert Where(w, P) == Below(|w|);
  }

  /** A positive count has a witness. */
  lemma CountWhereWitness<T>(w: seq<T>, P: T -> bool) returns (j: int)
    requires CountWhere(w, P) > 0
    ensures 0 <= j < |w| && P(w[j])
  {
    CountWhereIsCard(w, P);
    var i :| i in Where(w, P);
    j := i;
  }

  /** Predicates that agree on every entry count the same. */
  lemma CountWhereSame<T>(w: seq<T>, P: T -> bool, Q: T -> bool)
    requires forall i :: 0 <= i < |w| ==> P(w[i]) == Q(w[i])
    ensures CountWhere(w, P) == CountWhere(w, Q)
  {
    CountWhereBelow(w, P, Q, -1);
    CountWhereBelow(w, Q, P, -1);
  }
  /** Every entry satisfies exactly one of `P` and `Q`. */
  lemma {:induction false} CountWhereSplit<T>(w: seq<T>, P: T -> bool, Q: T -> bool)
    requires forall x :: Q(x) == !P(x)
    ensures CountWhere(w, P) + CountWhere(w, Q) == |w|
  {
    if |w| > 0 {
      CountWhereSplit(w[..|w| - 1], P, Q);
    }
  }


  // Order statistics of a sequence of integers.

  /** Number of entries strictly below `v`. */
  ghost function CountLt(w: seq<int>, v: int): nat {
    CountWhere(w, x => x < v)
  }

  /** Number of entries at most `v`. */
  ghost function CountLe(w: seq<int>, v: int): nat {
    CountWhere(w, x => x <= v)
  }

  /** `m` is the `k`-th smallest entry of `w`, counting from 0: it occurs in
      `w`, at most `k` entries lie below it, and more than `k` lie at or below
      it. */
  ghost predicate IsKth(w: seq<int>, k: int, m: int) {
    && (exists i :: 0 <= i < |w| && w[i] == m)
    && CountLt(w, m) <= k < CountLe(w, m)
  }

  lemma CountLtPositions(w: seq<int>, v: int)
    ensures CountLt(w, v) == |set i | 0 <= i < |w| && w[i] < v|
    ensures CountLe(w, v) == |set i | 0 <= i < |w| && w[i] <= v|
  {
    CountWhereIsCard(w, x => x < v);
    CountWhereIsCard(w, x => x <= v);
    assert (set i | 0 <= i < |w| && w[i] < v) == Where(w, x => x < v);
    assert (set i | 0 <= i < |w| && w[i] <= v) == Where(w, x => x <= v);
  }

  /** Order statistics do not depend on the order of the entries. */
  lemma PermutedOrderCounts(a: seq<int>, b: seq<int>, y: seq<int>, v: int)
    requires Permuted(a, b, y)
    ensures CountLt(b, v) == CountLt(a, v)
    ensures CountLe(b, v) == CountLe(a, v)
  {
    PermutedCount(a, b, y, x => x < v);
    PermutedCount(a, b, y, x => x <= v);
  }

  lemma CountMonotone(w: seq<int>, a: int, b: int)
    requires a < b
    ensures CountLe(w, a) <= CountLt(w, b)
  {
    CountWhereMonotone(w, x => x <= a, x => x < b);
  }

  /** The k-th smallest entry is unique. */
  lemma KthUnique(w: seq<int>, k: int, a: int, b: int)
    requires IsKth(w, k, a) && IsKth(w, k, b)
    ensures a == b
  {
    if a < b {
      CountMonotone(w, a, b);
    } else if b < a {
      CountMonotone(w, b, a);
    }
  }

  // ---------------------------------------------------------------------
  // The same notions for sequences in which `None` stands for NaN: NaNs are
  // not counted, so the statistics are those of the non-NaN entries.

  /** Number of non-NaN entries. */
  ghost function CountPresent(w: seq<Option<int>>): nat {
    CountWhere(w, (o: Option<int>) => o.Some?)
  }

  /** Number of non-NaN entries strictly below `v`. */
  ghost function PCountLt(w: seq<Option<int>>, v: int): nat {
    CountWhere(w, (o: Option<int>) => o.Some? && o.value < v)
  }

  /** Number of non-NaN entries at most `v`. */
  ghost function PCountLe(w: seq<Option<int>>, v: int): nat {
    CountWhere(w, (o: Option<int>) => o.Some? && o.value <= v)
  }

  /** `m` is the `k`-th smallest non-NaN entry of `w`, counting from 0. */
  ghost predicate IsPresentKth(w: seq<Option<int>>, k: int, m: int) {
    && (exists i :: 0 <= i < |w| && w[i] == Some(m))
    && PCountLt(w, m) <= k < PCountLe(w, m)
  }

  lemma PCountPositions(w: seq<Option<int>>, v: int)
    ensures PCountLt(w, v) == |set i | 0 <= i < |w| && w[i].Some? && w[i].value < v|
    ensures PCountLe(w, v) == |set i | 0 <= i < |w| && w[i].Some? && w[i].value <= v|
  {
    CountWhereIsCard(w, (o: Option<int>) => o.Some? && o.value < v);
    CountWhereIsCard(w, (o: Option<int>) => o.Some? && o.value <= v);
    assert (set i | 0 <= i < |w| && w[i].Some? && w[i].value < v) == Where(w, (o: Option<int>) => o.Some? && o.value < v);
    assert (set i | 0 <= i < |w| && w[i].Some? && w[i].value <= v) == Where(w, (o: Option<int>) => o.Some? && o.value <= v);
  }

  /** Order statistics of the non-NaN entries do not depend on the order. */
  lemma PermutedPresentCounts(a: seq<Option<int>>, b: seq<Option<int>>, y: seq<int>, v: int)
    requires Permuted(a, b, y)
    ensures PCountLt(b, v) == PCountLt(a, v)
    ensures PCountLe(b, v) == PCountLe(a, v)
  {
    PermutedCount(a, b, y, (o: Option<int>) => o.Some? && o.value < v);
    PermutedCount(a, b, y, (o: Option<int>) => o.Some? && o.value <= v);
  }

  lemma PCountMonotone(w: seq<Option<int>>, a: int, b: int)
    requires a < b
    ensures PCountLe(w, a) <= PCountLt(w, b)
  {
    CountWhereMonotone(w, (o: Option<int>) => o.Some? && o.value <= a, (o: Option<int>) => o.Some? && o.value < b);
  }

  lemma PresentKthUnique(w: seq<Option<int>>, k: int, a: int, b: int)
    requires IsPresentKth(w, k, a) && IsPresentKth(w, k, b)
    ensures a == b
  {
    if a < b {
      PCountMonotone(w, a, b);
    } else if b < a {
      PCountMonotone(w, b, a);
    }
  }
}
