/** `SegmentTree` of replay.py: an array of 2 * capacity node values over an
    associative operator with a neutral element. The root is node 1, the
    children of node k are 2k and 2k + 1, and leaf i is node capacity + i.
    Node 0 is never read or written by the tree's operations. */
module SegmentTrees {
  import opened Monoids
  import opened Dedup
  import opened Batches
  import opened Results

  /** The condition of the constructor's assert (written there with the bit
      trick `capacity & (capacity - 1) == 0`). */
  predicate IsPowerOfTwo(n: int)
    decreases n
  {
    if n <= 1 then n == 1 else n % 2 == 0 && IsPowerOfTwo(n / 2)
  }

  // ------------------------------------------------------------ tree shape

  /** Internal node k holds the operator applied to its two children. */
  ghost predicate Consistent<V>(op: (V, V) -> V, v: seq<V>, k: int)
    requires 1 <= k && 2 * k + 1 < |v|
  {
    v[k] == op(v[2 * k], v[2 * k + 1])
  }

  /** The invariant every operation of the tree keeps. */
  ghost predicate TreeInv<V>(op: (V, V) -> V, cap: nat, v: seq<V>) {
    |v| == 2 * cap && forall k :: 1 <= k < cap ==> Consistent(op, v, k)
  }

  function LeavesOf<V>(cap: nat, v: seq<V>): seq<V>
    requires |v| == 2 * cap
  {
    v[cap..]
  }

  /** Node k stands for the w leaves [lo, lo + w): the root stands for all
      of them, and a node's left and right children for the two halves of
      its range. */
  predicate Spans(cap: nat, k: int, lo: int, w: int)
    decreases k
  {
    1 <= k && 1 <= w && 0 <= lo && lo + w <= cap &&
    if k == 1 then lo == 0 && w == cap
    else Spans(cap, k / 2, if k % 2 == 0 then lo else lo - w, 2 * w)
  }

  lemma MulMonotone(a: int, b: int, c: int)
    requires a <= b && c >= 0
    ensures a * c <= b * c
  {
  }

  lemma ProductStep(p: int, w: int, b: int)
    ensures (2 * p + b) * w == p * (2 * w) + b * w
  {
  }

  /** What a span says in closed form: node k of a range of width w
      starting at lo satisfies k * w == cap + lo. */
  lemma {:induction false} SpansProduct(cap: nat, k: int, lo: int, w: int)
    requires IsPowerOfTwo(cap) && Spans(cap, k, lo, w)
    ensures IsPowerOfTwo(w) && k * w == cap + lo
    decreases k
  {
    if k > 1 {
      var p, b := k / 2, k % 2;
      var plo := if b == 0 then lo else lo - w;
      SpansProduct(cap, p, plo, 2 * w);
      ProductStep(p, w, b);
      assert k == 2 * p + b;
    }
  }

  /** A span of one leaf is that leaf's node; a wider span is an internal
      node whose width halves evenly. */
  lemma SpansFacts(cap: nat, k: int, lo: int, w: int)
    requires IsPowerOfTwo(cap) && Spans(cap, k, lo, w)
    ensures IsPowerOfTwo(w)
    ensures w == 1 ==> k == cap + lo
    ensures w > 1 ==> k < cap && w % 2 == 0
  {
    SpansProduct(cap, k, lo, w);
    if w > 1 && k >= cap {
      MulMonotone(cap, k, w);
      MulMonotone(2, w, cap);
    }
  }

  /** The two halves `_reduce_helper` splits an inclusive node range into. */
  lemma HalvesSpan(cap: nat, node: int, nodeStart: int, nodeEnd: int)
    requires IsPowerOfTwo(cap)
    requires Spans(cap, node, nodeStart, nodeEnd - nodeStart + 1) && nodeStart < nodeEnd
    ensures var mid := (nodeStart + nodeEnd) / 2;
      && nodeStart <= mid < nodeEnd
      && Spans(cap, 2 * node, nodeStart, mid - nodeStart + 1)
      && Spans(cap, 2 * node + 1, mid + 1, nodeEnd - mid)
  {
    var w := nodeEnd - nodeStart + 1;
    SpansFacts(cap, node, nodeStart, w);
    var mid := (nodeStart + nodeEnd) / 2;
    assert mid == nodeStart + w / 2 - 1;
    assert Spans(cap, 2 * node, nodeStart, w / 2);
    assert Spans(cap, 2 * node + 1, nodeStart + w / 2, w / 2);
  }

  /** In a consistent tree a node's value is the fold of the leaves it spans. */
  lemma {:induction false} NodeValue<V(!new)>(op: (V, V) -> V, e: V, cap: nat, v: seq<V>, k: int, lo: int, w: int)
    requires Splits(op, e) && TreeInv(op, cap, v) && IsPowerOfTwo(cap)
    requires Spans(cap, k, lo, w)
    ensures k < 2 * cap
    ensures v[k] == Fold(op, e, LeavesOf(cap, v), lo, lo + w)
    decreases w
  {
    var leaves := LeavesOf(cap, v);
    SpansFacts(cap, k, lo, w);
    if w == 1 {
      FoldSingleton(op, e, leaves, lo);
    } else {
      var h := w / 2;
      assert Spans(cap, 2 * k, lo, h) && Spans(cap, 2 * k + 1, lo + h, h);
      NodeValue(op, e, cap, v, 2 * k, lo, h);
      NodeValue(op, e, cap, v, 2 * k + 1, lo + h, h);
      assert Consistent(op, v, k);
      assert v[k] == op(Fold(op, e, leaves, lo, lo + h), Fold(op, e, leaves, lo + h, lo + w));
    }
  }

  // -------------------------------------- the value a consistent tree has

  /** The value node k would hold if every node below it were consistent. */
  ghost function Ideal<V>(op: (V, V) -> V, cap: nat, v: seq<V>, k: int): V
    requires |v| == 2 * cap && 1 <= k < 2 * cap
    decreases 2 * cap - k
  {
    if k >= cap then v[k] else op(Ideal(op, cap, v, 2 * k), Ideal(op, cap, v, 2 * k + 1))
  }

  lemma {:induction false} ConsistentIsIdeal<V>(op: (V, V) -> V, cap: nat, v: seq<V>, k: int)
    requires TreeInv(op, cap, v) && 1 <= k < 2 * cap
    ensures v[k] == Ideal(op, cap, v, k)
    decreases 2 * cap - k
  {
    if k < cap {
      assert Consistent(op, v, k);
      ConsistentIsIdeal(op, cap, v, 2 * k);
      ConsistentIsIdeal(op, cap, v, 2 * k + 1);
    }
  }

  /** Node p lies in the subtree rooted at node k (p == k or below it). */
  predicate Below(k: nat, p: nat)
    decreases p
  {
    p == k || (p > k && Below(k, p / 2))
  }

  lemma {:induction false} BelowChild(k: nat, c: nat, p: nat)
    requires c / 2 == k && c > k && Below(c, p)
    ensures Below(k, p)
    decreases p
  {
    if p != c {
      BelowChild(k, c, p / 2);
    }
  }

  /** Ideal(k) depends only on the leaves below k. */
  lemma {:induction false} IdealLocal<V>(op: (V, V) -> V, cap: nat, v1: seq<V>, v2: seq<V>, k: int)
    requires |v1| == 2 * cap && |v2| == 2 * cap && 1 <= k < 2 * cap
    requires forall p :: cap <= p < 2 * cap && Below(k, p) ==> v1[p] == v2[p]
    ensures Ideal(op, cap, v1, k) == Ideal(op, cap, v2, k)
    decreases 2 * cap - k
  {
    if k < cap {
      forall p | cap <= p < 2 * cap && Below(2 * k, p) ensures v1[p] == v2[p] {
        BelowChild(k, 2 * k, p);
      }
      forall p | cap <= p < 2 * cap && Below(2 * k + 1, p) ensures v1[p] == v2[p] {
        BelowChild(k, 2 * k + 1, p);
      }
      IdealLocal(op, cap, v1, v2, 2 * k);
      IdealLocal(op, cap, v1, v2, 2 * k + 1);
    } else {
      assert Below(k, k);
    }
  }

  /** The ancestor of node x in the level [lower, 2 * lower). */
  function Up(x: nat, lower: nat): nat
    requires lower >= 1
    decreases x
  {
    if x < 2 * lower then x else Up(x / 2, lower)
  }

  lemma {:induction false} UpRange(x: nat, lower: nat)
    requires lower >= 1 && x >= lower
    ensures lower <= Up(x, lower) < 2 * lower
    decreases x
  {
    if x >= 2 * lower {
      UpRange(x / 2, lower);
    }
  }

  lemma {:induction false} BelowUp(k: nat, p: nat, lower: nat)
    requires lower >= 1 && lower <= k < 2 * lower && Below(k, p)
    ensures Up(p, lower) == k
    decreases p
  {
    if p != k && p >= 2 * lower {
      BelowUp(k, p / 2, lower);
    }
  }

  lemma {:induction false} UpHalf(x: nat, lower: nat)
    requires lower >= 2 && lower % 2 == 0 && x >= lower
    ensures Up(x, lower / 2) == Up(x, lower) / 2
    decreases x
  {
    if x >= 2 * lower {
      UpHalf(x / 2, lower);
    }
  }

  /** A node of the current level that no written leaf lies below keeps a
      value equal to its ideal value over the new leaves. */
  lemma UntouchedNode<V>(op: (V, V) -> V, cap: nat, before: seq<V>, written: seq<V>,
                         idxs: seq<int>, vals: seq<V>, level: seq<int>, lower: nat, p: nat)
    requires TreeInv(op, cap, before) && |written| == 2 * cap
    requires |idxs| == |vals| && InRange(idxs, cap)
    requires written[cap..] == WriteAll(before[cap..], idxs, vals)
    requires 1 <= lower <= p < 2 * lower && 2 * lower <= cap
    requires forall j :: 0 <= j < |idxs| ==> Up(cap + idxs[j], lower) in level
    requires p !in level
    ensures before[p] == Ideal(op, cap, written, p)
  {
    ConsistentIsIdeal(op, cap, before, p);
    forall q | cap <= q < 2 * cap && Below(p, q) ensures before[q] == written[q] {
      var i := q - cap;
      if i in idxs {
        var j :| 0 <= j < |idxs| && idxs[j] == i;
        BelowUp(p, q, lower);
        assert false;
      }
      WriteAllUntouched(before[cap..], idxs, vals, i);
      assert before[cap..][i] == before[q] && written[cap..][i] == written[q];
    }
    IdealLocal(op, cap, before, written, p);
  }

  /** `idxs + capacity`: the nodes of the leaves `idxs`. */
  function LeafNodes(idxs: seq<int>, cap: int): (r: seq<int>)
    ensures |r| == |idxs|
    ensures forall j :: 0 <= j < |idxs| ==> r[j] == idxs[j] + cap
  {
    if |idxs| == 0 then [] else [idxs[0] + cap] + LeafNodes(idxs[1..], cap)
  }

  /** What the index array of the loop of `__setitem__` holds when the loop
      is about to visit level [lower, 2 * lower): nodes of that level only,
      among them the ancestor of every written leaf; and [0] once the root
      has been passed. */
  ghost predicate LevelOk(cap: nat, idxs: seq<int>, level: seq<int>, lower: nat) {
    && |level| >= 1
    && (lower == 0 ==> level == [0])
    && (lower > 0 ==> IsPowerOfTwo(lower) && 2 * lower <= cap)
    && (lower > 0 ==> forall i :: 0 <= i < |level| ==> lower <= level[i] < 2 * lower)
    && (lower > 0 ==> forall j :: 0 <= j < |idxs| ==> 0 <= cap + idxs[j] && Up(cap + idxs[j], lower) in level)
  }

  /** The node values while the loop of `__setitem__` climbs: every node
      above level [lower, 2 * lower), and node 0, still holds its value from `before`,
      every node from the level below on holds its ideal value over the
      written leaves. */
  ghost predicate Climbed<V>(op: (V, V) -> V, cap: nat, before: seq<V>, written: seq<V>, v: seq<V>, lower: nat)
    requires |before| == 2 * cap && |written| == 2 * cap
  {
    && |v| == 2 * cap
    && (forall k :: 0 <= k < 2 * cap && (k == 0 || k < 2 * lower) ==> v[k] == before[k])
    && (forall k :: 1 <= k < 2 * cap && 2 * lower <= k ==> v[k] == Ideal(op, cap, written, k))
  }

  /** The parents of the nodes of one level, duplicates next to each
      other removed, lie on the level above. */
  lemma ParentsLevel(level: seq<int>, lower: nat)
    requires 2 <= lower && |level| >= 1
    requires forall i :: 0 <= i < |level| ==> lower <= level[i] < 2 * lower
    ensures forall i :: 0 <= i < |Unique(Parents(level))| ==> lower / 2 <= Unique(Parents(level))[i] < lower
  {
    var parents := Parents(level);
    forall i | 0 <= i < |Unique(parents)| ensures lower / 2 <= Unique(parents)[i] < lower {
      assert Unique(parents)[i] in parents;
    }
  }

  /** The parents of the written leaves are the first level the loop of
      `__setitem__` visits: node 0 alone when the capacity is 1. */
  lemma FirstLevel(cap: nat, idxs: seq<int>)
    requires IsPowerOfTwo(cap) && |idxs| >= 1 && InRange(idxs, cap)
    ensures LevelOk(cap, idxs, Unique(Parents(LeafNodes(idxs, cap))), cap / 2)
  {
    var leafIdxs := LeafNodes(idxs, cap);
    var parents := Parents(leafIdxs);
    if cap == 1 {
      UniqueOfConstant(parents, 0);
    } else {
      ParentsLevel(leafIdxs, cap);
      forall j | 0 <= j < |idxs| ensures Up(cap + idxs[j], cap / 2) in Unique(parents) {
        assert parents[j] == (cap + idxs[j]) / 2;
      }
    }
  }

  /** From one level of the loop of `__setitem__` to the next one up. */
  lemma NextLevel(cap: nat, idxs: seq<int>, level: seq<int>, lower: nat)
    requires LevelOk(cap, idxs, level, lower) && lower > 0
    ensures LevelOk(cap, idxs, Unique(Parents(level)), lower / 2)
  {
    var parents := Parents(level);
    if lower == 1 {
      UniqueOfConstant(parents, 0);
    } else {
      ParentsLevel(level, lower);
      forall j | 0 <= j < |idxs| ensures Up(cap + idxs[j], lower / 2) in Unique(parents) {
        UpHalf(cap + idxs[j], lower);
        var u := Up(cap + idxs[j], lower);
        var i :| 0 <= i < |level| && level[i] == u;
        assert parents[i] == u / 2;
      }
    }
  }

  /** Before the loop only the leaves have changed. */
  lemma ClimbStart<V>(op: (V, V) -> V, cap: nat, before: seq<V>, written: seq<V>)
    requires |before| == 2 * cap && |written| == 2 * cap
    requires IsPowerOfTwo(cap) && written[..cap] == before[..cap]
    ensures Climbed(op, cap, before, written, written, cap / 2)
  {
    forall k | 0 <= k < cap ensures written[k] == before[k] {
      assert written[..cap][k] == before[..cap][k];
    }
    forall k | cap <= k < 2 * cap ensures written[k] == Ideal(op, cap, written, k) {
    }
  }

  /** What one pass of the loop of `__setitem__` does to the node values:
      the nodes of `level` get their ideal values, nothing else changes. */
  ghost predicate LevelUpdated<V>(op: (V, V) -> V, cap: nat, written: seq<V>, level: seq<int>, lower: nat, v: seq<V>, v': seq<V>)
    requires |written| == 2 * cap && 2 * lower <= cap
  {
    && |v| == 2 * cap && |v'| == 2 * cap
    && (forall k :: 0 <= k < 2 * cap && !(lower <= k < 2 * lower) ==> v'[k] == v[k])
    && (forall k :: lower <= k < 2 * lower ==>
         v'[k] == if k in level then Ideal(op, cap, written, k) else v[k])
  }

  /** One pass of the loop keeps `Climbed`, one level higher: the nodes of
      the level were recomputed, and a node of the level not in it has no
      written leaf below it. */
  lemma ClimbStep<V>(op: (V, V) -> V, cap: nat, before: seq<V>, written: seq<V>,
                     idxs: seq<int>, vals: seq<V>, level: seq<int>, lower: nat, v: seq<V>, v': seq<V>)
    requires TreeInv(op, cap, before) && |written| == 2 * cap
    requires |idxs| == |vals| && InRange(idxs, cap)
    requires written[cap..] == WriteAll(before[cap..], idxs, vals)
    requires LevelOk(cap, idxs, level, lower) && lower > 0
    requires Climbed(op, cap, before, written, v, lower)
    requires LevelUpdated(op, cap, written, level, lower, v, v')
    ensures Climbed(op, cap, before, written, v', lower / 2)
  {
    forall p | lower <= p < 2 * lower && p !in level
      ensures v'[p] == Ideal(op, cap, written, p)
    {
      UntouchedNode(op, cap, before, written, idxs, vals, level, lower, p);
    }
  }

  /** When the loop stops, the nodes form a consistent tree over the
      written leaves, and node 0 is untouched. */
  lemma ClimbDone<V>(op: (V, V) -> V, cap: nat, before: seq<V>, written: seq<V>, v: seq<V>)
    requires |before| == 2 * cap && |written| == 2 * cap && cap >= 1
    requires Climbed(op, cap, before, written, v, 0)
    ensures TreeInv(op, cap, v)
    ensures v[cap..] == written[cap..] && v[0] == before[0]
  {
    forall k | 1 <= k < cap ensures Consistent(op, v, k) {
      assert v[k] == Ideal(op, cap, written, k);
    }
    forall i | 0 <= i < cap ensures v[cap..][i] == written[cap..][i] {
      assert v[cap + i] == Ideal(op, cap, written, cap + i);
    }
  }

  // ------------------------------------------------------------ the class

  class SegmentTree<V(!new)> {
    const capacity: nat
    const operation: (V, V) -> V
    const neutral: V
    const value: array<V>

    ghost predicate Valid()
      reads this, value
    {
      && capacity > 0 && IsPowerOfTwo(capacity)
      && Splits(operation, neutral)
      && value.Length == 2 * capacity
      && TreeInv(operation, capacity, value[..])
    }

    /** The array the tree stands for: leaf i is element i. */
    ghost function Leaves(): (s: seq<V>)
      reads this, value
      requires Valid()
      ensures |s| == capacity
    {
      LeavesOf(capacity, value[..])
    }

    /** `SegmentTree.__init__`: every one of the 2 * capacity nodes starts
        as the neutral element. */
    constructor (capacity: nat, operation: (V, V) -> V, neutral: V)
      requires capacity > 0 && IsPowerOfTwo(capacity)
      requires IsMonoid(operation, neutral)
      ensures Valid() && fresh(value)
      ensures this.capacity == capacity && this.operation == operation && this.neutral == neutral
      ensures forall k :: 0 <= k < 2 * capacity ==> value[k] == neutral
    {
      this.capacity := capacity;
      this.operation := operation;
      this.neutral := neutral;
      value := new V[2 * capacity](_ => neutral);
      new;
      MonoidSplits(operation, neutral);
      forall k | 1 <= k < capacity ensures Consistent(operation, value[..], k) {
      }
    }

    /** `_reduce_helper`: the fold of the INCLUSIVE leaf range [start, end]
        inside node `node`, which spans the inclusive range
        [nodeStart, nodeEnd]. It recurses only on non-empty ranges, which is
        what its termination rests on. */
    function ReduceHelper(start: int, end: int, node: int, nodeStart: int, nodeEnd: int): (r: V)
      reads this, value
      requires Valid()
      requires Spans(capacity, node, nodeStart, nodeEnd - nodeStart + 1)
      requires nodeStart <= start <= end <= nodeEnd
      ensures r == Fold(operation, neutral, Leaves(), start, end + 1)
      decreases nodeEnd - nodeStart, 1
    {
      if start == nodeStart && end == nodeEnd then
        NodeValue(operation, neutral, capacity, value[..], node, nodeStart, nodeEnd - nodeStart + 1);
        value[node]
      else
        ReduceChildren(start, end, node, nodeStart, nodeEnd)
    }

    function ReduceChildren(start: int, end: int, node: int, nodeStart: int, nodeEnd: int): (r: V)
      reads this, value
      requires Valid()
      requires Spans(capacity, node, nodeStart, nodeEnd - nodeStart + 1)
      requires nodeStart <= start <= end <= nodeEnd && nodeStart < nodeEnd
      ensures r == Fold(operation, neutral, Leaves(), start, end + 1)
      decreases nodeEnd - nodeStart, 0
    {
        HalvesSpan(capacity, node, nodeStart, nodeEnd);
        var mid := (nodeStart + nodeEnd) / 2;
        if end <= mid then
          ReduceHelper(start, end, 2 * node, nodeStart, mid)
        else if mid + 1 <= start then
          ReduceHelper(start, end, 2 * node + 1, mid + 1, nodeEnd)
        else
          operation(ReduceHelper(start, mid, 2 * node, nodeStart, mid),
                    ReduceHelper(mid + 1, end, 2 * node + 1, mid + 1, nodeEnd))
    }

    /** The exclusive end `reduce` works with: `end` defaults to the capacity
        and a negative `end` counts from the capacity. */
    function EndOf(end: Option<int>): int {
      var e := if end.None? then capacity else end.value;
      if e < 0 then e + capacity else e
    }

    /** `reduce(start, end)`: the operator folded over the leaves
        [start, end), a HALF-OPEN range (the docstring says the end is
        included, but the code subtracts one before calling the helper).
        The range must be non-empty for the helper to stop. */
    function Reduce(start: int, end: Option<int>): (r: V)
      reads this, value
      requires Valid()
      requires 0 <= start < EndOf(end) <= capacity
      ensures r == Fold(operation, neutral, Leaves(), start, EndOf(end))
    {
      ReduceHelper(start, EndOf(end) - 1, 1, 0, capacity - 1)
    }

    /** `__getitem__`: the leaf at node capacity + idx. */
    function Get(idx: int): (r: V)
      reads this, value
      requires Valid()
      requires 0 <= idx < capacity
      ensures r == Leaves()[idx]
    {
      value[capacity + idx]
    }

    /** The first statement of `__setitem__`: leaf capacity + idxs[j] gets
        vals[j], a later write to the same leaf winning. */
    method WriteLeaves(idxs: seq<int>, vals: seq<V>)
      requires value.Length == 2 * capacity
      requires |idxs| == |vals| && InRange(idxs, capacity)
      modifies value
      ensures value[..capacity] == old(value[..capacity])
      ensures value[capacity..] == WriteAll(old(value[capacity..]), idxs, vals)
    {
      ghost var before := value[..];
      var j := 0;
      while j < |idxs|
        invariant 0 <= j <= |idxs|
        invariant value[..capacity] == before[..capacity]
        invariant value[capacity..] == WriteAll(before[capacity..], idxs[..j], vals[..j])
      {
        ghost var prev := value[..];
        value[capacity + idxs[j]] := vals[j];
        assert idxs[..j + 1][..j] == idxs[..j] && vals[..j + 1][..j] == vals[..j];
        assert value[capacity..] == prev[capacity..][idxs[j] := vals[j]];
        assert value[..capacity] == prev[..capacity];
        j := j + 1;
      }
      assert idxs[..|idxs|] == idxs && vals[..|vals|] == vals;
    }

    /** One pass of the loop of `__setitem__`: every node k of `level`
        (all in [lower, 2 * lower)) gets the operation applied to its
        children, which already hold their values over the new leaves. */
    method UpdateLevel(level: seq<int>, ghost lower: nat, ghost written: seq<V>)
      requires value.Length == 2 * capacity && |written| == 2 * capacity
      requires 1 <= lower && 2 * lower <= capacity
      requires forall i :: 0 <= i < |level| ==> lower <= level[i] < 2 * lower
      requires forall k :: 2 * lower <= k < 2 * capacity ==> value[..][k] == Ideal(operation, capacity, written, k)
      modifies value
      ensures LevelUpdated(operation, capacity, written, level, lower, old(value[..]), value[..])
    {
      var i := 0;
      while i < |level|
        invariant 0 <= i <= |level|
        invariant forall k :: 0 <= k < 2 * capacity && !(lower <= k < 2 * lower) ==> value[k] == old(value[k])
        invariant forall k :: lower <= k < 2 * lower ==>
          value[k] == if k in level[..i] then Ideal(operation, capacity, written, k) else old(value[k])
      {
        var k := level[i];
        value[k] := operation(value[2 * k], value[2 * k + 1]);
        assert level[..i + 1] == level[..i] + [k];
        i := i + 1;
      }
      assert level[..|level|] == level;
    }

    /** `__setitem__` with an index array: writes the leaves, then walks up
        the tree one level at a time, recomputing the (duplicate-free)
        parents of the nodes written on the level below, until only node 0
        is left. Afterwards the leaves are the old ones overwritten at
        `idxs`, a later write winning, every internal node is consistent
        again, and node 0 is untouched. */
    method Set(idxs: seq<int>, vals: seq<V>)
      requires Valid()
      requires |idxs| >= 1 && |idxs| == |vals| && InRange(idxs, capacity)
      modifies value
      ensures Valid()
      ensures Leaves() == WriteAll(old(Leaves()), idxs, vals)
      ensures value[0] == old(value[0])
    {
      ghost var before := value[..];
      WriteLeaves(idxs, vals);
      ghost var written := value[..];
      assert written[capacity..] == WriteAll(before[capacity..], idxs, vals);
      ClimbStart(operation, capacity, before, written);

      var level := Unique(Parents(LeafNodes(idxs, capacity)));
      ghost var lower: nat := capacity / 2;
      FirstLevel(capacity, idxs);

      while |level| > 1 || level[0] > 0
        invariant LevelOk(capacity, idxs, level, lower)
        invariant Climbed(operation, capacity, before, written, value[..], lower)
        decreases lower
      {
        ghost var v := value[..];
        UpdateLevel(level, lower, written);
        ClimbStep(operation, capacity, before, written, idxs, vals, level, lower, v, value[..]);
        NextLevel(capacity, idxs, level, lower);
        level := Unique(Parents(level));
        lower := lower / 2;
      }
      ClimbDone(operation, capacity, before, written, value[..]);
    }
  }
}
