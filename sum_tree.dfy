/** `SumSegmentTree` of replay.py: a segment tree over addition with
    neutral element 0, and the root-to-leaf search `find_prefixsum_idx`. */
module SumTrees {
  import opened Monoids
  import opened Results
  import opened SegmentTrees

  /** A valid segment tree whose operation is `+` and neutral element 0. */
  ghost predicate IsSumTree(t: SegmentTree<real>)
    reads t, t.value
  {
    t.Valid() && t.operation == Add && t.neutral == 0.0
  }

  /** `SumSegmentTree.__init__`: all leaves 0. */
  method NewSumSegmentTree(capacity: nat) returns (t: SegmentTree<real>)
    requires capacity > 0 && IsPowerOfTwo(capacity)
    ensures fresh(t) && fresh(t.value)
    ensures IsSumTree(t) && t.capacity == capacity
    ensures forall i :: 0 <= i < capacity ==> t.Leaves()[i] == 0.0
  {
    AddIsMonoid();
    t := new SegmentTree(capacity, Add, 0.0);
  }

  /** `sum(start, end)`: the leaves [start, end) added up. The docstring
      calls the end inclusive; the code, through `reduce`, does not. */
  function SumOf(t: SegmentTree<real>, start: int, end: Option<int>): (r: real)
    reads t, t.value
    requires IsSumTree(t)
    requires 0 <= start < t.EndOf(end) <= t.capacity
    ensures r == Sum(t.Leaves(), start, t.EndOf(end))
  {
    t.Reduce(start, end)
  }

  /** `sum()` with no arguments is the total of all leaves. */
  lemma SumOfAll(t: SegmentTree<real>)
    requires IsSumTree(t)
    ensures t.EndOf(None) == t.capacity
    ensures SumOf(t, 0, None) == Sum(t.Leaves(), 0, t.capacity)
  {
  }

  /** The leaf `find_prefixsum_idx` stops at for one target: the prefix
      before it is at most the target, and the prefix through it exceeds
      the target unless it is the last leaf. */
  ghost predicate PrefixIndex(s: seq<real>, target: real, i: int) {
    0 <= i < |s| && Sum(s, 0, i) <= target && (i == |s| - 1 || target < Sum(s, 0, i + 1))
  }

  /** Over non-negative leaves, the index the search stops at is the
      highest index whose prefix sum is at most the target: the promise of
      the docstring of `find_prefixsum_idx`. */
  lemma PrefixIndexIsHighest(s: seq<real>, target: real, i: int)
    requires forall k :: 0 <= k < |s| ==> s[k] >= 0.0
    requires PrefixIndex(s, target, i)
    ensures Sum(s, 0, i) <= target
    ensures forall j :: i < j < |s| ==> target < Sum(s, 0, j)
  {
    forall j | i < j < |s| ensures target < Sum(s, 0, j) {
      SumMonotone(s, i + 1, j);
    }
  }

  /** Over non-negative leaves, at most one index satisfies `PrefixIndex`. */
  lemma PrefixIndexUnique(s: seq<real>, target: real, i: int, j: int)
    requires forall k :: 0 <= k < |s| ==> s[k] >= 0.0
    requires PrefixIndex(s, target, i) && PrefixIndex(s, target, j)
    ensures i == j
  {
    if i < j {
      PrefixIndexIsHighest(s, target, i);
    } else if j < i {
      PrefixIndexIsHighest(s, target, j);
    }
  }

  /** One step of the walk from internal node k, which spans the leaves
      [lo, lo + w): its left child spans the first half, and its value is
      the sum of that half. */
  lemma LeftChild(cap: nat, v: seq<real>, k: int, lo: int, w: int)
    requires IsPowerOfTwo(cap) && TreeInv(Add, cap, v) && Splits(Add, 0.0)
    requires Spans(cap, k, lo, w) && k < cap
    ensures w > 1 && w % 2 == 0 && 2 * k + 1 < |v|
    ensures Spans(cap, 2 * k, lo, w / 2) && Spans(cap, 2 * k + 1, lo + w / 2, w / 2)
    ensures Sum(LeavesOf(cap, v), 0, lo + w / 2) == Sum(LeavesOf(cap, v), 0, lo) + v[2 * k]
  {
    SpansFacts(cap, k, lo, w);
    assert Spans(cap, 2 * k, lo, w / 2);
    NodeValue(Add, 0.0, cap, v, 2 * k, lo, w / 2);
    SumSplit(LeavesOf(cap, v), 0, lo, lo + w / 2);
  }

  /** One target's walk in `find_prefixsum_idx`: from the root, step to the
      left child, and on to its right sibling, less the left child's value,
      when that value is at most what is left of the target; stop at a
      leaf. */
  method Descend(t: SegmentTree<real>, target: real) returns (i: int)
    requires IsSumTree(t) && t.capacity > 1 && 0.0 <= target
    ensures PrefixIndex(t.Leaves(), target, i)
  {
    ghost var leaves := t.Leaves();
    var idx := 1;
    var prefixsum := target;
    ghost var lo, w := 0, t.capacity;
    while idx < t.capacity
      invariant Spans(t.capacity, idx, lo, w)
      invariant prefixsum == target - Sum(leaves, 0, lo) && 0.0 <= prefixsum
      invariant lo + w == t.capacity || target < Sum(leaves, 0, lo + w)
      decreases w
    {
      LeftChild(t.capacity, t.value[..], idx, lo, w);
      idx := 2 * idx;
      if t.value[idx] <= prefixsum {
        prefixsum := prefixsum - t.value[idx];
        idx := idx + 1;
        lo := lo + w / 2;
      }
      w := w / 2;
    }
    SpansFacts(t.capacity, idx, lo, w);
    i := idx - t.capacity;
  }

  /** The `1e-5` slack `find_prefixsum_idx` allows above the total. */
  const Slack: real := 0.00001

  /** The asserts of `find_prefixsum_idx` on its targets: none negative,
      none above the total plus the slack. */
  predicate TargetsOk(prefixsum: seq<real>, total: real) {
    forall j :: 0 <= j < |prefixsum| ==> 0.0 <= prefixsum[j] <= total + Slack
  }

  /** `find_prefixsum_idx(prefixsum)`: one leaf index per target. The
      targets are checked first: an empty batch makes `np.min` raise, a
      negative target or one above the total plus the slack fails an
      assert. A tree of capacity 1 has no children to step to, and the
      first step reads past the end of the node array. */
  method FindPrefixsumIdx(t: SegmentTree<real>, prefixsum: seq<real>) returns (r: Result<seq<int>>)
    requires IsSumTree(t)
    ensures |prefixsum| == 0 ==> r == Err(ValueError)
    ensures |prefixsum| > 0 && !TargetsOk(prefixsum, Sum(t.Leaves(), 0, t.capacity)) ==> r == Err(AssertionError)
    ensures |prefixsum| > 0 && TargetsOk(prefixsum, Sum(t.Leaves(), 0, t.capacity)) && t.capacity == 1 ==>
              r == Err(IndexError)
    ensures |prefixsum| > 0 && TargetsOk(prefixsum, Sum(t.Leaves(), 0, t.capacity)) && t.capacity > 1 ==>
              && r.Ok? && |r.value| == |prefixsum|
              && forall j :: 0 <= j < |prefixsum| ==> PrefixIndex(t.Leaves(), prefixsum[j], r.value[j])
  {
    if |prefixsum| == 0 {
      return Err(ValueError);
    }
    var total := SumOf(t, 0, None);
    if !TargetsOk(prefixsum, total) {
      return Err(AssertionError);
    }
    if t.capacity == 1 {
      return Err(IndexError);
    }
    var idxs := [];
    while |idxs| < |prefixsum|
      invariant |idxs| <= |prefixsum|
      invariant forall j :: 0 <= j < |idxs| ==> PrefixIndex(t.Leaves(), prefixsum[j], idxs[j])
    {
      var i := Descend(t, prefixsum[|idxs|]);
      idxs := idxs + [i];
    }
    return Ok(idxs);
  }
}
