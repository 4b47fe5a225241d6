/** `MinSegmentTree` of replay.py: a segment tree over `min` with neutral
    element +infinity. */
module MinTrees {
  import opened Monoids
  import opened Results
  import opened SegmentTrees

  /** A valid segment tree whose operation is `min` and neutral element
      +infinity. */
  ghost predicate IsMinTree(t: SegmentTree<Extended>)
    reads t, t.value
  {
    t.Valid() && t.operation == Min && t.neutral == PosInf
  }

  /** `MinSegmentTree.__init__`: all leaves +infinity. */
  method NewMinSegmentTree(capacity: nat) returns (t: SegmentTree<Extended>)
    requires capacity > 0 && IsPowerOfTwo(capacity)
    ensures fresh(t) && fresh(t.value)
    ensures IsMinTree(t) && t.capacity == capacity
    ensures forall i :: 0 <= i < capacity ==> t.Leaves()[i] == PosInf
  {
    MinIsMonoid();
    t := new SegmentTree(capacity, Min, PosInf);
  }

  /** `min(start, end)`: the least of the leaves [start, end), which is one
      of them. As with `sum`, the end is exclusive although the docstring
      says otherwise. */
  function MinOf(t: SegmentTree<Extended>, start: int, end: Option<int>): (r: Extended)
    reads t, t.value
    requires IsMinTree(t)
    requires 0 <= start < t.EndOf(end) <= t.capacity
    ensures forall i :: start <= i < t.EndOf(end) ==> Le(r, t.Leaves()[i])
    ensures exists i :: start <= i < t.EndOf(end) && r == t.Leaves()[i]
  {
    MinimumIsLeast(t.Leaves(), start, t.EndOf(end));
    t.Reduce(start, end)
  }
}
