/** `PrioritizedReplayBuffer` of replay.py: a replay buffer whose slots
    carry priorities, kept in a sum tree (for proportional sampling) and a
    min tree of the same capacity. */
module Prioritized {
  import opened Results
  import opened Batches
  import opened Monoids
  import opened SegmentTrees
  import opened SumTrees
  import opened MinTrees
  import opened Storage
  import opened Buffers

  // ------------------------------------------------------------ capacity

  /** A power of two below another is at most its half. */
  lemma {:induction false} PowerBelow(p: int, c: int)
    requires IsPowerOfTwo(p) && IsPowerOfTwo(c) && p < c
    ensures p <= c / 2
    decreases p
  {
    if p > 1 {
      PowerBelow(p / 2, c / 2);
    }
  }

  /** `it_capacity` of `__init__`: doubled from 1 while below `size`, so the
      least power of two that is at least `size`. */
  method ItCapacity(size: nat) returns (c: nat)
    ensures IsPowerOfTwo(c) && size <= c
    ensures forall p :: IsPowerOfTwo(p) && size <= p ==> c <= p
  {
    c := 1;
    while c < size
      invariant IsPowerOfTwo(c) && (c == 1 || c / 2 < size)
    {
      c := 2 * c;
    }
    forall p | IsPowerOfTwo(p) && size <= p ensures c <= p {
      if p < c {
        PowerBelow(p, c);
      }
    }
  }

  // ---------------------------------------------------------- priorities

  /** The leaves of the two trees of a buffer with `filled` slots: a
      positive priority at every filled slot, the same in both trees, and
      the neutral elements at the rest. */
  ghost predicate Mirrored(sums: seq<real>, mins: seq<Extended>, filled: nat) {
    && |sums| == |mins| && filled <= |sums|
    && (forall i :: 0 <= i < filled ==> sums[i] > 0.0 && mins[i] == Finite(sums[i]))
    && (forall i :: filled <= i < |sums| ==> sums[i] == 0.0 && mins[i] == PosInf)
  }

  /** The values the min tree gets where the sum tree gets `vals`. */
  function FiniteAll(vals: seq<real>): (r: seq<Extended>)
    ensures |r| == |vals|
    ensures forall j :: 0 <= j < |vals| ==> r[j] == Finite(vals[j])
    decreases |vals|
  {
    if |vals| == 0 then [] else [Finite(vals[0])] + FiniteAll(vals[1..])
  }

  /** A scalar broadcast over an index batch. */
  function Repeat(x: real, n: nat): (r: seq<real>)
    ensures |r| == n
    ensures forall j :: 0 <= j < n ==> r[j] == x
    decreases n
  {
    if n == 0 then [] else [x] + Repeat(x, n - 1)
  }

  /** `priorities ** self.alpha`, element by element. */
  function PowAll(pow: real -> real, ps: seq<real>): (r: seq<real>)
    ensures |r| == |ps|
    ensures forall j :: 0 <= j < |ps| ==> r[j] == pow(ps[j])
    decreases |ps|
  {
    if |ps| == 0 then [] else [pow(ps[0])] + PowAll(pow, ps[1..])
  }

  /** `np.max` of a non-empty array. */
  function SeqMax(s: seq<real>): (r: real)
    requires |s| > 0
    ensures r in s
    ensures forall j :: 0 <= j < |s| ==> s[j] <= r
    decreases |s|
  {
    if |s| == 1 then s[0]
    else
      var m := SeqMax(s[1..]);
      assert forall j :: 1 <= j < |s| ==> s[j] == s[1..][j - 1];
      if s[0] >= m then s[0] else m
  }

  /** Writing positive values to both trees at filled slots, covering every
      newly filled slot, keeps the two trees mirrored. */
  lemma WriteMirrored(sums: seq<real>, mins: seq<Extended>, filled: nat, filled': nat,
                      idxs: seq<int>, vals: seq<real>)
    requires Mirrored(sums, mins, filled) && filled <= filled' <= |sums|
    requires |idxs| == |vals| && InRange(idxs, filled')
    requires forall i :: filled <= i < filled' ==> i in idxs
    requires forall j :: 0 <= j < |vals| ==> vals[j] > 0.0
    ensures InRange(idxs, |sums|)
    ensures Mirrored(WriteAll(sums, idxs, vals), WriteAll(mins, idxs, FiniteAll(vals)), filled')
  {
    var sums', mins' := WriteAll(sums, idxs, vals), WriteAll(mins, idxs, FiniteAll(vals));
    forall i | 0 <= i < |sums|
      ensures i < filled' ==> sums'[i] > 0.0 && mins'[i] == Finite(sums'[i])
      ensures filled' <= i ==> sums'[i] == 0.0 && mins'[i] == PosInf
    {
      WriteAllAt(sums, idxs, vals, i);
      WriteAllAt(mins, idxs, FiniteAll(vals), i);
    }
  }

  lemma {:induction false} SumOfZeros(s: seq<real>, lo: int, hi: int)
    requires 0 <= lo <= hi <= |s|
    requires forall i :: lo <= i < hi ==> s[i] == 0.0
    ensures Sum(s, lo, hi) == 0.0
    decreases hi - lo
  {
    if lo < hi {
      SumOfZeros(s, lo + 1, hi);
    }
  }

  /** What proportional sampling needs of mirrored leaves: none negative,
      the filled slots carry the whole total, and it is positive once a slot
      is filled. */
  lemma MirroredSums(sums: seq<real>, mins: seq<Extended>, filled: nat)
    requires Mirrored(sums, mins, filled)
    ensures forall i :: 0 <= i < |sums| ==> sums[i] >= 0.0
    ensures Sum(sums, 0, |sums|) == Sum(sums, 0, filled)
    ensures filled > 0 ==> Sum(sums, 0, filled) > 0.0
  {
    SumSplit(sums, 0, filled, |sums|);
    SumOfZeros(sums, filled, |sums|);
    if filled > 0 {
      SumPositive(sums, 0, filled);
    }
  }

  /** A uniform draw in [0, 1) scaled by a positive total lies in
      [0, total). */
  lemma ScaledBelow(u: real, total: real, m: real)
    requires 0.0 <= u < 1.0 && total > 0.0 && m == u * total
    ensures 0.0 <= m < total
  {
    assert total - m == (1.0 - u) * total;
  }

  /** `np.random.random(size=batch_size) * total`. */
  function Scale(us: seq<real>, total: real): (r: seq<real>)
    ensures |r| == |us|
    decreases |us|
  {
    if |us| == 0 then [] else [us[0] * total] + Scale(us[1..], total)
  }

  /** Mass `j` is draw `j` times the total. (Kept out of the contract of
      `Scale`: products under a quantifier make the solver slow.) */
  lemma {:induction false} ScaleAt(us: seq<real>, total: real, j: int)
    requires 0 <= j < |us|
    ensures Scale(us, total)[j] == us[j] * total
    decreases |us|
  {
    if j > 0 {
      ScaleAt(us[1..], total, j - 1);
    }
  }

  /** Masses below the sum of the first `bound` leaves land on one of those
      leaves. */
  lemma MassesBelow(sums: seq<real>, masses: seq<real>, idxs: seq<int>, bound: int)
    requires forall i :: 0 <= i < |sums| ==> sums[i] >= 0.0
    requires 0 <= bound <= |sums| && |idxs| == |masses|
    requires forall j :: 0 <= j < |masses| ==> masses[j] < Sum(sums, 0, bound)
    requires forall j :: 0 <= j < |masses| ==> PrefixIndex(sums, masses[j], idxs[j])
    ensures forall j :: 0 <= j < |idxs| ==> 0 <= idxs[j] < bound
    ensures forall j :: 0 <= j < |idxs| ==> masses[j] < Sum(sums, 0, idxs[j] + 1)
  {
    forall j | 0 <= j < |idxs| ensures idxs[j] < bound && masses[j] < Sum(sums, 0, idxs[j] + 1) {
      if idxs[j] >= bound {
        SumMonotone(sums, bound, idxs[j]);
      }
      if idxs[j] == |sums| - 1 {
        SumMonotone(sums, bound, |sums|);
      }
    }
  }

  /** Draws in [0, 1) scaled by a positive total lie in [0, total). */
  lemma {:induction false} ScaleBelow(us: seq<real>, total: real)
    requires forall j :: 0 <= j < |us| ==> 0.0 <= us[j] < 1.0
    requires total > 0.0
    ensures forall j :: 0 <= j < |us| ==> 0.0 <= Scale(us, total)[j] < total
    decreases |us|
  {
    if |us| > 0 {
      ScaledBelow(us[0], total, us[0] * total);
      ScaleBelow(us[1..], total);
      assert forall j :: 1 <= j < |us| ==> Scale(us, total)[j] == Scale(us[1..], total)[j - 1];
    }
  }

  /** Masses drawn below the sum of the first `bound` filled slots: that sum
      is positive, and each mass passes the checks of `find_prefixsum_idx`
      against the total of all leaves and stays below the bound's sum. */
  lemma DrawsBelow(sums: seq<real>, mins: seq<Extended>, filled: nat, bound: nat, us: seq<real>)
    requires Mirrored(sums, mins, filled) && 1 <= bound <= filled
    requires forall j :: 0 <= j < |us| ==> 0.0 <= us[j] < 1.0
    ensures Sum(sums, 0, bound) > 0.0
    ensures TargetsOk(Scale(us, Sum(sums, 0, bound)), Sum(sums, 0, |sums|))
    ensures forall j :: 0 <= j < |us| ==> Scale(us, Sum(sums, 0, bound))[j] < Sum(sums, 0, bound)
  {
    MirroredSums(sums, mins, filled);
    SumPositive(sums, 0, bound);
    SumMonotone(sums, bound, |sums|);
    ScaleBelow(us, Sum(sums, 0, bound));
  }

  /** Every filled slot owns a non-empty stretch of the masses
      `[0, total)`, of length its priority: the draws that land on it. */
  lemma SlotReachable(sums: seq<real>, mins: seq<Extended>, filled: nat, i: int)
    requires Mirrored(sums, mins, filled) && 0 <= i < filled
    ensures Sum(sums, 0, i + 1) - Sum(sums, 0, i) == sums[i] > 0.0
    ensures 0.0 <= Sum(sums, 0, i) < Sum(sums, 0, i + 1) <= Sum(sums, 0, filled)
  {
    MirroredSums(sums, mins, filled);
    SumSplit(sums, 0, i, i + 1);
    assert Sum(sums, i, i + 1) == sums[i] + Sum(sums, i + 1, i + 1);
    SumNonNegative(sums, 0, i);
    SumMonotone(sums, i + 1, filled);
  }

  /** Draws scaled by a total of 0.0 are all 0.0. */
  lemma {:induction false} ScaleZero(us: seq<real>)
    ensures forall j :: 0 <= j < |us| ==> Scale(us, 0.0)[j] == 0.0
    decreases |us|
  {
    if |us| > 0 {
      ScaleZero(us[1..]);
      assert forall j :: 1 <= j < |us| ==> Scale(us, 0.0)[j] == Scale(us[1..], 0.0)[j - 1];
    }
  }

  /** Over an empty buffer every leaf is 0.0, and the only prefix index of
      the target 0.0 is the last leaf. */
  lemma EmptyPrefixIndex(sums: seq<real>, mins: seq<Extended>, i: int)
    requires Mirrored(sums, mins, 0) && PrefixIndex(sums, 0.0, i)
    ensures i == |sums| - 1
  {
    if i < |sums| - 1 {
      SumOfZeros(sums, 0, i + 1);
    }
  }

  /** With no filled slot, `sum(0, -1)` is 0.0, every mass is 0.0, and
      each lands on the last leaf. */
  lemma EmptyDraws(sums: seq<real>, mins: seq<Extended>, us: seq<real>)
    requires Mirrored(sums, mins, 0) && |sums| > 0
    ensures Sum(sums, 0, |sums| - 1) == 0.0 && Sum(sums, 0, |sums|) == 0.0
    ensures forall j :: 0 <= j < |us| ==> Scale(us, 0.0)[j] == 0.0
    ensures TargetsOk(Scale(us, 0.0), 0.0)
    ensures forall i :: PrefixIndex(sums, 0.0, i) ==> i == |sums| - 1
  {
    SumOfZeros(sums, 0, |sums| - 1);
    SumOfZeros(sums, 0, |sums|);
    ScaleZero(us);
    forall i | PrefixIndex(sums, 0.0, i) ensures i == |sums| - 1 {
      EmptyPrefixIndex(sums, mins, i);
    }
  }

  /** `self._it_sum[idxes] / self._it_sum.sum()`. */
  function LeafShares(t: SegmentTree<real>, idxes: seq<int>, total: real): (r: seq<real>)
    reads t, t.value
    requires IsSumTree(t) && InRange(idxes, t.capacity) && total != 0.0
    ensures |r| == |idxes|
    ensures forall j :: 0 <= j < |idxes| ==> r[j] == t.Leaves()[idxes[j]] / total
    decreases |idxes|
  {
    if |idxes| == 0 then [] else [t.Get(idxes[0]) / total] + LeafShares(t, idxes[1..], total)
  }

  /** One positive leaf over a total of non-negative leaves is in (0, 1]. */
  lemma ShareBound(sums: seq<real>, i: int)
    requires 0 <= i < |sums| && sums[i] > 0.0
    requires forall k :: 0 <= k < |sums| ==> sums[k] >= 0.0
    ensures Sum(sums, 0, |sums|) > 0.0
    ensures 0.0 < sums[i] / Sum(sums, 0, |sums|) <= 1.0
  {
    SumSplit(sums, 0, i, |sums|);
    SumNonNegative(sums, 0, i);
    SumNonNegative(sums, i + 1, |sums|);
    assert Sum(sums, i, |sums|) == sums[i] + Sum(sums, i + 1, |sums|);
    ShareOfTotal(sums[i], Sum(sums, 0, |sums|));
  }

  lemma ShareOfTotal(a: real, b: real)
    requires 0.0 < a <= b
    ensures 0.0 < a / b <= 1.0
  {
    assert a / b * b == a;
  }

  /** What `sample` returns besides the transitions: the slots drawn and
      their sampling probabilities. */
  datatype Sampled<T> = Sampled(transitions: seq<T>, idxes: seq<int>, probabilities: seq<real>)

  class PrioritizedReplayBuffer<T> {
    const buffer: ReplayBuffer<T>
    const alpha: real
    const beta: real
    /** `x ** alpha`, a given function here. */
    const pow: real -> real
    const sumTree: SegmentTree<real>
    const minTree: SegmentTree<Extended>
    var maxPriority: real

    ghost function Footprint(): set<object>
      reads this, buffer
    {
      {buffer, sumTree, sumTree.value, minTree, minTree.value}
      + (if buffer.storage == null then {} else {buffer.storage, buffer.storage.slots})
    }

    /** The two trees and the settings, apart from the buffer. */
    ghost predicate TreesOk()
      reads this, sumTree, sumTree.value, minTree, minTree.value
    {
      && IsSumTree(sumTree) && IsMinTree(minTree)
      && sumTree.capacity == minTree.capacity
      && alpha >= 0.0 && maxPriority >= 1.0
      && (forall x :: x > 0.0 ==> pow(x) > 0.0)
    }

    ghost predicate Valid()
      reads this, Footprint()
    {
      && buffer.Valid() && TreesOk() && buffer.maxSize <= sumTree.capacity
      && (buffer.storage != null ==>
            buffer.storage.slots as object != sumTree.value && buffer.storage.slots as object != minTree.value)
      && Mirrored(sumTree.Leaves(), minTree.Leaves(), buffer.Filled())
    }

    /** `__init__`: an empty replay buffer of `size` slots, and two trees
        whose capacity is the least power of two that is at least `size`.
        `alpha` may not be negative; `pow` takes positive priorities to
        positive values, as `** alpha` does. */
    constructor (size: nat, alpha: real, beta: real, pow: real -> real, blank: T)
      requires alpha >= 0.0
      requires forall x :: x > 0.0 ==> pow(x) > 0.0
      ensures Valid() && fresh(Footprint())
      ensures buffer.maxSize == size && buffer.storage == null
      ensures this.alpha == alpha && this.beta == beta && this.pow == pow && maxPriority == 1.0
      ensures IsPowerOfTwo(sumTree.capacity) && size <= sumTree.capacity
      ensures forall p :: IsPowerOfTwo(p) && size <= p ==> sumTree.capacity <= p
    {
      buffer := new ReplayBuffer(size, blank);
      this.alpha := alpha;
      this.beta := beta;
      this.pow := pow;
      var c := ItCapacity(size);
      var sums := NewSumSegmentTree(c);
      var mins := NewMinSegmentTree(c);
      sumTree := sums;
      minTree := mins;
      maxPriority := 1.0;
    }
  
    /** The two assignments `self._it_sum[idx] = v` and `self._it_min[idx] = v`
        that `push` and `update_priorities` both make. Positive values
        written over filled slots, covering every slot filled since
        `filled`, leave the trees mirrored up to `filled'`. */
    method SetBoth(idxs: seq<int>, vals: seq<real>, ghost filled: nat, ghost filled': nat)
      requires TreesOk() && Mirrored(sumTree.Leaves(), minTree.Leaves(), filled)
      requires filled <= filled' <= sumTree.capacity
      requires |idxs| >= 1 && |idxs| == |vals| && InRange(idxs, filled')
      requires forall i :: filled <= i < filled' ==> i in idxs
      requires forall j :: 0 <= j < |vals| ==> vals[j] > 0.0
      modifies sumTree.value, minTree.value
      ensures TreesOk() && Mirrored(sumTree.Leaves(), minTree.Leaves(), filled')
      ensures InRange(idxs, sumTree.capacity)
      ensures sumTree.Leaves() == WriteAll(old(sumTree.Leaves()), idxs, vals)
      ensures minTree.Leaves() == WriteAll(old(minTree.Leaves()), idxs, FiniteAll(vals))
    {
      WriteMirrored(sumTree.Leaves(), minTree.Leaves(), filled, filled', idxs, vals);
      sumTree.Set(idxs, vals);
      minTree.Set(idxs, FiniteAll(vals));
    }

    /** The priority `push` stores: the given one, or the running maximum
        when none (or the falsy 0.0) is given. */
    function PushPriority(priority: Option<real>): (p: real)
      reads this
      ensures priority.Some? && priority.value != 0.0 ==> p == priority.value
      ensures priority.None? || priority.value == 0.0 ==> p == maxPriority
    {
      if priority.None? || priority.value == 0.0 then maxPriority else priority.value
    }

    /** `push`: adds the batch to the underlying buffer (with the effect on
        the storage that `ReplayBuffer.Push` states), then gives every slot
        it was written to the priority `PushPriority(priority) ** alpha` in
        both trees. A batch of no transitions reaches the trees with no
        indices, and `unique` raises on those. Negative priorities are left
        out. Their power is complex or NaN for a fractional `alpha`, and
        `pow` is only described on positive priorities. */
    method Push(batch: seq<T>, priority: Option<real>) returns (r: Outcome)
      requires Valid()
      requires priority.Some? ==> priority.value >= 0.0
      modifies buffer, buffer.storage, if buffer.storage == null then {} else {buffer.storage.slots}
      modifies sumTree.value, minTree.value
      ensures Valid() && buffer.storage != null && maxPriority == old(maxPriority)
      ensures buffer.maxSize == 0 ==> r == Fail(if |batch| == 0 then ZeroDivisionError else IndexError)
      ensures buffer.maxSize > 0 && |batch| == 0 ==> r == Fail(IndexError)
      ensures r.Fail? ==> sumTree.Leaves() == old(sumTree.Leaves()) && minTree.Leaves() == old(minTree.Leaves())
      ensures buffer.maxSize > 0 && |batch| > 0 ==>
        && r == Pass
        && var R := Ring(old(buffer.NextSlot()), |batch|, buffer.maxSize);
           var vals := Repeat(pow(PushPriority(priority)), |batch|);
           && InRange(R, sumTree.capacity)
           && sumTree.Leaves() == WriteAll(old(sumTree.Leaves()), R, vals)
           && minTree.Leaves() == WriteAll(old(minTree.Leaves()), R, FiniteAll(vals))
    {
      ghost var filled := buffer.Filled();
      var slots := buffer.Push(batch);
      r := SetPushed(slots, PushPriority(priority), filled);
    }

    /** The part of `push` after the buffer's own: the slots the batch went
        to, or the error the buffer raised, and the priority to give them. */
    method SetPushed(slots: Result<seq<int>>, p: real, ghost filled: nat) returns (r: Outcome)
      requires buffer.Valid() && buffer.storage != null && TreesOk() && buffer.maxSize <= sumTree.capacity
      requires buffer.storage.slots as object != sumTree.value && buffer.storage.slots as object != minTree.value
      requires Mirrored(sumTree.Leaves(), minTree.Leaves(), filled) && filled <= buffer.Filled()
      requires slots.Err? ==> filled == buffer.Filled()
      requires slots.Ok? ==> InRange(slots.value, buffer.Filled())
      requires slots.Ok? ==> forall i :: filled <= i < buffer.Filled() ==> i in slots.value
      requires p > 0.0
      modifies sumTree.value, minTree.value
      ensures Valid()
      ensures slots.Err? ==> r == Fail(slots.error)
      ensures slots.Ok? && |slots.value| == 0 ==> r == Fail(IndexError)
      ensures r.Fail? ==> sumTree.Leaves() == old(sumTree.Leaves()) && minTree.Leaves() == old(minTree.Leaves())
      ensures slots.Ok? && |slots.value| > 0 ==>
        && r == Pass && InRange(slots.value, sumTree.capacity)
        && sumTree.Leaves() == WriteAll(old(sumTree.Leaves()), slots.value, Repeat(pow(p), |slots.value|))
        && minTree.Leaves() == WriteAll(old(minTree.Leaves()), slots.value, FiniteAll(Repeat(pow(p), |slots.value|)))
    {
      if slots.Err? {
        return Fail(slots.error);
      }
      if |slots.value| == 0 {
        ghost var written := slots.value;
        assert filled < buffer.Filled() ==> filled in written;
        return Fail(IndexError);
      }
      SetBoth(slots.value, Repeat(pow(p), |slots.value|), filled, buffer.Filled());
      r := Pass;
    }

    /** The checks of `update_priorities`, in the order it makes them. */
    function UpdateCheck(idxes: seq<int>, priorities: seq<real>): (r: Outcome)
      reads this, buffer, buffer.storage
      ensures r == Fail(ValueError) <==> |idxes| == |priorities| == 0
      ensures r == Fail(TypeError) <==>
        && |idxes| == |priorities| > 0 && buffer.storage == null
        && (forall j :: 0 <= j < |priorities| ==> priorities[j] > 0.0)
        && (forall j :: 0 <= j < |idxes| ==> idxes[j] >= 0)
      ensures r == Pass <==>
        && |idxes| == |priorities| > 0 && buffer.storage != null
        && (forall j :: 0 <= j < |priorities| ==> priorities[j] > 0.0)
        && InRange(idxes, buffer.Filled())
      ensures r.Fail? ==> r.error in {AssertionError, ValueError, TypeError}
    {
      if |idxes| != |priorities| then Fail(AssertionError)
      else if |priorities| == 0 then Fail(ValueError)
      else if exists j :: 0 <= j < |priorities| && priorities[j] <= 0.0 then Fail(AssertionError)
      else if exists j :: 0 <= j < |idxes| && idxes[j] < 0 then Fail(AssertionError)
      else if buffer.storage == null then Fail(TypeError)
      else if exists j :: 0 <= j < |idxes| && idxes[j] >= buffer.storage.maxFilled then Fail(AssertionError)
      else Pass
    }

    /** `update_priorities`: once the checks pass, gives slot `idxes[j]` the
        priority `priorities[j] ** alpha` in both trees (the last write wins
        on a repeated slot) and raises the running maximum to the largest
        new priority. */
    method UpdatePriorities(idxes: seq<int>, priorities: seq<real>) returns (r: Outcome)
      requires Valid()
      modifies this, sumTree.value, minTree.value
      ensures Valid() && r == UpdateCheck(idxes, priorities)
      ensures r.Fail? ==>
        && maxPriority == old(maxPriority)
        && sumTree.Leaves() == old(sumTree.Leaves()) && minTree.Leaves() == old(minTree.Leaves())
      ensures r == Pass ==>
        && maxPriority == (if SeqMax(priorities) > old(maxPriority) then SeqMax(priorities) else old(maxPriority))
        && sumTree.Leaves() == WriteAll(old(sumTree.Leaves()), idxes, PowAll(pow, priorities))
        && minTree.Leaves() == WriteAll(old(minTree.Leaves()), idxes, FiniteAll(PowAll(pow, priorities)))
    {
      r := UpdateCheck(idxes, priorities);
      if r.Fail? {
        return;
      }
      var vals := PowAll(pow, priorities);
      SetBoth(idxes, vals, buffer.Filled(), buffer.Filled());
      var top := SeqMax(priorities);
      if top > maxPriority {
        maxPriority := top;
      }
    }

    /** Proportional draws against the total of the first `bound` slots:
        draw j is the slot whose stretch of prefix sums covers `u_j` times
        that total, one of those slots. */
    ghost predicate DrawnBelow(uniforms: seq<real>, idxes: seq<int>, bound: nat)
      reads this, sumTree, sumTree.value
      requires IsSumTree(sumTree) && bound <= sumTree.capacity
    {
      var sums := sumTree.Leaves();
      var mass := Scale(uniforms, Sum(sums, 0, bound));
      && |idxes| == |uniforms|
      && forall j :: 0 <= j < |uniforms| ==>
           && 0 <= idxes[j] < bound
           && Sum(sums, 0, idxes[j]) <= mass[j] < Sum(sums, 0, idxes[j] + 1)
    }

    /** What `sample` returns for slots drawn among the filled ones: each
        slot's transition from the storage, and its priority over the
        positive total of the sum tree, in (0, 1]. */
    ghost predicate Gathered(s: Sampled<T>)
      reads this, Footprint()
      requires Valid() && buffer.storage != null
    {
      var sums := sumTree.Leaves();
      && |s.transitions| == |s.probabilities| == |s.idxes|
      && InRange(s.idxes, buffer.Filled())
      && Sum(sums, 0, sumTree.capacity) > 0.0
      && forall j :: 0 <= j < |s.idxes| ==>
           && s.transitions[j] == buffer.storage.AllTransitions()[s.idxes[j]]
           && s.probabilities[j] == sums[s.idxes[j]] / Sum(sums, 0, sumTree.capacity)
           && 0.0 < s.probabilities[j] <= 1.0
    }

    /** `_sample_proportional` as written: the total it scales the draws by
        is `sum(0, len - 1)`, which by the half-open `reduce` leaves out the
        last filled slot. So that slot is never drawn, and with one filled
        slot the range is empty and the reduction never returns. With no
        filled slot the end -1 counts from the end of the tree, and every
        draw lands on the last leaf. `uniforms` are the draws of
        `np.random.random`. */
    method SampleProportionalAsWritten(uniforms: seq<real>) returns (r: Result<seq<int>>)
      requires Valid()
      requires forall j :: 0 <= j < |uniforms| ==> 0.0 <= uniforms[j] < 1.0
      ensures buffer.storage == null ==> r == Err(TypeError)
      ensures buffer.storage != null && (buffer.Filled() == 1 || (buffer.Filled() == 0 && sumTree.capacity == 1)) ==>
        r == Err(RecursionError)
      ensures buffer.storage != null && |uniforms| == 0 && buffer.Filled() != 1 && (buffer.Filled() > 0 || sumTree.capacity > 1) ==>
        r == Err(ValueError)
      ensures buffer.storage != null && buffer.Filled() >= 2 && |uniforms| > 0 ==>
        r.Ok? && DrawnBelow(uniforms, r.value, buffer.Filled() - 1)
      ensures buffer.storage != null && buffer.Filled() == 0 && sumTree.capacity > 1 && |uniforms| > 0 ==>
        && r.Ok? && |r.value| == |uniforms|
        && forall j :: 0 <= j < |uniforms| ==> r.value[j] == sumTree.capacity - 1
    {
      if buffer.storage == null {
        return Err(TypeError);
      }
      var end := buffer.storage.Len() - 1;
      if sumTree.EndOf(Some(end)) <= 0 {
        return Err(RecursionError);
      }
      var total := SumOf(sumTree, 0, Some(end));
      var mass := Scale(uniforms, total);
      ghost var sums := sumTree.Leaves();
      if end > 0 {
        DrawsBelow(sums, minTree.Leaves(), buffer.Filled(), end, uniforms);
        r := FindPrefixsumIdx(sumTree, mass);
        if r.Ok? {
          MirroredSums(sums, minTree.Leaves(), buffer.Filled());
          MassesBelow(sums, mass, r.value, end);
        }
      } else {
        EmptyDraws(sums, minTree.Leaves(), uniforms);
        r := FindPrefixsumIdx(sumTree, mass);
      }
    }

    /** `_sample_proportional` with the total `sum(0, len)` of every filled
        slot: each draw `u` picks the slot whose share of the running sum
        covers `u * total`, so every filled slot can be drawn, with
        probability its priority over the total. A tree of one leaf cannot
        be walked (`find_prefixsum_idx` reads past its node array). */
    method SampleProportional(uniforms: seq<real>) returns (r: Result<seq<int>>)
      requires Valid()
      requires forall j :: 0 <= j < |uniforms| ==> 0.0 <= uniforms[j] < 1.0
      ensures buffer.storage == null ==> r == Err(TypeError)
      ensures buffer.storage != null && buffer.Filled() == 0 ==> r == Err(RecursionError)
      ensures buffer.storage != null && buffer.Filled() > 0 && |uniforms| == 0 ==> r == Err(ValueError)
      ensures buffer.storage != null && buffer.Filled() > 0 && |uniforms| > 0 && sumTree.capacity == 1 ==>
        r == Err(IndexError)
      ensures buffer.storage != null && buffer.Filled() > 0 && |uniforms| > 0 && sumTree.capacity > 1 ==>
        r.Ok? && DrawnBelow(uniforms, r.value, buffer.Filled())
    {
      if buffer.storage == null {
        return Err(TypeError);
      }
      var end := buffer.storage.Len();
      if sumTree.EndOf(Some(end)) <= 0 {
        return Err(RecursionError);
      }
      var total := SumOf(sumTree, 0, Some(end));
      var mass := Scale(uniforms, total);
      ghost var sums := sumTree.Leaves();
      DrawsBelow(sums, minTree.Leaves(), buffer.Filled(), end, uniforms);
      r := FindPrefixsumIdx(sumTree, mass);
      if r.Ok? {
        MirroredSums(sums, minTree.Leaves(), buffer.Filled());
        MassesBelow(sums, mass, r.value, end);
      }
    }

    /** The rest of `sample` once slots among the filled ones are drawn:
        their transitions from the storage, and their priorities over the
        total, each in (0, 1]. */
    method Gather(idxes: seq<int>) returns (s: Sampled<T>)
      requires Valid() && buffer.storage != null && buffer.Filled() > 0
      requires InRange(idxes, buffer.Filled())
      ensures s.idxes == idxes && Gathered(s)
    {
      ghost var sums := sumTree.Leaves();
      MirroredSums(sums, minTree.Leaves(), buffer.Filled());
      SumOfAll(sumTree);
      var total := SumOf(sumTree, 0, None);
      var shares := LeafShares(sumTree, idxes, total);
      var transitions := buffer.storage.Get(idxes);
      forall j | 0 <= j < |idxes| ensures 0.0 < shares[j] <= 1.0 {
        ShareBound(sums, idxes[j]);
      }
      s := Sampled(transitions.value, idxes, shares);
    }

    /** `sample`, drawing slots with the corrected `SampleProportional`:
        every drawn slot is filled, its transition is the storage's, and its
        probability is its priority over the total, in (0, 1]. */
    method Sample(uniforms: seq<real>) returns (r: Result<Sampled<T>>)
      requires Valid()
      requires forall j :: 0 <= j < |uniforms| ==> 0.0 <= uniforms[j] < 1.0
      ensures buffer.storage == null ==> r == Err(TypeError)
      ensures buffer.storage != null && buffer.Filled() == 0 ==> r == Err(RecursionError)
      ensures buffer.storage != null && buffer.Filled() > 0 && |uniforms| == 0 ==> r == Err(ValueError)
      ensures buffer.storage != null && buffer.Filled() > 0 && |uniforms| > 0 && sumTree.capacity == 1 ==>
        r == Err(IndexError)
      ensures buffer.storage != null && buffer.Filled() > 0 && |uniforms| > 0 && sumTree.capacity > 1 ==>
        r.Ok? && DrawnBelow(uniforms, r.value.idxes, buffer.Filled()) && Gathered(r.value)
    {
      var drawn := SampleProportional(uniforms);
      if drawn.Err? {
        return Err(drawn.error);
      }
      var s := Gather(drawn.value);
      return Ok(s);
    }

    /** `sample` as written, drawing slots with
        `SampleProportionalAsWritten`: the last filled slot is never drawn,
        and one filled slot raises. With no filled slot every draw names
        leaf capacity - 1, and reading the storage there raises IndexError
        unless the storage has that slot (see `GatherLastLeaf`). */
    method SampleAsWritten(uniforms: seq<real>) returns (r: Result<Sampled<T>>)
      requires Valid()
      requires forall j :: 0 <= j < |uniforms| ==> 0.0 <= uniforms[j] < 1.0
      ensures buffer.storage == null ==> r == Err(TypeError)
      ensures buffer.storage != null && (buffer.Filled() == 1 || (buffer.Filled() == 0 && sumTree.capacity == 1)) ==>
        r == Err(RecursionError)
      ensures buffer.storage != null && |uniforms| == 0 && buffer.Filled() != 1 && (buffer.Filled() > 0 || sumTree.capacity > 1) ==>
        r == Err(ValueError)
      ensures buffer.storage != null && buffer.Filled() >= 2 && |uniforms| > 0 ==>
        r.Ok? && DrawnBelow(uniforms, r.value.idxes, buffer.Filled() - 1) && Gathered(r.value)
      ensures buffer.storage != null && buffer.Filled() == 0 && sumTree.capacity > 1 && |uniforms| > 0 ==>
        && (r.Ok? <==> sumTree.capacity - 1 < buffer.maxSize)
        && (r.Err? ==> r.error == IndexError)
        && (r.Ok? ==>
              && |r.value.idxes| == |r.value.transitions| == |uniforms|
              && forall j :: 0 <= j < |uniforms| ==>
                   r.value.idxes[j] == sumTree.capacity - 1
                   && r.value.transitions[j] == buffer.storage.slots[sumTree.capacity - 1])
    {
      var drawn := SampleProportionalAsWritten(uniforms);
      if drawn.Err? {
        return Err(drawn.error);
      }
      r := GatherDrawn(uniforms, drawn.value);
    }

    /** The rest of `sample` as written once `SampleProportionalAsWritten`
        has drawn `idxes`: with two or more filled slots, the gathered
        transitions and probabilities; with none, the read of leaf
        capacity - 1. */
    method GatherDrawn(ghost uniforms: seq<real>, idxes: seq<int>) returns (r: Result<Sampled<T>>)
      requires Valid() && buffer.storage != null && buffer.Filled() != 1 && |uniforms| > 0
      requires buffer.Filled() >= 2 ==> DrawnBelow(uniforms, idxes, buffer.Filled() - 1)
      requires buffer.Filled() == 0 ==>
        && sumTree.capacity > 1 && |idxes| == |uniforms|
        && forall j :: 0 <= j < |uniforms| ==> idxes[j] == sumTree.capacity - 1
      ensures buffer.Filled() >= 2 ==>
        r.Ok? && r.value.idxes == idxes && Gathered(r.value)
      ensures buffer.Filled() == 0 ==>
        && (r.Ok? <==> sumTree.capacity - 1 < buffer.maxSize)
        && (r.Err? ==> r.error == IndexError)
        && (r.Ok? ==>
              && r.value.idxes == idxes && |r.value.transitions| == |idxes|
              && forall j :: 0 <= j < |idxes| ==> r.value.transitions[j] == buffer.storage.slots[sumTree.capacity - 1])
    {
      if buffer.storage.Len() > 0 {
        var s := Gather(idxes);
        return Ok(s);
      }
      r := GatherLastLeaf(idxes);
    }

    /** The rest of `sample` as written on a buffer with no filled slot,
        where every draw named leaf capacity - 1: reading the storage there
        raises IndexError unless the storage has that slot. The
        probabilities are 0.0 / 0.0 (NaN in numpy); the model puts 0.0
        there and states nothing about them. */
    method GatherLastLeaf(idxes: seq<int>) returns (r: Result<Sampled<T>>)
      requires Valid() && buffer.storage != null && buffer.Filled() == 0 && sumTree.capacity > 1
      requires |idxes| > 0 && forall j :: 0 <= j < |idxes| ==> idxes[j] == sumTree.capacity - 1
      ensures r.Ok? <==> sumTree.capacity - 1 < buffer.maxSize
      ensures r.Err? ==> r.error == IndexError
      ensures r.Ok? ==>
        && r.value.idxes == idxes && |r.value.transitions| == |idxes|
        && forall j :: 0 <= j < |idxes| ==> r.value.transitions[j] == buffer.storage.slots[sumTree.capacity - 1]
    {
      var got := buffer.storage.Get(idxes);
      if got.Err? {
        return Err(got.error);
      }
      return Ok(Sampled(got.value, idxes, Repeat(0.0, |idxes|)));
    }
  }
}
