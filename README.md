# Prioritized experience replay, modelled in Dafny

This project models the replay engine of `deep_control/replay.py`. That engine is a
ring of transition slots with a sum segment tree and a min segment tree over each
slot's priority. The buffer uses them to draw transitions in proportion to their
priority.

The modules follow the file's classes:

- `Results`: the Python exceptions the code paths raise, a `Result` type and an
  `Outcome` (`Pass` or `Fail`).
- `Batches`: a numpy fancy-index assignment `a[idxs] = vals`, read as writes from
  left to right. On a repeated index the last write wins.
- `Dedup`: the helper `unique`, and `idxs // 2`.
- `Monoids`: associative operators with a neutral element. It defines the fold a
  segment tree caches, sums over reals, and `min` over reals extended with
  +infinity.
- `SegmentTrees`: the class `SegmentTree`.
  - Its node array is an `array`.
  - `__setitem__` is a method whose `while` loop climbs the tree one level at a time.
  - `_reduce_helper` and `reduce` are recursive functions proved to fold the leaves
    of a range.
- `SumTrees` and `MinTrees`: the two specialisations, `sum`, `min` and the descent
  `find_prefixsum_idx`.
- `Storage`: the class `ReplayBufferStorage`.
  - Its slots are an `array` of abstract transitions `T`. A transition stands for
    the five stacks at one slot.
  - A ghost history of every transition added ties `add`'s counters and slots to
    what was added. The next slot is the count mod size. The filled length is the
    count capped at size. Each of the latest `size` transitions sits at its
    insertion number mod size.
- `Buffers`: `ReplayBuffer`, which creates its storage on the first push, with
  uniform sampling.
- `Prioritized`: `PrioritizedReplayBuffer`.
  - Its invariant `Valid` keeps the two trees mirrored. Every filled slot has a
    positive priority, the same in both trees. Every empty slot holds the neutral
    element.
  - `push`, `update_priorities`, `_sample_proportional` and `sample` are methods
    stated against that invariant.

Randomness enters as parameters:

- The uniforms of `np.random.random` go to `SampleProportional`, `Sample` and
  their as-written counterparts.
- The indices of `torch.randint` go to `ReplayBuffer.Sample`.

`x ** alpha` is a function-valued constructor parameter `pow`. The model assumes it
takes positive priorities to positive values. Leaf values are `real`s.

The model follows the code where it and its docstrings disagree:

- `reduce`, `sum` and `min` fold a half-open range. Their docstrings say the end is
  included, but `reduce` subtracts one before the inclusive helper.
- `get_all_transitions` returns the first `len` slots in slot order. Once the ring
  has wrapped, that is not insertion order.

## Model

| member | source | states |
|---|---|---|
| Dedup.Unique | deep_control/replay.py:5-16 | a one-element input comes back unchanged; the result is non-empty, no longer than the input, has the same elements, keeps the first and last element, and has no two equal neighbours |
| Dedup.UniqueOfSorted | deep_control/replay.py:5-16 | on a sorted input the result is strictly increasing with exactly the input's elements, as `np.unique` gives |
| Dedup.UniqueStaysSorted | deep_control/replay.py:13-16 | on a sorted input the result stays sorted |
| Dedup.UniqueOfConstant | deep_control/replay.py:11-16 | any run of one repeated value collapses to that single value (how the index set of `__setitem__` ends as [0]) |
| Dedup.Parents | deep_control/replay.py:82 | `idxs // 2` maps every index to its parent |
| Batches.WriteAll | deep_control/replay.py:78 | a fancy-index write keeps the array's length |
| Batches.WriteAllUntouched | deep_control/replay.py:78 | a position no index names keeps its old value |
| Batches.WriteAllLastWins | deep_control/replay.py:78 | a position last named at j holds vals[j] |
| Batches.LastIndex | deep_control/replay.py:78 | the last batch position naming an index: it names the index and no later position does |
| Batches.WriteAllAt | deep_control/replay.py:78 | every position after the write holds the value written there last, or its old value where nothing was written |
| Monoids.FoldSplitAt | deep_control/replay.py:32-34 | for an associative operator with a neutral element, the fold of a range is the fold of its two halves combined |
| Monoids.MonoidSplits | deep_control/replay.py:32-34 | associativity and neutrality give the splitting law the tree relies on |
| Monoids.FoldSingleton | deep_control/replay.py:32-34 | the fold of one element is that element |
| Monoids.AddIsMonoid | deep_control/replay.py:97-101 | `np.add` with 0.0 is associative with a neutral element |
| Monoids.SumSplit | deep_control/replay.py:104-111 | a sum of leaves splits at any point of its range |
| Monoids.SumMonotone | deep_control/replay.py:113-122 | over non-negative leaves a longer prefix sums to at least as much |
| Monoids.SumNonNegative | deep_control/replay.py:104-111 | a sum of non-negative leaves is non-negative |
| Monoids.SumPositive | deep_control/replay.py:104-111 | a non-empty sum of positive leaves is positive |
| Monoids.Min | deep_control/replay.py:151-155 | `np.minimum` returns one of its arguments and is at most both |
| Monoids.MinIsMonoid | deep_control/replay.py:151-155 | `np.minimum` with +infinity is associative with a neutral element |
| Monoids.MinimumIsLeast | deep_control/replay.py:158-165 | the minimum of a range is a lower bound of it and one of its elements, +infinity for an empty range |
| SegmentTrees.SpansProduct | deep_control/replay.py:44-57 | a node spanning w leaves from lo satisfies node * w == capacity + lo, with w a power of two |
| SegmentTrees.SpansFacts | deep_control/replay.py:44-57 | a one-leaf span is the leaf's node; a wider span is an internal node of even width |
| SegmentTrees.HalvesSpan | deep_control/replay.py:47-57 | the midpoint split of `_reduce_helper` gives the left child the first half of the node's range and the right child the rest |
| SegmentTrees.NodeValue | deep_control/replay.py:44-46 | in a consistent tree every node holds the fold of the leaves it spans |
| SegmentTrees.ConsistentIsIdeal | deep_control/replay.py:75-89 | a consistent node equals the value recomputed bottom-up from the leaves |
| SegmentTrees.IdealLocal | deep_control/replay.py:75-89 | a node's recomputed value depends only on the leaves below it |
| SegmentTrees.UpRange | deep_control/replay.py:82-89 | halving a node index until it reaches a level lands on that level |
| SegmentTrees.BelowUp | deep_control/replay.py:82-89 | the ancestor on a level of a node below k is k |
| SegmentTrees.UpHalf | deep_control/replay.py:82-89 | the ancestor one level up is the parent of the ancestor on this level |
| SegmentTrees.UntouchedNode | deep_control/replay.py:83-89 | a node the climb does not visit has no written leaf below it and already holds its value over the new leaves |
| SegmentTrees.LeafNodes | deep_control/replay.py:77 | `idx + capacity` maps leaf indices to their nodes |
| SegmentTrees.ParentsLevel | deep_control/replay.py:82-89 | the deduplicated parents of one level lie on the level above |
| SegmentTrees.FirstLevel | deep_control/replay.py:77-82 | the first index set holds, on the level above the leaves, the parent of every written leaf; it is [0] at capacity 1 |
| SegmentTrees.NextLevel | deep_control/replay.py:83-89 | each pass moves the index set one level up and keeps every written leaf's ancestor in it, down to [0] past the root |
| SegmentTrees.ClimbStart | deep_control/replay.py:77-78 | before the climb only the leaves have changed |
| SegmentTrees.ClimbStep | deep_control/replay.py:83-89 | one pass leaves every node from the current level down holding its value over the new leaves |
| SegmentTrees.ClimbDone | deep_control/replay.py:83-89 | when the loop stops every internal node equals the operator of its children again, and node 0 is untouched |
| SegmentTrees.SegmentTree.Leaves | deep_control/replay.py:91-94 | the array the tree stands for has `capacity` elements |
| SegmentTrees.SegmentTree.constructor | deep_control/replay.py:20-42 | requires a positive power-of-two capacity and an associative operator with a neutral element; all 2 * capacity nodes start as the neutral element, and the tree is consistent |
| SegmentTrees.SegmentTree.ReduceHelper | deep_control/replay.py:44-57 | the fold of the leaves of the inclusive range [start, end] inside the node's span |
| SegmentTrees.SegmentTree.ReduceChildren | deep_control/replay.py:47-57 | the three recursive cases of the helper fold the same inclusive range |
| SegmentTrees.SegmentTree.Reduce | deep_control/replay.py:59-73 | the operator folded over the half-open leaf range [start, end), where end defaults to capacity and a negative end counts from capacity |
| SegmentTrees.SegmentTree.Get | deep_control/replay.py:91-94 | `t[i]` is leaf i |
| SegmentTrees.SegmentTree.WriteLeaves | deep_control/replay.py:77-78 | the leaf write sets the leaves to the old leaves overwritten at `idxs`, the last write winning, and leaves the internal nodes alone |
| SegmentTrees.SegmentTree.UpdateLevel | deep_control/replay.py:85-87 | one assignment of the loop recomputes exactly the nodes of the current index set from their children |
| SegmentTrees.SegmentTree.Set | deep_control/replay.py:75-89 | afterwards the leaves are the old ones overwritten at `idxs` (others unchanged), every internal node is consistent again, and node 0 is untouched |
| SumTrees.NewSumSegmentTree | deep_control/replay.py:97-102 | a sum tree of the given capacity with every leaf 0.0 |
| SumTrees.SumOf | deep_control/replay.py:104-111 | `sum(start, end)` is the sum of the leaves [start, end) |
| SumTrees.SumOfAll | deep_control/replay.py:104-111 | `sum()` is the total of all leaves |
| SumTrees.PrefixIndexIsHighest | deep_control/replay.py:113-122 | over non-negative leaves the index the search stops at is the highest whose prefix sum is at most the target |
| SumTrees.PrefixIndexUnique | deep_control/replay.py:113-122 | over non-negative leaves at most one index meets the stopping condition |
| SumTrees.LeftChild | deep_control/replay.py:132-146 | stepping to the left child halves the span, and the prefix sum through the left half is the prefix before it plus the left child's value |
| SumTrees.Descend | deep_control/replay.py:129-148 | one target's walk (go right and subtract when the left child is at most the remaining target) stops at a leaf whose prefix before it is at most the target and whose prefix through it exceeds the target unless it is the last leaf |
| SumTrees.FindPrefixsumIdx | deep_control/replay.py:113-148 | an empty batch raises ValueError; a negative target, or one above the total plus 1e-5, fails the assert; a capacity-1 tree reads past its node array; otherwise one prefix index per target |
| MinTrees.NewMinSegmentTree | deep_control/replay.py:151-156 | a min tree of the given capacity with every leaf +infinity |
| MinTrees.MinOf | deep_control/replay.py:158-165 | `min(start, end)` is at most every leaf of [start, end) and equal to one of them |
| Storage.Wrap | deep_control/replay.py:198 | wrapping at size gives a value below size |
| Storage.WrapIsMod | deep_control/replay.py:198 | wrapping by repeated subtraction is `% size` |
| Storage.WrapShift | deep_control/replay.py:208 | wrapping the next slot and then adding is the same as adding and then wrapping |
| Storage.WrapDistinct | deep_control/replay.py:198 | fewer than size consecutive counts go to distinct slots |
| Storage.Ring | deep_control/replay.py:198 | `np.arange(next, next + n) % size` has n slots, all below size |
| Storage.RingWraps | deep_control/replay.py:198 | entry j of the ring is next + j wrapped at size |
| Storage.RingIsArange | deep_control/replay.py:198 | entry j of the ring is (next + j) % size |
| Storage.RingWriteNew | deep_control/replay.py:198-203 | after the write each of the last `size` transitions of the batch is at its ring slot |
| Storage.RingWriteOld | deep_control/replay.py:198-203 | a recent transition from before the batch keeps its slot when the batch does not reach it |
| Storage.RingShifted | deep_control/replay.py:198 | the ring after h transitions starts at h mod size |
| Storage.RingWriteAt | deep_control/replay.py:198-203 | after the write, each of the latest `size` transitions is at its insertion number mod size |
| Storage.RingWrite | deep_control/replay.py:198-203 | writing a batch at its ring slots keeps the latest `size` transitions at their slots |
| Storage.Advance | deep_control/replay.py:204-208 | the next slot and the filled length advance as the count of transitions does; every returned slot is below the new length, and every newly filled slot is returned |
| Storage.FilledAfterAddCapped | deep_control/replay.py:205-207 | `min(max(next + n, max_filled), size)` is the new count capped at size |
| Storage.AddStep | deep_control/replay.py:183-209 | `add` keeps the ring bookkeeping, the length never decreases, the returned slots are filled, and they cover every newly filled slot |
| Storage.ReadSlots | deep_control/replay.py:218-222 | reading slots by index, a negative index counting from the end |
| Storage.ReplayBufferStorage.constructor | deep_control/replay.py:169-178 | `size` blank slots, next slot and filled length 0, nothing added |
| Storage.ReplayBufferStorage.Len | deep_control/replay.py:180-181 | `len` is at most size; it is the number of transitions added, or size once the ring has wrapped |
| Storage.ReplayBufferStorage.Add | deep_control/replay.py:183-209 | returns the ring slots and writes the batch there; next slot becomes (next + n) % size and the length `min(max(next + n, len), size)`; the length never decreases and stays at most size; every returned slot is below it; size 0 raises and changes nothing |
| Storage.ReplayBufferStorage.WriteBatch | deep_control/replay.py:199-203 | the five stack assignments write the batch at the ring slots, a later entry winning |
| Storage.ReplayBufferStorage.Get | deep_control/replay.py:211-223 | the transitions at the given slots, negative ones counting from the end; an index outside the stacks raises IndexError |
| Storage.ReplayBufferStorage.AllTransitions | deep_control/replay.py:225-232 | the first `len` slots |
| Storage.ReplayBufferStorage.GetRecent | deep_control/replay.py:211-223 | each of the latest `size` transitions added is read back from slot (its insertion number mod size), below the length |
| Storage.ReplayBufferStorage.AllBeforeWrap | deep_control/replay.py:225-232 | until the ring wraps, `get_all_transitions` is every transition added, in order |
| Storage.WrapExample | deep_control/replay.py:198-208 | size 3 and five single adds return the slots 0, 1, 2, 0, 1 and leave the length at 3 |
| Buffers.ReplayBuffer.constructor | deep_control/replay.py:236-238 | no storage, the given size |
| Buffers.ReplayBuffer.Len | deep_control/replay.py:240-241 | TypeError exactly when there is no storage; otherwise the filled length, at most size |
| Buffers.ReplayBuffer.Push | deep_control/replay.py:243-248 | creates the storage when there is none or it is empty, then adds the batch: the ring slots are returned, the history grows by the batch, the length never decreases, and the returned slots are filled and cover every newly filled slot |
| Buffers.ReplayBuffer.Sample | deep_control/replay.py:250-252 | TypeError without a storage, RuntimeError on an empty one, otherwise the transitions at the drawn indices |
| Buffers.ReplayBuffer.AllTransitions | deep_control/replay.py:254-255 | AttributeError exactly when there is no storage, otherwise the storage's transitions |
| Prioritized.PowerBelow | deep_control/replay.py:265-267 | a power of two below another is at most its half |
| Prioritized.ItCapacity | deep_control/replay.py:265-267 | the least power of two that is at least size |
| Prioritized.FiniteAll | deep_control/replay.py:278 | the values the min tree receives are the sum tree's, as finite numbers |
| Prioritized.Repeat | deep_control/replay.py:277-278 | a scalar priority broadcast over the index batch |
| Prioritized.PowAll | deep_control/replay.py:300-301 | `priorities ** alpha`, element by element |
| Prioritized.SeqMax | deep_control/replay.py:302 | `np.max` is one of the elements and at least every element |
| Prioritized.WriteMirrored | deep_control/replay.py:277-278 | writing positive values to both trees at filled slots, covering every newly filled slot, keeps the trees mirrored |
| Prioritized.SumOfZeros | deep_control/replay.py:282 | a sum over empty slots is 0.0 |
| Prioritized.MirroredSums | deep_control/replay.py:282 | over mirrored leaves no leaf is negative, the filled slots carry the whole total, and it is positive once a slot is filled |
| Prioritized.Scale | deep_control/replay.py:283 | the masses are one per draw |
| Prioritized.ScaleAt | deep_control/replay.py:283 | mass j is draw j times the total |
| Prioritized.ScaleBelow | deep_control/replay.py:283 | every mass from draws in [0, 1) is in [0, total) |
| Prioritized.MassesBelow | deep_control/replay.py:284 | masses below the sum of the first `bound` leaves land on one of those leaves, below the prefix through it |
| Prioritized.DrawsBelow | deep_control/replay.py:282-284 | masses scaled by the sum of some filled slots pass the asserts of `find_prefixsum_idx` and stay below that sum |
| Prioritized.SlotReachable | deep_control/replay.py:280-285 | every filled slot owns a non-empty stretch of the masses, of length its priority, within the total |
| Prioritized.ScaleZero | deep_control/replay.py:283 | draws scaled by a zero total are all 0.0 |
| Prioritized.EmptyPrefixIndex | deep_control/replay.py:284 | over all-zero leaves the only prefix index of 0.0 is the last leaf |
| Prioritized.EmptyDraws | deep_control/replay.py:282-284 | on an empty buffer `sum(0, -1)` is 0.0, every mass is 0.0, and each lands on the last leaf |
| Prioritized.LeafShares | deep_control/replay.py:291 | `self._it_sum[idxes] / self._it_sum.sum()`, element by element |
| Prioritized.ShareBound | deep_control/replay.py:291 | a positive leaf over the total of non-negative leaves is in (0, 1] |
| Prioritized.PrioritizedReplayBuffer.constructor | deep_control/replay.py:259-271 | requires alpha >= 0; an empty buffer, both trees of capacity the least power of two at least size, mirrored and all neutral, max priority 1.0 |
| Prioritized.PrioritizedReplayBuffer.SetBoth | deep_control/replay.py:277-278 | both trees get the same positive values at the same slots, stay mirrored, and nothing else changes |
| Prioritized.PrioritizedReplayBuffer.PushPriority | deep_control/replay.py:275-276 | the given priority, or the running maximum when none or the falsy 0.0 is given |
| Prioritized.PrioritizedReplayBuffer.Push | deep_control/replay.py:273-278 | writes `PushPriority ** alpha` into both trees at exactly the returned slots and keeps them mirrored; the maximum priority is unchanged; an empty batch or a zero-size buffer raises, and then the trees are unchanged |
| Prioritized.PrioritizedReplayBuffer.SetPushed | deep_control/replay.py:275-278 | passes on the buffer's error, raises IndexError on no slots, otherwise writes the one priority at every returned slot of both trees |
| Prioritized.PrioritizedReplayBuffer.UpdateCheck | deep_control/replay.py:295-299 | ValueError exactly for two empty batches; TypeError exactly when the checks before `len` pass without a storage; success exactly for equal non-empty lengths, positive priorities and filled slots; every other failure is an AssertionError |
| Prioritized.PrioritizedReplayBuffer.UpdatePriorities | deep_control/replay.py:295-302 | after the checks, both trees get `priorities ** alpha` at `idxes` (the last write winning) and the maximum becomes max(old, max(priorities)); a failed check changes nothing |
| Prioritized.PrioritizedReplayBuffer.SampleProportionalAsWritten | deep_control/replay.py:280-285 | with the total `sum(0, len - 1)` draw j lands on the slot i with prefix(i) <= u_j * sum(0, len - 1) < prefix(i + 1), so never on slot len - 1; with one filled slot, or none in a capacity-1 tree, the reduction never stops; with none in a larger tree every draw lands on the last leaf; no draws raise ValueError |
| Prioritized.PrioritizedReplayBuffer.SampleProportional | deep_control/replay.py:280-285 | with the total over all filled slots, each draw u picks the filled slot i with prefix(i) <= u * total < prefix(i + 1) |
| Prioritized.PrioritizedReplayBuffer.Gather | deep_control/replay.py:291-293 | for slots drawn among the filled ones: each transition is the storage's at that slot, and each probability is the slot's priority over the total, in (0, 1] |
| Prioritized.PrioritizedReplayBuffer.Sample | deep_control/replay.py:287-293 | `sample` over the corrected draw: the error cases of the draw; otherwise each drawn slot is the filled slot whose prefix range covers u_j * total, its transition is the storage's, and its probability is its priority over the total, in (0, 1] |
| Prioritized.PrioritizedReplayBuffer.SampleAsWritten | deep_control/replay.py:287-293 | `sample` over the draw as written: TypeError without a storage; RecursionError with one filled slot; otherwise each drawn slot is the slot whose prefix range covers u_j * sum(0, len - 1), so below len - 1, with its transition and its probability in (0, 1]; with no filled slot every draw is leaf capacity - 1, and the storage read raises IndexError exactly when the storage has no such slot |
| Prioritized.PrioritizedReplayBuffer.GatherDrawn | deep_control/replay.py:291-293 | the rest of `sample` once the draw as written succeeded: with two or more filled slots it keeps the drawn slots and gathers their transitions and probabilities; with none it reads leaf capacity - 1, raising IndexError exactly when the storage has no such slot |
| Prioritized.PrioritizedReplayBuffer.GatherLastLeaf | deep_control/replay.py:291-293 | with no filled slot every draw is leaf capacity - 1; the storage read raises IndexError exactly when the storage has no such slot, and otherwise every transition is that slot's |

## Left out

- Torch tensors, their shapes, dtypes and stacking: a transition is an abstract
  record `T`, and the five stacks are one array of such records.
- The per-sample shape test in `add`: the model receives the batch of transitions,
  so an unbatched transition is a batch of one.
- Floating point: leaf values, priorities and draws are exact reals, and +infinity
  is a constructor of `Extended`.
- `** alpha` is an uninterpreted parameter `pow`. The model only assumes it is
  positive on positive inputs.
- The importance weights of `sample` are not modelled: `p_min`, `max_weight` and
  the `** (-beta)` powers. `Sample` returns the sampling probabilities they are
  computed from.
- Randomness: the draws of `np.random.random` and `torch.randint` are parameters.
  The model does not state that they are uniform.
- Vectorised numpy: `np.where` masks and fancy indexing are per-element loops in
  index order.
- The iterability guard of `ReplayBufferStorage.__getitem__` and its `ValueError`
  catch: index batches are sequences.
- The training scripts that use the buffer, and their constructor keywords, which
  do not match `ReplayBuffer.__init__`.
- Prioritized.PrioritizedReplayBuffer.Push: it takes one scalar priority, not an
  array of them. It requires the priority to be non-negative. For a fractional
  `alpha`, such as the default 0.6, the power of a negative priority is complex or
  NaN. For a whole-number `alpha` it is a real number, possibly negative, but the
  model's `pow` is only described on positive priorities. No caller in the
  repository passes a priority to `push`.
- Prioritized.PrioritizedReplayBuffer.Push: its contract states only the effect on
  the trees and on the maximum priority. The effect on the storage is stated by
  `Buffers.ReplayBuffer.Push` and is not repeated here.
- Prioritized.PrioritizedReplayBuffer.Sample: it is stated over the corrected
  total of every filled slot, not the total of `sample` as written (see
  "## Findings"). `SampleAsWritten` states the behaviour as written.
- Prioritized.PrioritizedReplayBuffer.SampleAsWritten: consider a buffer with no
  filled slot whose storage does hold slot capacity - 1. There the sampling
  probabilities are 0.0 / 0.0, which is NaN in numpy. The model
  (`GatherLastLeaf`) puts 0.0 there and states nothing about them.
- Prioritized.PrioritizedReplayBuffer.constructor: the source's assert on
  `alpha >= 0` is a precondition here, not an AssertionError result.
- SegmentTrees.SegmentTree.constructor: the capacity assert is a precondition.
  `IsPowerOfTwo` is stated by halving instead of the bit trick.
- SegmentTrees.SegmentTree.Get: the two asserts on the index are a precondition,
  not an AssertionError result.
- SegmentTrees.SegmentTree.Reduce: it requires a non-empty range within the leaves.
  On an empty range `_reduce_helper` recurses until Python's recursion limit. The
  model reports that case as `RecursionError` only where the buffer reaches it, in
  `SampleProportionalAsWritten` and `SampleProportional`.
- SegmentTrees.SegmentTree.Set: it requires a non-empty batch of indices below the
  capacity. An empty batch makes `unique` raise IndexError; the buffer methods that
  reach that case return the error themselves. Leaf indices are not modelled below
  0 or at or above the capacity, and the buffer never passes either:
  - A leaf index in [-capacity, 0) becomes node `idx + capacity` in [0, capacity),
    so the write silently overwrites an internal node or node 0.
  - A leaf index in [-3 * capacity, -capacity) gives a negative node, which numpy
    counts from the end of the node array, overwriting some node.
  - A leaf index below that, or at or above the capacity, raises IndexError.
- Dedup.Unique: it requires a non-empty input. On an empty one the mask is one
  element longer than the array, and numpy raises IndexError.
- Integer widths: indices are unbounded integers. numpy's int64 overflow is not
  reachable at the sizes involved.

## Findings

| source | as written | input that shows it | evidently intended | confidence | as-written member | corrected member |
|---|---|---|---|---|---|---|
| deep_control/replay.py:282 | the total is `self._it_sum.sum(0, len(self._storage) - 1)`, which under the half-open `reduce` sums the leaves [0, len - 1) | any buffer with len >= 2: no draw reaches slot len - 1. Until the ring wraps that is the most recently filled slot; afterwards it is slot size - 1, whatever it holds. With len == 1 the range is empty and `_reduce_helper` never returns | the total of every filled slot, `sum(0, len(self._storage))`, so every filled slot can be drawn in proportion to its priority | not executed | Prioritized.PrioritizedReplayBuffer.SampleProportionalAsWritten | Prioritized.PrioritizedReplayBuffer.SampleProportional |

`Sample` is `sample` over the corrected `SampleProportional`. `SampleAsWritten`
is `sample` over the draw as written.

With the corrected total, one more edge case appears: a buffer of size 1 has sum
and min trees of capacity 1. `find_prefixsum_idx` cannot descend in such a tree,
and its first step reads past the node array. `SumTrees.FindPrefixsumIdx` returns
that IndexError. As written, such a buffer never reaches the descent. Its length
is 0 or 1, so the total is `sum(0, -1)` or `sum(0, 0)`. Both are empty ranges and
raise RecursionError first.
