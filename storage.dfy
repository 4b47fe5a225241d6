/** `ReplayBufferStorage` of replay.py: a fixed number of transition slots
    filled round-robin. A transition is the record of the five stacks at
    one slot (state, action, reward, next state, done), kept abstract as
    `T`. */
module Storage {
  import opened Results
  import opened Batches

  // ------------------------------------------------------ modular arithmetic

  lemma MulAtLeast(d: int, n: int)
    requires n > 0
    ensures d >= 1 ==> d * n >= n
    ensures d <= -1 ==> d * n <= -n
  {
  }

  lemma ModUnique(x: int, n: int, q: int, r: int)
    requires n > 0 && 0 <= r < n && x == q * n + r
    ensures x % n == r
  {
    var q', r' := x / n, x % n;
    assert (q - q') * n == r' - r;
    MulAtLeast(q - q', n);
  }
  /** h mod n by repeated subtraction: the same as `h % n`, but a form the
      verifier reasons about without non-linear arithmetic. */
  function Wrap(h: nat, n: nat): (r: nat)
    requires n > 0
    ensures r < n
    decreases h
  {
    if h < n then h else Wrap(h - n, n)
  }

  lemma {:induction false} WrapIsMod(h: nat, n: nat)
    requires n > 0
    ensures Wrap(h, n) == h % n
    decreases h
  {
    if h < n {
      ModUnique(h, n, 0, h);
    } else {
      WrapIsMod(h - n, n);
      ModUnique(h, n, (h - n) / n + 1, (h - n) % n);
    }
  }

  lemma {:induction false} WrapShift(a: nat, j: nat, n: nat)
    requires n > 0
    ensures Wrap(Wrap(a, n) + j, n) == Wrap(a + j, n)
    decreases a
  {
    if a >= n {
      WrapShift(a - n, j, n);
    }
  }

  lemma {:induction false} WrapDistinct(h1: nat, h2: nat, n: nat)
    requires n > 0 && h1 < h2 < h1 + n
    ensures Wrap(h1, n) != Wrap(h2, n)
    decreases h1
  {
    if h1 >= n {
      WrapDistinct(h1 - n, h2 - n, n);
    } else if h2 >= n {
      assert Wrap(h2 - n, n) == h2 - n;
    }
  }

  // ------------------------------------------------------------ slot ring

  /** `np.arange(next, next + n) % size`: the slots `add` writes to. */
  function Ring(next: nat, n: nat, size: nat): (r: seq<int>)
    requires size > 0
    ensures |r| == n && InRange(r, size)
    decreases n
  {
    if n == 0 then [] else Ring(next, n - 1, size) + [(next + n - 1) % size]
  }

  /** Entry j of the ring is next + j wrapped at size. */
  lemma {:induction false} RingWraps(next: nat, n: nat, size: nat)
    requires size > 0
    ensures forall j :: 0 <= j < n ==> Ring(next, n, size)[j] == Wrap(next + j, size)
    decreases n
  {
    if n > 0 {
      RingWraps(next, n - 1, size);
      WrapIsMod(next + n - 1, size);
    }
  }

  /** The same in the source's terms: entry j is (next + j) % size. */
  lemma RingIsArange(next: nat, n: nat, size: nat)
    requires size > 0
    ensures forall j :: 0 <= j < n ==> Ring(next, n, size)[j] == (next + j) % size
  {
    RingWraps(next, n, size);
    forall j | 0 <= j < n ensures Ring(next, n, size)[j] == (next + j) % size {
      WrapIsMod(next + j, size);
    }
  }

  /** The slots hold the latest transitions: of the transitions added so
      far, each of the last `size` ones is at slot (its insertion number
      mod size). */
  ghost predicate Window<T>(slots: seq<T>, history: seq<T>, size: nat) {
    forall h {:trigger history[h]} :: 0 <= h < |history| && |history| - size <= h ==>
      0 < size == |slots| && slots[Wrap(h, size)] == history[h]
  }

  /** A transition of the batch is at its ring slot afterwards: no later
      entry of the batch goes to the same slot. */
  lemma RingWriteNew<T>(slots: seq<T>, H: nat, batch: seq<T>, size: nat, j: nat)
    requires 0 < size == |slots| && j < |batch| && |batch| - size <= j
    requires forall j' :: 0 <= j' < |batch| ==> Ring(Wrap(H, size), |batch|, size)[j'] == Wrap(H + j', size)
    ensures WriteAll(slots, Ring(Wrap(H, size), |batch|, size), batch)[Wrap(H + j, size)] == batch[j]
  {
    var R := Ring(Wrap(H, size), |batch|, size);
    forall j' | j < j' < |batch| ensures R[j'] != R[j] {
      WrapDistinct(H + j, H + j', size);
    }
    WriteAllLastWins(slots, R, batch, j);
  }

  /** A transition from before the batch that is still among the latest
      `size` keeps its slot: the batch does not reach it. */
  lemma RingWriteOld<T>(slots: seq<T>, H: nat, batch: seq<T>, size: nat, h: nat)
    requires 0 < size == |slots| && h < H && H + |batch| - size <= h
    requires forall j' :: 0 <= j' < |batch| ==> Ring(Wrap(H, size), |batch|, size)[j'] == Wrap(H + j', size)
    ensures WriteAll(slots, Ring(Wrap(H, size), |batch|, size), batch)[Wrap(h, size)] == slots[Wrap(h, size)]
  {
    var R := Ring(Wrap(H, size), |batch|, size);
    if Wrap(h, size) in R {
      var j :| 0 <= j < |batch| && R[j] == Wrap(h, size);
      WrapDistinct(h, H + j, size);
      assert false;
    }
    WriteAllUntouched(slots, R, batch, Wrap(h, size));
  }

  /** The ring after the history starts at its count mod size. */
  lemma RingShifted(H: nat, n: nat, size: nat)
    requires size > 0
    ensures forall j :: 0 <= j < n ==> Ring(Wrap(H, size), n, size)[j] == Wrap(H + j, size)
  {
    RingWraps(Wrap(H, size), n, size);
    forall j | 0 <= j < n ensures Ring(Wrap(H, size), n, size)[j] == Wrap(H + j, size) {
      WrapShift(H, j, size);
    }
  }

  /** One of the latest `size` transitions after a write of `batch`. */
  lemma RingWriteAt<T>(slots: seq<T>, history: seq<T>, batch: seq<T>, size: nat, h: nat)
    requires 0 < size == |slots| && Window(slots, history, size)
    requires forall j :: 0 <= j < |batch| ==> Ring(Wrap(|history|, size), |batch|, size)[j] == Wrap(|history| + j, size)
    requires h < |history| + |batch| && |history| + |batch| - size <= h
    ensures WriteAll(slots, Ring(Wrap(|history|, size), |batch|, size), batch)[Wrap(h, size)] == (history + batch)[h]
  {
    var H := |history|;
    if h >= H {
      var j := h - H;
      RingWriteNew(slots, H, batch, size, j);
      assert H + j == h && (history + batch)[h] == batch[j];
    } else {
      RingWriteOld(slots, H, batch, size, h);
      assert (history + batch)[h] == history[h] == slots[Wrap(h, size)];
    }
  }

  /** Writing a batch at the ring slots after the history keeps the latest
      transitions in their slots. */
  lemma RingWrite<T>(slots: seq<T>, history: seq<T>, batch: seq<T>, size: nat)
    requires 0 < size == |slots| && Window(slots, history, size)
    ensures Window(WriteAll(slots, Ring(Wrap(|history|, size), |batch|, size), batch), history + batch, size)
  {
    RingShifted(|history|, |batch|, size);
    var slots' := WriteAll(slots, Ring(Wrap(|history|, size), |batch|, size), batch);
    forall h | 0 <= h < |history| + |batch| && |history| + |batch| - size <= h
      ensures slots'[Wrap(h, size)] == (history + batch)[h]
    {
      RingWriteAt(slots, history, batch, size, h);
    }
  }

  /** The counters `add` keeps, in terms of the number of transitions added:
      the next slot is the count mod size, the filled length the count capped
      at size; every slot written lies below the new filled length. */
  lemma Advance(H: nat, n: nat, size: nat, next: nat, filled: int)
    requires size > 0 && next == Wrap(H, size) && filled == (if H < size then H else size)
    ensures Wrap(next + n, size) == Wrap(H + n, size)
    ensures var m := if next + n > filled then next + n else filled;
      (if m < size then m else size) == (if H + n < size then H + n else size)
    ensures forall j :: 0 <= j < n ==> Ring(next, n, size)[j] < (if H + n < size then H + n else size)
    ensures forall i :: filled <= i < (if H + n < size then H + n else size) ==> i in Ring(next, n, size)
  {
    WrapShift(H, n, size);
    RingWraps(next, n, size);
    forall i | filled <= i < (if H + n < size then H + n else size) ensures i in Ring(next, n, size) {
      assert Ring(next, n, size)[i - H] == i;
    }
  }

  /** The bookkeeping of `add` in terms of what was added: the next slot
      is the count mod size, the filled length the count capped at size,
      and the slots hold the latest transitions. */
  ghost predicate RingState<T>(slots: seq<T>, history: seq<T>, size: nat, next: nat, filled: nat) {
    && |slots| == size
    && (size == 0 ==> |history| == 0 && next == 0)
    && (size > 0 ==> next == Wrap(|history|, size))
    && filled == (if |history| < size then |history| else size)
    && Window(slots, history, size)
  }

  /** The filled length `add` computes: `min(max(next + n, filled), size)`. */
  function FilledAfterAdd(next: nat, n: nat, filled: nat, size: nat): nat {
    var m := if next + n > filled then next + n else filled;
    if m < size then m else size
  }

  /** The filled length after `n` more transitions is the new count capped
      at size. */
  lemma FilledAfterAddCapped(H: nat, n: nat, size: nat, next: nat, filled: nat)
    requires size > 0 && next == Wrap(H, size) && filled == (if H < size then H else size)
    ensures FilledAfterAdd(next, n, filled, size) == if H + n < size then H + n else size
  {
  }

  /** `add` keeps `RingState`, and the slots it returns are filled. */
  lemma AddStep<T>(slots: seq<T>, history: seq<T>, batch: seq<T>, size: nat, next: nat, filled: nat)
    requires size > 0 && RingState(slots, history, size, next, filled)
    ensures RingState(WriteAll(slots, Ring(next, |batch|, size), batch), history + batch, size,
                      Wrap(next + |batch|, size), FilledAfterAdd(next, |batch|, filled, size))
    ensures filled <= FilledAfterAdd(next, |batch|, filled, size)
    ensures forall j :: 0 <= j < |batch| ==> Ring(next, |batch|, size)[j] < FilledAfterAdd(next, |batch|, filled, size)
    ensures forall i :: filled <= i < FilledAfterAdd(next, |batch|, filled, size) ==> i in Ring(next, |batch|, size)
  {
    var H, n := |history|, |batch|;
    assert |history + batch| == H + n;
    RingWrite(slots, history, batch, size);
    WrapShift(H, n, size);
    FilledAfterAddCapped(H, n, size, next, filled);
    Advance(H, n, size, next, filled);
  }

  /** `indices` read from `slots` as tensor indices: a negative one counts
      from the end. */
  predicate SlotIndices(indices: seq<int>, size: nat) {
    forall j :: 0 <= j < |indices| ==> -(size as int) <= indices[j] < size
  }

  function ReadSlots<T>(slots: seq<T>, indices: seq<int>): (r: seq<T>)
    requires SlotIndices(indices, |slots|)
    ensures |r| == |indices|
    ensures forall j :: 0 <= j < |indices| ==>
      r[j] == slots[if indices[j] < 0 then indices[j] + |slots| else indices[j]]
    decreases |indices|
  {
    if |indices| == 0 then []
    else
      var i := indices[0];
      [slots[if i < 0 then i + |slots| else i]] + ReadSlots(slots, indices[1..])
  }

  class ReplayBufferStorage<T> {
    const size: nat
    const slots: array<T>
    var nextIdx: nat
    var maxFilled: nat
    /** Every transition added so far, in order. */
    ghost var history: seq<T>

    /** The slots and the two counters are `RingState` of the history. */
    ghost predicate Valid()
      reads this, slots
    {
      RingState(slots[..], history, size, nextIdx, maxFilled)
    }

    /** `__init__`: `size` zero transitions, nothing added. */
    constructor (size: nat, blank: T)
      ensures Valid() && fresh(slots)
      ensures this.size == size && nextIdx == 0 && maxFilled == 0 && history == []
      ensures forall k :: 0 <= k < size ==> slots[k] == blank
    {
      this.size := size;
      slots := new T[size](_ => blank);
      nextIdx := 0;
      maxFilled := 0;
      history := [];
    }

    /** `__len__`: the number of transitions added so far, or size once
        the ring has wrapped. */
    function Len(): (r: nat)
      reads this, slots
      requires Valid()
      ensures r <= size
      ensures r == if |history| < size then |history| else size
    {
      maxFilled
    }

    /** `add`: stores a batch of n transitions at slots next, next + 1, ...
        wrapping at size (a batch longer than the ring overwrites its own
        first entries), returns those slots, and advances the next slot and
        the filled length. With no slots at all the write or the final
        `% size` fails, and nothing changes. */
    method Add(batch: seq<T>) returns (r: Result<seq<int>>)
      requires Valid()
      modifies this, slots
      ensures Valid() && history == (if size == 0 then old(history) else old(history) + batch)
      ensures size == 0 ==> r == (if |batch| == 0 then Err(ZeroDivisionError) else Err(IndexError))
      ensures size == 0 ==> unchanged(this) && unchanged(slots)
      ensures size > 0 ==> r == Ok(Ring(old(nextIdx), |batch|, size))
      ensures size > 0 ==> slots[..] == WriteAll(old(slots[..]), r.value, batch)
      ensures size > 0 ==> nextIdx == (old(nextIdx) + |batch|) % size
      ensures size > 0 ==> maxFilled == FilledAfterAdd(old(nextIdx), |batch|, old(maxFilled), size)
      ensures old(maxFilled) <= maxFilled <= size
      ensures r.Ok? ==> forall j :: 0 <= j < |r.value| ==> 0 <= r.value[j] < maxFilled
      ensures r.Ok? ==> forall i :: old(maxFilled) <= i < maxFilled ==> i in r.value
    {
      if size == 0 {
        return if |batch| == 0 then Err(ZeroDivisionError) else Err(IndexError);
      }
      var R := Ring(nextIdx, |batch|, size);
      AddStep(slots[..], history, batch, size, nextIdx, maxFilled);
      WrapIsMod(nextIdx + |batch|, size);
      WriteBatch(R, batch);
      maxFilled := FilledAfterAdd(nextIdx, |batch|, maxFilled, size);
      nextIdx := (nextIdx + |batch|) % size;
      history := history + batch;
      return Ok(R);
    }

    /** The five fancy-index assignments `stack[R] = ...` of `add`, as one
        write per slot from left to right. */
    method WriteBatch(R: seq<int>, batch: seq<T>)
      requires |R| == |batch| && InRange(R, slots.Length)
      modifies slots
      ensures slots[..] == WriteAll(old(slots[..]), R, batch)
    {
      ghost var before := slots[..];
      var j := 0;
      while j < |batch|
        invariant 0 <= j <= |batch|
        invariant slots[..] == WriteAll(before, R[..j], batch[..j])
      {
        slots[R[j]] := batch[j];
        assert R[..j + 1][..j] == R[..j] && batch[..j + 1][..j] == batch[..j];
        j := j + 1;
      }
      assert R[..|batch|] == R && batch[..|batch|] == batch;
    }

    /** `__getitem__`: the transitions at the given slots, each an index into
        the stacks, so a negative one counts from the end; any other index
        outside them raises. */
    function Get(indices: seq<int>): (r: Result<seq<T>>)
      reads this, slots
      requires Valid()
      ensures r.Ok? <==> SlotIndices(indices, size)
      ensures !SlotIndices(indices, size) ==> r == Err(IndexError)
      ensures r.Ok? ==> r.value == ReadSlots(slots[..], indices)
    {
      if SlotIndices(indices, size) then Ok(ReadSlots(slots[..], indices)) else Err(IndexError)
    }

    /** `get_all_transitions`: the first `len` slots, in slot order. */
    function AllTransitions(): (r: seq<T>)
      reads this, slots
      requires Valid()
      ensures |r| == Len()
    {
      slots[..maxFilled]
    }

    /** Reading back: each of the latest `size` transitions added is at
        slot (its insertion number mod size), below the filled length. */
    lemma GetRecent(h: nat)
      requires Valid() && h < |history| && |history| - size <= h
      ensures 0 <= h % size < Len()
      ensures Get([h % size]) == Ok([history[h]])
    {
      WrapIsMod(h, size);
      assert slots[..][h % size] == history[h];
      assert ReadSlots(slots[..], [h % size]) == [history[h]];
    }

    /** Until the ring wraps, `get_all_transitions` returns every transition
        added, in the order they were added. */
    lemma AllBeforeWrap()
      requires Valid() && |history| <= size
      ensures AllTransitions() == history
    {
      forall h | 0 <= h < |history| ensures AllTransitions()[h] == history[h] {
        assert slots[..][Wrap(h, size)] == history[h];
      }
    }
  }

  /** Three slots and five single adds: the slots returned wrap around to
      0, 1, 2, 0, 1 and the length stays at 3. */
  method WrapExample() returns (returned: seq<seq<int>>, len: nat)
    ensures returned == [[0], [1], [2], [0], [1]] && len == 3
  {
    var st := new ReplayBufferStorage<int>(3, 0);
    var r0 := st.Add([0]);
    var r1 := st.Add([1]);
    var r2 := st.Add([2]);
    var r3 := st.Add([3]);
    var r4 := st.Add([4]);
    returned := [r0.value, r1.value, r2.value, r3.value, r4.value];
    len := st.Len();
  }
}
