/** `ReplayBuffer` of replay.py: a storage created on the first push, and
    uniform sampling from it. */
module Buffers {
  import opened Results
  import opened Batches
  import opened Storage

  class ReplayBuffer<T> {
    const maxSize: nat
    /** The all-zero transition the stacks of a new storage hold. */
    const blank: T
    var storage: ReplayBufferStorage?<T>

    ghost predicate Valid()
      reads this, storage, if storage == null then {} else {storage.slots}
    {
      storage != null ==> storage.Valid() && storage.size == maxSize
    }

    /** `__init__`: no storage yet. */
    constructor (size: nat, blank: T)
      ensures Valid() && maxSize == size && this.blank == blank && storage == null
    {
      maxSize := size;
      this.blank := blank;
      storage := null;
    }

    /** The slot the next push starts at. */
    ghost function NextSlot(): nat
      reads this, storage
    {
      if storage == null then 0 else storage.nextIdx
    }

    /** The number of filled slots, 0 without a storage. */
    ghost function Filled(): nat
      reads this, storage
    {
      if storage == null then 0 else storage.maxFilled
    }

    /** `__len__`: `len(None)` raises without a storage. */
    function Len(): (r: Result<nat>)
      reads this, storage, if storage == null then {} else {storage.slots}
      requires Valid()
      ensures storage == null <==> r == Err(TypeError)
      ensures r.Ok? ==> r.value == Filled() <= maxSize
    {
      if storage == null then Err(TypeError) else Ok(storage.Len())
    }

    /** `push`: creates the storage when there is none, or when it is empty
        (`not self._storage` asks `__len__`), then adds the batch to it. */
    method Push(batch: seq<T>) returns (r: Result<seq<int>>)
      requires Valid()
      modifies this, storage, if storage == null then {} else {storage.slots}
      ensures Valid() && storage != null
      ensures old(storage) != null && old(storage.maxFilled) > 0 ==> storage == old(storage)
      ensures old(storage) == null || old(storage.maxFilled) == 0 ==> fresh(storage) && fresh(storage.slots)
      ensures maxSize == 0 ==> r == Err(if |batch| == 0 then ZeroDivisionError else IndexError)
      ensures maxSize > 0 ==> r == Ok(Ring(old(NextSlot()), |batch|, maxSize))
      ensures maxSize > 0 ==> storage.history == (if old(Filled()) == 0 then [] else old(storage.history)) + batch
      ensures old(Filled()) <= Filled()
      ensures r.Ok? ==> forall j :: 0 <= j < |r.value| ==> 0 <= r.value[j] < Filled()
      ensures r.Ok? ==> forall i :: old(Filled()) <= i < Filled() ==> i in r.value
    {
      if storage == null || storage.maxFilled == 0 {
        storage := new ReplayBufferStorage(maxSize, blank);
      }
      r := storage.Add(batch);
    }

    /** `sample(batch_size)`: the transitions at `draws`, the batch of
        indices `torch.randint` draws below the length; it raises without a
        storage (`len(None)`) and on an empty one (an empty range). Each
        sampled transition is one of `get_all_transitions`. */
    function Sample(draws: seq<int>): (r: Result<seq<T>>)
      reads this, storage, if storage == null then {} else {storage.slots}
      requires Valid()
      requires storage != null && storage.maxFilled > 0 ==> forall j :: 0 <= j < |draws| ==> 0 <= draws[j] < storage.maxFilled
      ensures storage == null ==> r == Err(TypeError)
      ensures storage != null && storage.maxFilled == 0 ==> r == Err(RuntimeError)
      ensures storage != null && storage.maxFilled > 0 ==>
        && r.Ok? && |r.value| == |draws|
        && forall j :: 0 <= j < |draws| ==> r.value[j] == storage.AllTransitions()[draws[j]]
    {
      if storage == null then Err(TypeError)
      else if storage.Len() == 0 then Err(RuntimeError)
      else storage.Get(draws)
    }

    /** `get_all_transitions`: an attribute lookup on the missing storage
        raises. */
    function AllTransitions(): (r: Result<seq<T>>)
      reads this, storage, if storage == null then {} else {storage.slots}
      requires Valid()
      ensures storage == null <==> r == Err(AttributeError)
      ensures r.Ok? ==> r.value == storage.AllTransitions()
    {
      if storage == null then Err(AttributeError) else Ok(storage.AllTransitions())
    }
  }
}
