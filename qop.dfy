/** The GAS queue of pointers: a fixed array of slots written in place, with a head index and a
    used count. Each method is proved against the value-level functions of RingSpec. */
module QueueOfPointers {
  import opened RingSpec

  class Qop<T(0)> {
    const capacity: int
    const pointers: array<T>
    var used: int
    var head: int
    /** The pointers in the queue, oldest first. */
    ghost var Contents: seq<T>

    ghost predicate Valid()
      reads this, pointers
    {
      pointers.Length == capacity && 0 < capacity &&
      0 <= head < capacity && 0 <= used <= capacity && |Contents| == used &&
      forall k | 0 <= k < used :: Contents[k] == pointers[(head + capacity - used + k) % capacity]
    }

    /** The ghost contents are the ring's view of the slot array. */
    lemma ContentsIsView()
      requires Valid()
      ensures Contents == View(State())
    {
      var r := State();
      forall k | 0 <= k < used
        ensures Contents[k] == View(r)[k]
      {
        assert View(r)[k] == r.slots[SlotOf(r, k)];
        assert SlotOf(r, k) == (head + capacity - used + k) % capacity;
      }
    }

    /** The fields as a RingSpec value. */
    function State(): (r: Ring<T>)
      reads this, pointers
      ensures pointers.Length == capacity && 0 < capacity &&
              0 <= head < capacity && 0 <= used <= capacity ==>
                RingSpec.Valid(r) && Capacity(r) == capacity
    {
      Ring(pointers[..], head, used)
    }

    /** qop_new: a queue of the given positive capacity, empty, writing first at slot 0. */
    constructor (capacity: int)
      requires capacity > 0
      ensures Valid() && fresh(pointers)
      ensures this.capacity == capacity && head == 0 && used == 0
      ensures Contents == []
    {
      this.capacity := capacity;
      pointers := new T[capacity];
      used := 0;
      head := 0;
      Contents := [];
    }

    /** qop_push: the caller guarantees a free slot; the pointer becomes the youngest element. */
    method Push(ptr: T)
      requires Valid() && used < capacity
      modifies this, pointers
      ensures Valid()
      ensures State() == RingSpec.Push(old(State()), ptr)
      ensures Contents == old(Contents) + [ptr]
    {
      ContentsIsView();
      PushAppends(State(), ptr);
      pointers[head] := ptr;
      head := (head + 1) % capacity;
      used := used + 1;
      Contents := Contents + [ptr];
      forall k | 0 <= k < used
        ensures Contents[k] == pointers[(head + capacity - used + k) % capacity]
      {
        assert Contents[k] == View(State())[k];
      }
    }

    /** qop_pop: the caller guarantees an element; returns the oldest, head does not move. */
    method Pop() returns (res: T)
      requires Valid() && used > 0
      modifies this
      ensures Valid()
      ensures (State(), res) == RingSpec.Pop(old(State()))
      ensures res == old(Contents)[0] && Contents == old(Contents)[1..]
    {
      ContentsIsView();
      PopTakesOldest(State());
      res := pointers[(head + capacity - used) % capacity];
      used := used - 1;
      Contents := Contents[1..];
      forall k | 0 <= k < used
        ensures Contents[k] == pointers[(head + capacity - used + k) % capacity]
      {
        assert Contents[k] == View(State())[k];
      }
    }

    /** qop_available: free slots; zero exactly when the queue is full. */
    function Available(): (n: int)
      reads this, pointers
      requires Valid()
      ensures n == capacity - |Contents|
      ensures n == 0 <==> |Contents| == capacity
    {
      capacity - used
    }

    /** qop_used: the number of elements held; zero exactly when the queue is empty. */
    function Used(): (n: int)
      reads this, pointers
      requires Valid()
      ensures n == |Contents|
      ensures n == 0 <==> Contents == []
    {
      used
    }
  }
}
