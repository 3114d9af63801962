/** Value-level view of the GAS queue of pointers (qop): the slot array as a sequence, the next
    write index `head` and the count `used`. The class in qop.dfy is proved against these
    functions; the lemmas here say what the ring arithmetic means. */
module RingSpec {

  datatype Option<T> = None | Some(value: T)

  /** The state of one qop: its slots (as many as its capacity), head and used, as in the C struct. */
  datatype Ring<T> = Ring(slots: seq<T>, head: int, used: int)

  function Capacity<T>(r: Ring<T>): int { |r.slots| }

  /** The queue's invariant: a positive capacity, head a slot index, used a count within capacity. */
  predicate Valid<T>(r: Ring<T>)
  {
    0 < |r.slots| && 0 <= r.head < |r.slots| && 0 <= r.used <= |r.slots|
  }

  /** The slot holding the k-th oldest element still in the queue; k = 0 is the slot qop_pop reads. */
  function SlotOf<T>(r: Ring<T>, k: int): (i: int)
    requires Valid(r) && 0 <= k < r.used
    ensures 0 <= i < |r.slots|
  {
    (r.head + |r.slots| - r.used + k) % |r.slots|
  }

  /** The elements in the queue, oldest first. */
  function View<T>(r: Ring<T>): (s: seq<T>)
    requires Valid(r)
    ensures |s| == r.used
  {
    seq(r.used, k requires 0 <= k < r.used => r.slots[SlotOf(r, k)])
  }

  /** qop_push: store at head, advance head modulo capacity, count one more. */
  function Push<T>(r: Ring<T>, x: T): (r': Ring<T>)
    requires Valid(r) && r.used < Capacity(r)
    ensures Valid(r') && Capacity(r') == Capacity(r) && r'.used == r.used + 1
  {
    Ring(r.slots[r.head := x], (r.head + 1) % |r.slots|, r.used + 1)
  }

  /** qop_pop: read the slot (head + capacity - used) % capacity, count one less; head stays. */
  function Pop<T>(r: Ring<T>): (res: (Ring<T>, T))
    requires Valid(r) && r.used > 0
    ensures Valid(res.0) && Capacity(res.0) == Capacity(r) && res.0.used == r.used - 1
  {
    (Ring(r.slots, r.head, r.used - 1), r.slots[(r.head + |r.slots| - r.used) % |r.slots|])
  }

  /** For 0 <= a < 2n, a mod n is a or a - n. */
  lemma ModWindow(a: int, n: int)
    requires 0 < n && 0 <= a < 2 * n
    ensures a % n == if a < n then a else a - n
  {
  }

  /** Pushing appends: the new element is the youngest and no element already queued moves. */
  lemma {:induction false} PushAppends<T>(r: Ring<T>, x: T)
    requires Valid(r) && r.used < Capacity(r)
    ensures View(Push(r, x)) == View(r) + [x]
  {
    var r', n := Push(r, x), |r.slots|;
    ModWindow(r.head + 1, n);
    forall k | 0 <= k < r'.used
      ensures View(r')[k] == (View(r) + [x])[k]
    {
      var a := r.head + n - r.used + k;
      var a' := r'.head + n - r'.used + k;
      ModWindow(a, n);
      ModWindow(a', n);
      if k < r.used {
        // the slot of an old element is not head, because used < capacity
        assert SlotOf(r', k) == SlotOf(r, k) != r.head;
      } else {
        assert SlotOf(r', k) == r.head;
      }
    }
  }

  /** Popping returns the oldest element and leaves the rest in order. */
  lemma PopTakesOldest<T>(r: Ring<T>)
    requires Valid(r) && r.used > 0
    ensures Pop(r).1 == View(r)[0]
    ensures View(Pop(r).0) == View(r)[1..]
  {
    var r' := Pop(r).0;
    forall k | 0 <= k < r'.used
      ensures View(r')[k] == View(r)[1..][k]
    {
      assert SlotOf(r', k) == SlotOf(r, k + 1);
    }
  }

  /** One call on a qop. */
  datatype Op<T> = PushOp(x: T) | PopOp

  /** Runs ops on a qop. None when a push finds the queue full or a pop finds it empty (the
      source's assert aborts); otherwise the final state and the popped values in order. */
  function Run<T>(r: Ring<T>, ops: seq<Op<T>>): (res: Option<(Ring<T>, seq<T>)>)
    requires Valid(r)
    ensures res.Some? ==> Valid(res.value.0) && Capacity(res.value.0) == Capacity(r)
    decreases |ops|
  {
    if ops == [] then Some((r, []))
    else match ops[0]
      case PushOp(x) =>
        if r.used < Capacity(r) then Run(Push(r, x), ops[1..]) else None
      case PopOp =>
        if r.used > 0 then
          var (r1, y) := Pop(r);
          match Run(r1, ops[1..])
          case None => None
          case Some((r2, out)) => Some((r2, [y] + out))
        else None
  }

  /** Reference: a bounded FIFO held as a plain sequence, oldest first. */
  function Fifo<T>(q: seq<T>, cap: int, ops: seq<Op<T>>): Option<(seq<T>, seq<T>)>
    decreases |ops|
  {
    if ops == [] then Some((q, []))
    else match ops[0]
      case PushOp(x) =>
        if |q| < cap then Fifo(q + [x], cap, ops[1..]) else None
      case PopOp =>
        if |q| > 0 then
          match Fifo(q[1..], cap, ops[1..])
          case None => None
          case Some((q2, out)) => Some((q2, [q[0]] + out))
        else None
  }

  /** The values pushed by ops, in order. */
  function Pushed<T>(ops: seq<Op<T>>): seq<T>
  {
    if ops == [] then []
    else match ops[0]
      case PushOp(x) => [x] + Pushed(ops[1..])
      case PopOp => Pushed(ops[1..])
  }

  /** The number of pops in ops. */
  function Pops<T>(ops: seq<Op<T>>): nat
  {
    if ops == [] then 0
    else match ops[0]
      case PushOp(_) => Pops(ops[1..])
      case PopOp => 1 + Pops(ops[1..])
  }

  /** The ring behaves exactly as the bounded FIFO: it aborts on the same call sequences, and
      otherwise pops the same values and ends holding the same elements. */
  lemma {:induction false} RunIsFifo<T>(r: Ring<T>, ops: seq<Op<T>>)
    requires Valid(r)
    ensures Run(r, ops).Some? <==> Fifo(View(r), Capacity(r), ops).Some?
    ensures Run(r, ops).Some? ==>
              View(Run(r, ops).value.0) == Fifo(View(r), Capacity(r), ops).value.0 &&
              Run(r, ops).value.1 == Fifo(View(r), Capacity(r), ops).value.1
    decreases |ops|
  {
    if ops != [] {
      match ops[0]
      case PushOp(x) =>
        if r.used < Capacity(r) {
          PushAppends(r, x);
          RunIsFifo(Push(r, x), ops[1..]);
        }
      case PopOp =>
        if r.used > 0 {
          PopTakesOldest(r);
          RunIsFifo(Pop(r).0, ops[1..]);
        }
    }
  }

  /** FIFO order: what was popped followed by what remains is what was there followed by what
      was pushed, and the final size is the initial size plus pushes minus pops. */
  lemma {:induction false} FifoOrder<T>(q: seq<T>, cap: int, ops: seq<Op<T>>)
    requires Fifo(q, cap, ops).Some?
    ensures Fifo(q, cap, ops).value.1 + Fifo(q, cap, ops).value.0 == q + Pushed(ops)
    ensures |Fifo(q, cap, ops).value.1| == Pops(ops)
    ensures |Fifo(q, cap, ops).value.0| == |q| + |Pushed(ops)| - Pops(ops)
    decreases |ops|
  {
    if ops != [] {
      match ops[0]
      case PushOp(x) =>
        FifoOrder(q + [x], cap, ops[1..]);
        assert q + [x] + Pushed(ops[1..]) == q + Pushed(ops);
      case PopOp =>
        FifoOrder(q[1..], cap, ops[1..]);
        assert [q[0]] + (q[1..] + Pushed(ops[1..])) == q + Pushed(ops);
    }
  }

  /** Over any legal sequence of pushes and pops the qop is a FIFO, and `used` is the initial
      count plus pushes minus pops. */
  lemma RunFifoOrder<T>(r: Ring<T>, ops: seq<Op<T>>)
    requires Valid(r) && Run(r, ops).Some?
    ensures Run(r, ops).value.1 + View(Run(r, ops).value.0) == View(r) + Pushed(ops)
    ensures Run(r, ops).value.0.used == r.used + |Pushed(ops)| - Pops(ops)
  {
    RunIsFifo(r, ops);
    FifoOrder(View(r), Capacity(r), ops);
  }
}
