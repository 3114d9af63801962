/** The GAS engine (fio's Generic ASync framework): a submission queue, a completion ("done")
    queue, a scratch array for the last getevents batch, and the thread pool's pending work,
    all modelled sequentially. The pool running perform_work is the environment step
    PerformWork, which may pick any dispatched request, so completions come in any order. */
module Gas {
  import opened QueueOfPointers

  /** fio's io_u, reduced to what the engine touches: the error field fio_gas_event clears,
      and the link to the request record that fio_gas_prep sets up. */
  class IoU {
    var error: int
    var gasIo: GasIo?

    constructor ()
      ensures gasIo == null
    {
      gasIo := null;
    }
  }

  /** One in-flight GAS request, bound to its io_u for life. */
  class GasIo {
    const ioU: IoU

    constructor (ioU: IoU)
      ensures this.ioU == ioU
    {
      this.ioU := ioU;
    }
  }

  /** fio's FIO_Q_QUEUED and FIO_Q_BUSY, the two answers of fio_gas_queue. */
  datatype QueueStatus = Queued | Busy

  /** Every io_u given is there and has its request record (fio_gas_prep ran for it). */
  ghost predicate Linked(us: seq<IoU?>)
    reads (set u: IoU | u in us)`gasIo
  {
    forall i | 0 <= i < |us| :: us[i] != null && us[i].gasIo != null
  }

  /** The request records commit hands to the pool for the given io_us, in order. */
  function Dispatched(us: seq<IoU?>): (gs: seq<GasIo>)
    requires Linked(us)
    reads (set u: IoU | u in us)`gasIo
    ensures |gs| == |us|
    ensures forall i | 0 <= i < |us| :: gs[i] == us[i].gasIo
  {
    if us == [] then [] else [us[0].gasIo] + Dispatched(us[1..])
  }

  /** How many done entries one pass of the getevents loop pops: all there are, cut down so
      that events never passes max. */
  function Take(available: int, events: int, max: int): (take: int)
    requires 0 <= available && 0 <= events <= max
    ensures 0 <= take <= available && events + take <= max
    ensures take == available || events + take == max
  {
    if events + available > max then max - events else available
  }

  class Engine {
    const depth: int
    /** io_us ready to be committed */
    const queued: Qop<IoU?>
    /** requests whose work is finished */
    const done: Qop<GasIo?>
    /** the batch collected by the last getevents */
    const lastDone: array<GasIo?>
    var lastDoneUsed: int
    /** the thread pool's pending work: dispatched, perform_work not yet finished */
    var pool: seq<GasIo>

    ghost predicate Valid()
      reads this, queued, queued.pointers, done, done.pointers, lastDone
    {
      0 < depth &&
      queued.Valid() && queued.capacity == depth &&
      done.Valid() && done.capacity == depth &&
      lastDone.Length == depth && lastDone != done.pointers &&
      0 <= lastDoneUsed <= depth &&
      null !in queued.Contents && null !in done.Contents &&
      forall i | 0 <= i < lastDoneUsed :: lastDone[i] != null
    }

    /** fio_gas_init: both queues get capacity depth, the scratch array depth slots, and
        nothing is in flight. */
    constructor (depth: int)
      requires depth > 0
      ensures Valid()
      ensures fresh(queued) && fresh(queued.pointers) && fresh(done) && fresh(done.pointers)
      ensures fresh(lastDone)
      ensures this.depth == depth
      ensures queued.Contents == [] && done.Contents == [] && pool == [] && lastDoneUsed == 0
    {
      this.depth := depth;
      queued := new Qop(depth);
      done := new Qop(depth);
      lastDone := new GasIo?[depth];
      lastDoneUsed := 0;
      pool := [];
    }

    /** fio_gas_queue: BUSY with nothing changed when the submission queue is full, otherwise
        the io_u joins the submission queue and the answer is QUEUED. The request record
        checks apply only on the second path. */
    method Queue(u: IoU) returns (status: QueueStatus)
      requires Valid()
      requires |queued.Contents| < depth ==> u.gasIo != null && u.gasIo.ioU == u
      modifies queued, queued.pointers
      ensures Valid()
      ensures status == Busy <==> old(|queued.Contents|) == depth
      ensures status == Busy ==> unchanged(queued, queued.pointers)
      ensures status == Queued ==> queued.Contents == old(queued.Contents) + [u]
    {
      if queued.Available() == 0 {
        return Busy;
      }
      queued.Push(u);
      status := Queued;
    }

    /** fio_gas_commit: drains the submission queue oldest first, handing each request
        record to the pool exactly once. */
    method Commit()
      requires Valid()
      requires Linked(queued.Contents)
      modifies this, queued
      ensures Valid()
      ensures queued.Contents == []
      ensures pool == old(pool) + Dispatched(old(queued.Contents))
      ensures unchanged(done, done.pointers, lastDone) && lastDoneUsed == old(lastDoneUsed)
    {
      ghost var pending := queued.Contents;
      ghost var records := Dispatched(pending);
      ghost var n := 0;
      while queued.Used() != 0
        invariant Valid()
        invariant 0 <= n <= |pending| && |records| == |pending|
        invariant forall i | 0 <= i < |pending| :: pending[i] != null && records[i] == pending[i].gasIo
        invariant queued.Contents == pending[n..]
        invariant pool == old(pool) + records[..n]
        invariant unchanged(done, done.pointers, lastDone) && lastDoneUsed == old(lastDoneUsed)
        decreases queued.used
      {
        DispatchOldest();
        n := n + 1;
        assert records[..n] == records[..n - 1] + [records[n - 1]];
      }
      assert records[..n] == records;
    }

    /** One pass of the commit loop: pops the oldest submitted io_u and hands its request
        record to the pool. */
    method DispatchOldest()
      requires Valid() && queued.Contents != [] && Linked(queued.Contents)
      modifies this, queued
      ensures Valid()
      ensures queued.Contents == old(queued.Contents)[1..]
      ensures old(queued.Contents)[0] != null && pool == old(pool) + [old(queued.Contents)[0].gasIo]
      ensures unchanged(done, done.pointers, lastDone) && lastDoneUsed == old(lastDoneUsed)
    {
      var u := queued.Pop();
      pool := pool + [u.gasIo];
    }

    /** perform_work on a pool thread for pool[k]: the request joins the done queue, whose
        push needs a free slot. */
    method PerformWork(k: int)
      requires Valid() && 0 <= k < |pool|
      requires |done.Contents| < depth
      modifies this, done, done.pointers
      ensures Valid()
      ensures done.Contents == old(done.Contents) + [old(pool[k])]
      ensures pool == old(pool[..k] + pool[k + 1..])
      ensures lastDoneUsed == old(lastDoneUsed)
    {
      done.Push(pool[k]);
      pool := pool[..k] + pool[k + 1..];
    }

    /** One locked pass of fio_gas_getevents: pops Take(...) done entries into the scratch
        array after the events already collected, and records the new count. */
    method Collect(max: int, events: int) returns (events': int)
      requires Valid() && 0 <= events <= max <= depth
      requires forall i | 0 <= i < events :: lastDone[i] != null
      modifies this, done, lastDone
      ensures Valid()
      ensures events' == events + Take(old(|done.Contents|), events, max)
      ensures lastDoneUsed == events'
      ensures lastDone[..events'] == old(lastDone[..events]) + old(done.Contents)[..events' - events]
      ensures done.Contents == old(done.Contents)[events' - events..]
      ensures pool == old(pool)
    {
      var take := done.used;
      if events + take > max {
        take := max - events;
      }
      ghost var ready, prefix, total := done.Contents, lastDone[..events], take;
      events' := events;
      while take != 0
        invariant done.Valid() && null !in done.Contents
        invariant 0 <= take && events <= events' && events' + take == events + total
        invariant done.Contents == ready[events' - events..]
        invariant lastDone[..events'] == prefix + ready[..events' - events]
        invariant forall i | 0 <= i < events' :: lastDone[i] != null
        invariant lastDoneUsed == old(lastDoneUsed) && pool == old(pool)
      {
        ghost var j := events' - events;
        assert ready[..j + 1] == ready[..j] + [ready[j]];
        PopIntoBatch(events');
        events' := events' + 1;
        take := take - 1;
      }
      lastDoneUsed := events';
    }

    /** One step of the inner getevents loop: the oldest done entry goes to slot `events` of
        the scratch array. */
    method PopIntoBatch(events: int)
      requires done.Valid() && done.capacity == depth && null !in done.Contents && done.Contents != []
      requires lastDone.Length == depth && lastDone != done.pointers && 0 <= events < depth
      requires forall i | 0 <= i < events :: lastDone[i] != null
      modifies done, lastDone
      ensures done.Valid() && null !in done.Contents
      ensures done.Contents == old(done.Contents)[1..]
      ensures lastDone[..events + 1] == old(lastDone[..events]) + [old(done.Contents)[0]]
      ensures forall i | 0 <= i < events + 1 :: lastDone[i] != null
    {
      var g := done.Pop();
      lastDone[events] := g;
      assert lastDone[..events + 1] == lastDone[..events] + [g];
    }

    /** fio_gas_getevents: collects until at least min entries are in the scratch array, never
        more than max. Between passes the pool finishes some dispatched request (any of them);
        `arrived` lists those completions in finish order. The precondition that enough work
        is outstanding is what lets the loop end: otherwise the source polls forever. */
    method GetEvents(min: int, max: int) returns (events: int, ghost arrived: seq<GasIo>)
      requires Valid() && 0 < min <= max <= depth
      requires min <= |done.Contents| + |pool|
      modifies this, done, done.pointers, lastDone
      ensures Valid()
      ensures min <= events <= max && lastDoneUsed == events
      ensures lastDone[..events] + done.Contents == old(done.Contents) + arrived
      ensures multiset(pool) + multiset(arrived) == multiset(old(pool))
      ensures events < max ==> done.Contents == []
      ensures old(|done.Contents|) >= min ==>
                arrived == [] && pool == old(pool) &&
                events == (if old(|done.Contents|) < max then old(|done.Contents|) else max)
    {
      ghost var ready := done.Contents;
      arrived := [];
      events := Collect(max, 0);
      if events < min {
        assert lastDone[..events] == lastDone[..events] + done.Contents == ready;
        events, arrived := KeepPolling(min, max, events);
      }
    }

    /** The rest of the getevents do-while after a first pass that found fewer than min
        entries: sleep, collect, and repeat until min is reached. */
    method KeepPolling(min: int, max: int, events0: int) returns (events: int, ghost arrived: seq<GasIo>)
      requires Valid() && 0 <= events0 < min <= max <= depth && lastDoneUsed == events0
      requires done.Contents == [] && events0 + |pool| >= min
      modifies this, done, done.pointers, lastDone
      ensures Valid()
      ensures min <= events <= max && lastDoneUsed == events
      ensures lastDone[..events] + done.Contents == old(lastDone[..events0]) + arrived
      ensures multiset(pool) + multiset(arrived) == multiset(old(pool))
      ensures events < max ==> done.Contents == []
    {
      ghost var prefix := lastDone[..events0];
      events, arrived := events0, [];
      while events < min
        invariant Valid() && 0 <= events <= max && lastDoneUsed == events
        invariant lastDone[..events] + done.Contents == prefix + arrived
        invariant multiset(pool) + multiset(arrived) == multiset(old(pool))
        invariant events + |done.Contents| + |pool| >= min
        invariant events < max ==> done.Contents == []
        decreases |pool|
      {
        ghost var gs, before := *, lastDone[..events];
        assert before == before + done.Contents == prefix + arrived;
        events, gs := WaitRound(max, events);
        assert lastDone[..events] + done.Contents == prefix + (arrived + gs);
        assert multiset(arrived + gs) == multiset(arrived) + multiset(gs);
        arrived := arrived + gs;
      }
    }

    /** A later pass of fio_gas_getevents after a pass that left the done queue empty: the
        pool finishes some requests during the sleep (`gs`, in finish order), and the locked
        pass collects as many of them as max allows. */
    method WaitRound(max: int, events: int) returns (events': int, ghost gs: seq<GasIo>)
      requires Valid() && 0 <= events < max <= depth && lastDoneUsed == events
      requires pool != [] && done.Contents == []
      modifies this, done, done.pointers, lastDone
      ensures Valid() && lastDoneUsed == events' && events < events' <= max
      ensures lastDone[..events'] + done.Contents == old(lastDone[..events]) + gs
      ensures events' < max ==> done.Contents == []
      ensures multiset(pool) + multiset(gs) == multiset(old(pool)) && |pool| == old(|pool|) - |gs|
      ensures events' + |done.Contents| == events + |gs| && gs != []
    {
      gs := AwaitCompletion();
      events' := Collect(max, events);
      ghost var t := events' - events;
      assert gs[..t] + gs[t..] == gs;
    }

    /** The sleep between passes of fio_gas_getevents. Meanwhile the pool finishes at least
        one of the dispatched requests, in any order, and perform_work pushes each on the
        done queue, which was empty; no more can finish than it holds. */
    method AwaitCompletion() returns (ghost gs: seq<GasIo>)
      requires Valid() && pool != [] && done.Contents == []
      modifies this, done, done.pointers
      ensures Valid()
      ensures gs != [] && done.Contents == gs
      ensures multiset(pool) + multiset(gs) == multiset(old(pool)) && |pool| == old(|pool|) - |gs|
      ensures lastDoneUsed == old(lastDoneUsed)
    {
      var count :| 1 <= count <= |pool| && count <= depth;
      gs := [];
      var finished := 0;
      while finished < count
        invariant Valid() && finished == |gs| <= count && done.Contents == gs
        invariant multiset(pool) + multiset(gs) == multiset(old(pool)) && |pool| == old(|pool|) - |gs|
        invariant lastDoneUsed == old(lastDoneUsed)
      {
        var k :| 0 <= k < |pool|;
        ghost var g := pool[k];
        assert pool == pool[..k] + [g] + pool[k + 1..];
        PerformWork(k);
        gs := gs + [g];
        finished := finished + 1;
      }
    }

    /** fio_gas_event: the io_u of the event-th entry of the last batch, with its error reset
        to 0. The source compares the int index with an unsigned count, so a negative index
        fails its assert as well. */
    method Event(event: int) returns (u: IoU)
      requires Valid() && 0 <= event < lastDoneUsed
      modifies lastDone[event].ioU`error
      ensures Valid()
      ensures u == lastDone[event].ioU && u.error == 0
    {
      u := lastDone[event].ioU;
      u.error := 0;
    }
  }

  /** An io_u with its request record bound to it, as fio_gas_prep leaves it. */
  method NewRequest() returns (u: IoU)
    ensures fresh(u) && u.gasIo != null && fresh(u.gasIo) && u.gasIo.ioU == u
  {
    u := new IoU();
    var g := new GasIo(u);
    u.gasIo := g;
  }

  /** Backpressure: starting from an empty submission queue, the first depth submissions
      are QUEUED and the next one, with no commit in between, is BUSY. */
  method SubmitUntilBusy(e: Engine, us: seq<IoU>) returns (statuses: seq<QueueStatus>)
    requires e.Valid() && e.queued.Contents == [] && |us| == e.depth + 1
    requires forall i | 0 <= i < e.depth :: us[i].gasIo != null && us[i].gasIo.ioU == us[i]
    modifies e.queued, e.queued.pointers
    ensures e.Valid()
    ensures |statuses| == |us| && statuses[e.depth] == Busy
    ensures forall i | 0 <= i < e.depth :: statuses[i] == Queued
    ensures e.queued.Contents == us[..e.depth]
  {
    statuses := [];
    var i := 0;
    while i < |us|
      invariant 0 <= i <= |us| && e.Valid() && |statuses| == i
      invariant e.queued.Contents == us[..if i <= e.depth then i else e.depth]
      invariant forall j | 0 <= j < i && j < e.depth :: statuses[j] == Queued
      invariant i > e.depth ==> statuses[e.depth] == Busy
    {
      var s := e.Queue(us[i]);
      if i < e.depth {
        assert us[..i + 1] == us[..i] + [us[i]];
      }
      statuses := statuses + [s];
      i := i + 1;
    }
  }

  /** depth = 1: after A is accepted, B is refused with BUSY before any commit. */
  method BusyAtDepthOne() returns (first: QueueStatus, second: QueueStatus)
    ensures first == Queued && second == Busy
  {
    var e := new Engine(1);
    var a := NewRequest();
    var b := NewRequest();
    first := e.Queue(a);
    second := e.Queue(b);
  }

  /** depth = 2: A and B are submitted and committed, in that order. */
  method CommitTwo() returns (e: Engine, a: IoU, b: IoU)
    ensures e.Valid() && e.depth == 2 && a != b
    ensures fresh(e) && fresh(e.done) && fresh(e.done.pointers) && fresh(e.lastDone)
    ensures fresh(a) && fresh(b) && a.gasIo != null && b.gasIo != null
    ensures a.gasIo.ioU == a && b.gasIo.ioU == b
    ensures e.pool == [a.gasIo, b.gasIo] && e.done.Contents == [] && e.queued.Contents == []
  {
    a := NewRequest();
    b := NewRequest();
    e := new Engine(2);
    var s := e.Queue(a);
    s := e.Queue(b);
    e.Commit();
  }

  /** getevents(1, max) when exactly one request has finished, then event(0): one event,
      the io_u of that request. */
  method RetrieveOne(e: Engine, g: GasIo, max: int) returns (n: int, u: IoU)
    requires e.Valid() && 1 <= max <= e.depth && e.done.Contents == [g]
    modifies e, e.done, e.done.pointers, e.lastDone, g.ioU`error
    ensures e.Valid() && e.done.Contents == [] && e.pool == old(e.pool)
    ensures n == 1 && u == g.ioU && u.error == 0
  {
    ghost var arrived: seq<GasIo>;
    n, arrived := e.GetEvents(1, max);
    assert n == 1 && arrived == [];
    assert e.lastDone[..1] + e.done.Contents == [g];
    assert e.done.Contents == [];
    assert e.lastDone[..1] == e.lastDone[..1] + e.done.Contents == [g];
    assert e.lastDone[..1][0] == e.lastDone[0];
    u := e.Event(0);
  }

  /** depth = 2: A and B are submitted and committed, B finishes first. getevents(1, 2)
      returns 1 event, B; after A finishes, getevents(1, 1) returns A. */
  method CompletionOrderScenario() returns (a: IoU, b: IoU, n1: int, first: IoU, n2: int, second: IoU)
    ensures a != b
    ensures n1 == 1 && first == b
    ensures n2 == 1 && second == a
  {
    var e;
    e, a, b := CommitTwo();
    e.PerformWork(1);
    n1, first := RetrieveOne(e, b.gasIo, 2);
    e.PerformWork(0);
    n2, second := RetrieveOne(e, a.gasIo, 1);
  }
}
