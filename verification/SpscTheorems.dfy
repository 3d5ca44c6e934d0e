/** The guarantees of the ring protocol, for every capacity, item size and schedule. */
module SpscTheorems {
  import opened Common
  import opened AtomicPayloads
  import opened SpscProtocol
  import opened SpscSafety

  // ---- reading a trace ---------------------------------------------------------------------

  function PushedItems(trace: seq<Event>): seq<Item> {
    if trace == [] then []
    else
      var n := |trace| - 1;
      PushedItems(trace[..n]) + (if trace[n].Pushed? then [trace[n].item] else [])
  }

  function ReturnedItems(trace: seq<Event>): seq<Item> {
    if trace == [] then []
    else
      var n := |trace| - 1;
      ReturnedItems(trace[..n]) + (if trace[n].PopReturned? then [trace[n].item] else [])
  }

  function ItemsOf(deliveries: seq<Delivery>): (items: seq<Item>)
    ensures |items| == |deliveries|
    ensures forall d :: 0 <= d < |items| ==> items[d] == deliveries[d].item
  {
    seq(|deliveries|, d requires 0 <= d < |deliveries| => deliveries[d].item)
  }

  /** The histories are what the trace shows: published items and returned items, in order. */
  lemma {:induction false} HistoriesMatchTrace(capacity: nat, size: nat, schedule: seq<Action>)
    requires 0 < capacity < U64_SIZE && 0 < size
    ensures var s := Run(Init(capacity, size), schedule);
      var trace := Trace(Init(capacity, size), schedule);
      && s.head <= |s.log|
      && PushedItems(trace) == s.log[..s.head]
      && ReturnedItems(trace) == ItemsOf(s.popped)
  {
    InitInv(capacity, size);
    RunKeepsInv(Init(capacity, size), schedule);
    if schedule != [] {
      var n := |schedule| - 1;
      HistoriesMatchTrace(capacity, size, schedule[..n]);
      RunKeepsInv(Init(capacity, size), schedule[..n]);
      var s0 := Run(Init(capacity, size), schedule[..n]);
      var trace := Trace(Init(capacity, size), schedule);
      assert trace[..n] == Trace(Init(capacity, size), schedule[..n]) by {
        TraceLength(Init(capacity, size), schedule[..n]);
      }
      TraceLength(Init(capacity, size), schedule);
      assert trace[n] == EventOf(s0, schedule[n]);
      StepHistory(s0, schedule[n]);
    }
  }

  lemma {:induction false} TraceLength(s: Ring, schedule: seq<Action>)
    requires Shape(s)
    ensures |Trace(s, schedule)| == |schedule|
  {
    if schedule != [] {
      TraceLength(s, schedule[..|schedule| - 1]);
    }
  }

  predicate HistoryMatches(s: Ring, s': Ring, e: Event) {
    && s.head <= |s.log| && s'.head <= |s'.log|
    && s'.log[..s'.head] == s.log[..s.head] + (if e.Pushed? then [e.item] else [])
    && ItemsOf(s'.popped) == ItemsOf(s.popped) + (if e.PopReturned? then [e.item] else [])
  }

  lemma ProducerHistory(s: Ring)
    requires Shape(s) && ProducerPlace(s)
    ensures HistoryMatches(s, ProducerStep(s), EventOf(s, Produce))
  {
    var s' := ProducerStep(s);
    if s.p.pc != PPublishHead {
      assert s'.log[..s'.head] == s.log[..s.head];
    }
  }

  lemma ConsumerHistory(s: Ring)
    requires Shape(s) && s.head <= |s.log|
    ensures HistoryMatches(s, ConsumerStep(s), EventOf(s, Consume))
  {
    if s.c.pc != CCommit {
      assert ConsumerStep(s).popped == s.popped;
    }
  }

  lemma StepHistory(s: Ring, a: Action)
    requires Inv(s)
    ensures HistoryMatches(s, Do(s, a), EventOf(s, a))
  {
    match a
    case Push(_, _) =>
    case Produce => ProducerHistory(s);
    case Consume => ConsumerHistory(s);
  }

  // ---- no torn reads, ordered delivery, justified loss ---------------------------------------

  /**
   Whatever the interleaving and whichever push operations are mixed: the items returned are
   items that were pushed, each read whole although it is stored and loaded word by word, taken
   at strictly increasing push indices.
   */
  lemma NoTornReadsInOrder(capacity: nat, size: nat, schedule: seq<Action>)
    requires 0 < capacity < U64_SIZE && 0 < size
    ensures var s := Run(Init(capacity, size), schedule);
      var trace := Trace(Init(capacity, size), schedule);
      var returned := ReturnedItems(trace);
      var pushed := PushedItems(trace);
      && |returned| == |s.popped|
      && (forall d :: 0 <= d < |returned| ==>
            s.popped[d].index < |pushed| && returned[d] == pushed[s.popped[d].index])
      && (forall d, e :: 0 <= d < e < |returned| ==> s.popped[d].index < s.popped[e].index)
  {
    HistoriesMatchTrace(capacity, size, schedule);
    InitInv(capacity, size);
    RunKeepsInv(Init(capacity, size), schedule);
  }

  /**
   The tail never passes the head, and an index it has passed was either delivered or has had
   its slot taken over by a later push: the consumer never discards a live item.
   */
  lemma LossIsJustified(capacity: nat, size: nat, schedule: seq<Action>)
    requires 0 < capacity < U64_SIZE && 0 < size
    ensures var s := Run(Init(capacity, size), schedule);
      && s.tail <= s.head
      && forall j: nat :: j < s.tail ==> Delivered(s, j) || s.slots[SlotIndex(s, j)].sequence > j + 1
  {
    InitInv(capacity, size);
    RunKeepsInv(Init(capacity, size), schedule);
    var s := Run(Init(capacity, size), schedule);
    assert forall j: nat :: Overwritten(s, j) ==> s.slots[SlotIndex(s, j)].sequence > j + 1;
  }

  /** One pop retries at most once more than the number of items published since it first loaded the head. */
  lemma RetriesAreBounded(capacity: nat, size: nat, schedule: seq<Action>)
    requires 0 < capacity < U64_SIZE && 0 < size
    ensures var s := Run(Init(capacity, size), schedule);
      && (s.c.firstHead.None? ==> s.c.retries == 0)
      && (s.c.firstHead.Some? ==> s.c.retries <= 1 + s.head - s.c.firstHead.value)
  {
    InitInv(capacity, size);
    RunKeepsInv(Init(capacity, size), schedule);
  }

  /**
   A pop that fails without finding the ring empty has lost its item: a push a full capacity
   later has already begun to take the slot over.
   */
  lemma BusyMeansOverwriting(s: Ring)
    requires Inv(s) && EventOf(s, Consume) == PopBusy
    ensures s.tail + s.capacity < |s.log|
  {
    if s.c.pc == CLoadVersion {
      EvenUnlessWriting(s, SlotIndex(s, s.c.ct));
      SameSlotApart(s.c.ct, s.p.h, s.capacity);
    }
  }

  /** In every run a pop that reports the ring empty does so at an access at which it is empty. */
  lemma PopEmptyMeansEmpty(capacity: nat, size: nat, schedule: seq<Action>)
    requires 0 < capacity < U64_SIZE && 0 < size
    ensures var s := Run(Init(capacity, size), schedule);
      EventOf(s, Consume) == PopEmpty ==> s.tail == s.head
  {
    InitInv(capacity, size);
    RunKeepsInv(Init(capacity, size), schedule);
    hide ProducerInv, DeliveriesInv, LossInv, RetryInv;
  }

  /** In every run a delivery comes from the last `capacity` items below the head that very pop loaded. */
  lemma DeliveredWithinCapacity(capacity: nat, size: nat, schedule: seq<Action>)
    requires 0 < capacity < U64_SIZE && 0 < size
    ensures var s := Run(Init(capacity, size), schedule);
      s.c.pc == CCommit ==>
        var s' := Do(s, Consume);
        && Oldest(s.c.h, capacity) <= s.tail < s.c.h <= s.head <= |s.log|
        && s'.popped == s.popped + [Delivery(s.tail, s.log[s.tail])]
  {
    InitInv(capacity, size);
    RunKeepsInv(Init(capacity, size), schedule);
    CapacityKept(Init(capacity, size), schedule);
    var s := Run(Init(capacity, size), schedule);
    hide SlotsInv, DeliveriesInv, LossInv, RetryInv, Pack, Unpack, Run;
    if s.c.pc == CCommit {
      UnpackPack(s.log[s.tail]);
    }
  }

  // ---- the lossless mode is a linearizable bounded queue -------------------------------------

  /** While only lossless pushes are used, an unconsumed slot is never written. */
  predicate LosslessInv(s: Ring) {
    && !s.lossy
    && |s.log| <= s.tail + s.capacity
    && (s.p.pc == PRaiseVersion ==> s.head < s.tail + s.capacity)
    && (s.p.pc != PIdle ==> s.p.lossless)
    && |s.popped| == s.tail
    && (forall d :: 0 <= d < |s.popped| ==> s.popped[d].index == d)
  }

  predicate OnlyLossless(schedule: seq<Action>) {
    forall k :: 0 <= k < |schedule| && schedule[k].Push? ==> schedule[k].lossless
  }

  /** In this mode the checks of a pop never fail. */
  lemma ChecksNeverFail(s: Ring)
    requires Inv(s) && LosslessInv(s)
    ensures s.c.pc != CSkip && s.c.pc != CStoreBoundary && EventOf(s, Consume) != PopBusy
  {
    if s.c.pc == CSkip {
      SkipIsPaidFor(s);
    }
    if EventOf(s, Consume) == PopBusy {
      BusyMeansOverwriting(s);
    }
  }

  lemma FullTestIsExact(s: Ring)
    requires Shape(s) && ProducerPlace(s) && LosslessInv(s) && s.tail <= s.head && s.p.pc == PLoadTail
    ensures WrapSub(s.p.h, s.tail) == s.head - s.tail <= s.capacity
  {
  }

  lemma ProducerKeepsLossless(s: Ring)
    requires Shape(s) && ProducerPlace(s) && LosslessInv(s) && s.tail <= s.head
    ensures LosslessInv(ProducerStep(s))
  {
    if s.p.pc == PLoadTail {
      FullTestIsExact(s);
    }
  }

  lemma ConsumerKeepsLossless(s: Ring)
    requires Shape(s) && ConsumerInv(s) && LosslessInv(s) && s.c.pc != CSkip && s.c.pc != CStoreBoundary
    ensures LosslessInv(ConsumerStep(s))
  {
  }

  lemma StepKeepsLossless(s: Ring, a: Action)
    requires Inv(s) && LosslessInv(s) && (a.Push? ==> a.lossless)
    ensures LosslessInv(Do(s, a))
  {
    match a
    case Push(_, _) =>
    case Produce => ProducerKeepsLossless(s);
    case Consume =>
      ChecksNeverFail(s);
      ConsumerKeepsLossless(s);
  }

  lemma {:induction false} RunKeepsLossless(s: Ring, schedule: seq<Action>)
    requires Inv(s) && LosslessInv(s) && OnlyLossless(schedule)
    ensures Inv(Run(s, schedule)) && LosslessInv(Run(s, schedule))
  {
    RunKeepsInv(s, schedule);
    if schedule != [] {
      RunKeepsLossless(s, schedule[..|schedule| - 1]);
      StepKeepsLossless(Run(s, schedule[..|schedule| - 1]), schedule[|schedule| - 1]);
    }
  }

  /** The bounded queue: what each event may do to its contents, or `None` where it is not allowed. */
  function FifoStep(q: seq<Item>, e: Event, capacity: nat): Option<seq<Item>> {
    match e
    case Silent => Some(q)
    case Pushed(item) => if |q| < capacity then Some(q + [item]) else None
    case PushRefused => if |q| == capacity then Some(q) else None
    case PopReturned(item) => if q != [] && q[0] == item then Some(q[1..]) else None
    case PopEmpty => if q == [] then Some(q) else None
    case PopBusy => None
  }

  function FifoRun(trace: seq<Event>, capacity: nat): Option<seq<Item>> {
    if trace == [] then Some([])
    else
      var n := |trace| - 1;
      var q := FifoRun(trace[..n], capacity);
      if q.None? then None else FifoStep(q.value, trace[n], capacity)
  }

  /** The queue a ring stands for. */
  function Live(s: Ring): seq<Item>
    requires s.tail <= s.head <= |s.log|
  {
    s.log[s.tail..s.head]
  }

  lemma ProducerRefinesFifo(s: Ring)
    requires Shape(s) && ProducerPlace(s) && LosslessInv(s) && s.tail <= s.head
    ensures var s' := ProducerStep(s);
      && s'.tail <= s'.head <= |s'.log|
      && FifoStep(Live(s), EventOf(s, Produce), s.capacity) == Some(Live(s'))
  {
    if s.p.pc == PLoadTail {
      FullTestIsExact(s);
    } else if s.p.pc == PPublishHead {
      assert Live(ProducerStep(s)) == Live(s) + [s.p.item];
    } else {
      assert Live(ProducerStep(s)) == Live(s);
    }
  }

  lemma CommitRefinesFifo(s: Ring)
    requires Shape(s) && ConsumerInv(s) && s.head <= |s.log| && s.c.pc == CCommit && |s.log[s.tail]| == s.size
    ensures var s' := ConsumerStep(s);
      && s'.tail <= s'.head <= |s'.log|
      && FifoStep(Live(s), EventOf(s, Consume), s.capacity) == Some(Live(s'))
  {
    hide Pack, Unpack;
    UnpackPack(s.log[s.tail]);
    assert Live(s)[1..] == Live(ConsumerStep(s));
  }

  lemma ConsumerRefinesFifo(s: Ring)
    requires Shape(s) && ConsumerInv(s) && s.head <= |s.log| && LosslessInv(s)
    requires s.c.pc != CSkip && s.c.pc != CStoreBoundary && EventOf(s, Consume) != PopBusy
    requires s.c.pc == CCommit ==> |s.log[s.tail]| == s.size
    ensures var s' := ConsumerStep(s);
      && s'.tail <= s'.head <= |s'.log|
      && FifoStep(Live(s), EventOf(s, Consume), s.capacity) == Some(Live(s'))
  {
    if s.c.pc == CCommit {
      CommitRefinesFifo(s);
    }
  }

  lemma StepRefinesFifo(s: Ring, a: Action)
    requires Inv(s) && LosslessInv(s)
    ensures Inv(Do(s, a))
    ensures FifoStep(Live(s), EventOf(s, a), s.capacity) == Some(Live(Do(s, a)))
  {
    StepKeepsInv(s, a);
    match a
    case Push(_, _) =>
    case Produce => ProducerRefinesFifo(s);
    case Consume =>
      ChecksNeverFail(s);
      ConsumerRefinesFifo(s);
  }

  /**
   With only lossless pushes, every schedule is a run of a bounded first-in-first-out queue: each
   push and pop takes effect at one of its own shared accesses, a push is refused only when the
   queue holds `capacity` items, and a pop fails only when the queue is empty.
   */
  lemma {:induction false} LosslessIsLinearizableFifo(capacity: nat, size: nat, schedule: seq<Action>)
    requires 0 < capacity < U64_SIZE && 0 < size && OnlyLossless(schedule)
    ensures var s := Run(Init(capacity, size), schedule);
      && s.tail <= s.head <= |s.log| && s.head - s.tail <= capacity
      && FifoRun(Trace(Init(capacity, size), schedule), capacity) == Some(Live(s))
  {
    hide Do, EventOf, SlotsInv, ConsumerInv, DeliveriesInv, LossInv, RetryInv;
    InitInv(capacity, size);
    var s0 := Init(capacity, size);
    RunKeepsLossless(s0, schedule);
    ConsumerPlace(Run(s0, schedule));
    CapacityKept(s0, schedule);
    if schedule != [] {
      var n := |schedule| - 1;
      LosslessIsLinearizableFifo(capacity, size, schedule[..n]);
      RunKeepsLossless(s0, schedule[..n]);
      StepRefinesFifo(Run(s0, schedule[..n]), schedule[n]);
      CapacityKept(s0, schedule[..n]);
      TraceLength(s0, schedule[..n]);
      assert Trace(s0, schedule)[..n] == Trace(s0, schedule[..n]);
    }
  }

  lemma StepKeepsCapacity(s: Ring, a: Action)
    requires Shape(s)
    ensures Do(s, a).capacity == s.capacity && Do(s, a).size == s.size
  {
  }

  lemma {:induction false} CapacityKept(s: Ring, schedule: seq<Action>)
    requires Shape(s)
    ensures Run(s, schedule).capacity == s.capacity && Run(s, schedule).size == s.size
  {
    hide Do;
    if schedule != [] {
      StepKeepsCapacity(Run(s, schedule[..|schedule| - 1]), schedule[|schedule| - 1]);
      CapacityKept(s, schedule[..|schedule| - 1]);
    }
  }

  /** With only lossless pushes, what was returned is a prefix of what was pushed, with no gap. */
  lemma LosslessReturnsPrefix(capacity: nat, size: nat, schedule: seq<Action>)
    requires 0 < capacity < U64_SIZE && 0 < size && OnlyLossless(schedule)
    ensures var trace := Trace(Init(capacity, size), schedule);
      ReturnedItems(trace) <= PushedItems(trace)
  {
    InitInv(capacity, size);
    RunKeepsLossless(Init(capacity, size), schedule);
    HistoriesMatchTrace(capacity, size, schedule);
  }
}
