/** The ring with any mixture of pushes, as a queue that may lose its oldest items, and when it may. */
module SpscLossy {
  import opened Common
  import opened AtomicPayloads
  import opened SpscProtocol
  import opened SpscSafety
  import opened SpscTheorems

  /** The items waiting, oldest first, and whether a push is under way that will displace or add one. */
  datatype Lossy = Lossy(waiting: seq<Item>, writing: bool) {
    /** The items waiting, counting the one being written. */
    function Load(): nat {
      |waiting| + if writing then 1 else 0
    }
  }

  /** `q'` is `q` less some of its oldest items, each dropped while more than `capacity` were in or under way. */
  predicate Drops(q: Lossy, q': Lossy, capacity: nat) {
    && q'.writing == q.writing && |q'.waiting| < |q.waiting|
    && q'.waiting == q.waiting[|q.waiting| - |q'.waiting|..]
    && q'.Load() >= capacity
  }

  /**
   What each event may do.  A push is refused at exactly `capacity` items (or when there are more
   than a 64-bit difference can tell); a pop is busy only while more than `capacity` items are in
   or under way, and empty only on the empty queue.
   */
  predicate LossyStep(q: Lossy, e: Event, q': Lossy, capacity: nat) {
    match e
    case Silent => q' == q || (!q.writing && q' == q.(writing := true)) || Drops(q, q', capacity)
    case Pushed(item) => q.writing && q' == Lossy(q.waiting + [item], false)
    case PushRefused => q' == q && !q.writing && (|q.waiting| == capacity || |q.waiting| >= U64_SIZE)
    case PopReturned(item) => q.waiting != [] && q.waiting[0] == item && q' == q.(waiting := q.waiting[1..])
    case PopEmpty => q' == q && q.waiting == []
    case PopBusy => q' == q && q.Load() > capacity
  }

  /** A run of the lossy queue that shows these events. */
  ghost predicate LossyRun(states: seq<Lossy>, trace: seq<Event>, capacity: nat) {
    && |states| == |trace| + 1 && states[0] == Lossy([], false)
    && forall i :: 0 <= i < |trace| ==> LossyStep(states[i], trace[i], states[i + 1], capacity)
  }

  /** The lossy queue a ring stands for. */
  function Standing(s: Ring): Lossy
    requires s.tail <= s.head <= |s.log|
  {
    Lossy(Live(s), |s.log| > s.head)
  }

  lemma RefusalRefinesLossy(s: Ring)
    requires Shape(s) && ProducerPlace(s) && s.tail <= s.head && s.p.pc == PLoadTail
    ensures var t := ProducerStep(s);
      && t.tail == s.tail && t.head == s.head && t.log == s.log
      && LossyStep(Standing(s), EventOf(s, Produce), Standing(s), s.capacity)
  {
    if WrapSub(s.p.h, s.tail) == s.capacity {
      assert s.head - s.tail == s.capacity || s.head - s.tail >= U64_SIZE;
    }
  }

  lemma PublicationRefinesLossy(s: Ring)
    requires Shape(s) && ProducerPlace(s) && s.tail <= s.head && s.p.pc == PPublishHead
    ensures var t := ProducerStep(s);
      && t.tail <= t.head <= |t.log|
      && LossyStep(Standing(s), EventOf(s, Produce), Standing(t), s.capacity)
  {
    assert Live(ProducerStep(s)) == Live(s) + [s.p.item];
  }

  /** The other accesses publish nothing; one of them begins the writing of a new item. */
  lemma WritingRefinesLossy(s: Ring)
    requires Shape(s) && ProducerPlace(s) && s.tail <= s.head && s.p.pc != PLoadTail && s.p.pc != PPublishHead
    ensures var t := ProducerStep(s);
      && EventOf(s, Produce) == Silent && t.tail == s.tail && t.head == s.head <= |t.log| && t.log[..s.head] == s.log[..s.head]
      && (|t.log| > s.head || |t.log| == |s.log|) && (|s.log| > s.head ==> |t.log| > s.head)
  {
  }

  lemma ProducerRefinesLossy(s: Ring)
    requires Shape(s) && ProducerPlace(s) && s.tail <= s.head
    ensures var t := ProducerStep(s);
      && t.tail <= t.head <= |t.log|
      && LossyStep(Standing(s), EventOf(s, Produce), Standing(t), s.capacity)
  {
    if s.p.pc == PLoadTail {
      RefusalRefinesLossy(s);
      hide ProducerStep, EventOf, LossyStep;
      assert Standing(ProducerStep(s)) == Standing(s);
    } else if s.p.pc == PPublishHead {
      PublicationRefinesLossy(s);
    } else {
      WritingRefinesLossy(s);
      hide ProducerStep, EventOf;
      var t := ProducerStep(s);
      assert Live(t) == t.log[..s.head][s.tail..] == s.log[..s.head][s.tail..] == Live(s);
    }
  }

  lemma BoundaryRefinesLossy(s: Ring)
    requires Shape(s) && ConsumerInv(s) && s.head <= |s.log| && s.c.pc == CStoreBoundary
    ensures var t := ConsumerStep(s);
      && EventOf(s, Consume) == Silent && t.tail <= t.head <= |t.log|
      && Drops(Standing(s), Standing(t), s.capacity)
  {
    var t := ConsumerStep(s);
    assert Live(t) == Live(s)[t.tail - s.tail..];
  }

  lemma SkipRefinesLossy(s: Ring)
    requires Shape(s) && ProducerInv(s) && ConsumerInv(s) && s.c.pc == CSkip
    ensures var t := ConsumerStep(s);
      && EventOf(s, Consume) == Silent && t.tail <= t.head <= |t.log|
      && Drops(Standing(s), Standing(t), s.capacity)
  {
    var t := ConsumerStep(s);
    PublishedSequence(s, s.tail);
    hide SlotsInv;
    assert Live(t) == Live(s)[1..];
  }

  lemma CommitRefinesLossy(s: Ring)
    requires Inv(s) && s.c.pc == CCommit
    ensures var t := ConsumerStep(s);
      && t.tail <= t.head <= |t.log|
      && LossyStep(Standing(s), EventOf(s, Consume), Standing(t), s.capacity)
  {
    hide Pack, Unpack, SlotsInv, DeliveriesInv, LossInv, RetryInv;
    UnpackPack(s.log[s.tail]);
    assert Live(ConsumerStep(s)) == Live(s)[1..];
  }

  lemma OtherPopRefinesLossy(s: Ring)
    requires Inv(s) && s.c.pc !in {CStoreBoundary, CSkip, CCommit}
    ensures var t := ConsumerStep(s);
      && t.tail <= t.head <= |t.log|
      && LossyStep(Standing(s), EventOf(s, Consume), Standing(t), s.capacity)
  {
    if EventOf(s, Consume) == PopBusy {
      BusyMeansOverwriting(s);
    }
    hide SlotsInv, DeliveriesInv, LossInv, RetryInv;
    var t := ConsumerStep(s);
    assert t.tail == s.tail && t.head == s.head && t.log == s.log;
  }

  lemma ConsumerRefinesLossy(s: Ring)
    requires Inv(s)
    ensures var t := ConsumerStep(s);
      && t.tail <= t.head <= |t.log|
      && LossyStep(Standing(s), EventOf(s, Consume), Standing(t), s.capacity)
  {
    hide SlotsInv, ConsumerInv, DeliveriesInv, LossInv, RetryInv, ConsumerStep, EventOf, Drops;
    match s.c.pc
    case CStoreBoundary => BoundaryRefinesLossy(s);
    case CSkip => SkipRefinesLossy(s);
    case CCommit => CommitRefinesLossy(s);
    case _ => OtherPopRefinesLossy(s);
  }

  /** Every shared access of either thread is one step of the lossy queue. */
  lemma StepRefinesLossy(s: Ring, a: Action)
    requires Inv(s)
    ensures var t := Do(s, a);
      && Inv(t) && s.tail <= s.head <= |s.log| && t.tail <= t.head <= |t.log|
      && LossyStep(Standing(s), EventOf(s, a), Standing(t), s.capacity)
  {
    StepKeepsInv(s, a);
    hide SlotsInv, ConsumerInv, DeliveriesInv, LossInv, RetryInv, ProducerStep, ConsumerStep;
    ConsumerPlace(s);
    match a
    case Push(_, _) =>
      assert Standing(Do(s, a)) == Standing(s);
    case Produce => ProducerRefinesLossy(s);
    case Consume => ConsumerRefinesLossy(s);
  }

  /** Some run of the lossy queue shows these events and ends where `s` stands. */
  ghost predicate IsLossyRun(s: Ring, trace: seq<Event>, capacity: nat) {
    && s.tail <= s.head <= |s.log|
    && exists states :: LossyRun(states, trace, capacity) && states[|states| - 1] == Standing(s)
  }

  lemma LossyRunGoesOn(s: Ring, trace: seq<Event>, a: Action)
    requires Inv(s) && IsLossyRun(s, trace, s.capacity)
    ensures IsLossyRun(Do(s, a), trace + [EventOf(s, a)], s.capacity)
  {
    var states :| LossyRun(states, trace, s.capacity) && states[|states| - 1] == Standing(s);
    assert |states| == |trace| + 1 && Shape(s);
    hide Inv, Do, EventOf, LossyStep, Standing, LossyRun, Shape;
    StepRefinesLossy(s, a);
    LossyOneMore(states, trace, EventOf(s, a), Standing(Do(s, a)), s.capacity);
    var longer := states + [Standing(Do(s, a))];
    assert LossyRun(longer, trace + [EventOf(s, a)], s.capacity) && longer[|longer| - 1] == Standing(Do(s, a));
  }

  lemma StartIsLossyRun(capacity: nat, size: nat)
    requires 0 < capacity < U64_SIZE && 0 < size
    ensures IsLossyRun(Init(capacity, size), [], capacity)
  {
    var states := [Standing(Init(capacity, size))];
    assert LossyRun(states, [], capacity) && states[|states| - 1] == Standing(Init(capacity, size));
  }

  lemma TraceUnfolds(s: Ring, schedule: seq<Action>)
    requires Shape(s) && schedule != []
    ensures var n := |schedule| - 1; var t := Run(s, schedule[..n]);
      && Run(s, schedule) == Do(t, schedule[n])
      && Trace(s, schedule) == Trace(s, schedule[..n]) + [EventOf(t, schedule[n])]
  {
  }

  /**
   Every schedule, whatever pushes it mixes, is a run of the lossy queue: items come out in order
   from the front, and one is dropped only while more than `capacity` are in or under way.
   */
  lemma {:induction false} EveryTraceIsLossyRun(capacity: nat, size: nat, schedule: seq<Action>)
    requires 0 < capacity < U64_SIZE && 0 < size
    ensures IsLossyRun(Run(Init(capacity, size), schedule), Trace(Init(capacity, size), schedule), capacity)
  {
    var s0 := Init(capacity, size);
    if schedule == [] {
      StartIsLossyRun(capacity, size);
    } else {
      var n := |schedule| - 1;
      EveryTraceIsLossyRun(capacity, size, schedule[..n]);
      InitInv(capacity, size);
      RunKeepsInv(s0, schedule[..n]);
      CapacityKept(s0, schedule[..n]);
      TraceUnfolds(s0, schedule);
      assert s0.capacity == capacity;
      hide *;
      LossyRunGoesOn(Run(s0, schedule[..n]), Trace(s0, schedule[..n]), schedule[n]);
    }
  }

  lemma LossyOneMore(states: seq<Lossy>, trace: seq<Event>, e: Event, q: Lossy, capacity: nat)
    requires LossyRun(states, trace, capacity) && LossyStep(states[|trace|], e, q, capacity)
    ensures LossyRun(states + [q], trace + [e], capacity)
  {
  }

  // ---- what a lossy queue keeps ------------------------------------------------------------------------

  /** `kept` is `all` with some items left out. */
  predicate IsSubsequence(kept: seq<Item>, all: seq<Item>)
    decreases |all|
  {
    || kept == []
    || (all != [] &&
         (IsSubsequence(kept, all[..|all| - 1])
          || (kept[|kept| - 1] == all[|all| - 1] && IsSubsequence(kept[..|kept| - 1], all[..|all| - 1]))))
  }

  lemma {:induction false} SubsequenceOfMore(kept: seq<Item>, all: seq<Item>, more: seq<Item>)
    requires IsSubsequence(kept, all)
    ensures IsSubsequence(kept, all + more)
    decreases |more|
  {
    if more == [] {
      assert all + more == all;
    } else {
      SubsequenceOfMore(kept, all, more[..|more| - 1]);
      assert (all + more)[..|all + more| - 1] == all + more[..|more| - 1];
    }
  }

  lemma SubsequenceAndLast(kept: seq<Item>, all: seq<Item>, item: Item)
    requires IsSubsequence(kept, all)
    ensures IsSubsequence(kept + [item], all + [item])
  {
    assert (kept + [item])[..|kept|] == kept && (all + [item])[..|all|] == all;
  }

  /** The items waiting are the last of those pushed, and those returned come from before them, in order. */
  predicate Explains(q: Lossy, pushed: seq<Item>, returned: seq<Item>) {
    && |q.waiting| <= |pushed| && q.waiting == pushed[|pushed| - |q.waiting|..]
    && IsSubsequence(returned, pushed[..|pushed| - |q.waiting|])
  }

  lemma PushExplained(q: Lossy, pushed: seq<Item>, returned: seq<Item>, item: Item)
    requires Explains(q, pushed, returned)
    ensures Explains(Lossy(q.waiting + [item], false), pushed + [item], returned)
  {
    var n := |pushed| - |q.waiting|;
    hide IsSubsequence;
    assert (pushed + [item])[..n] == pushed[..n];
    assert (pushed + [item])[n..] == pushed[n..] + [item];
  }

  lemma PopExplained(q: Lossy, pushed: seq<Item>, returned: seq<Item>)
    requires Explains(q, pushed, returned) && q.waiting != []
    ensures Explains(q.(waiting := q.waiting[1..]), pushed, returned + [q.waiting[0]])
  {
    var n := |pushed| - |q.waiting|;
    SubsequenceAndLast(returned, pushed[..n], q.waiting[0]);
    hide IsSubsequence;
    assert pushed[..n + 1] == pushed[..n] + [q.waiting[0]];
  }

  lemma DropExplained(q: Lossy, pushed: seq<Item>, returned: seq<Item>, k: nat)
    requires Explains(q, pushed, returned) && k <= |q.waiting|
    ensures Explains(q.(waiting := q.waiting[k..]), pushed, returned)
  {
    var n := |pushed| - |q.waiting|;
    SubsequenceOfMore(returned, pushed[..n], pushed[n..n + k]);
    hide IsSubsequence;
    assert pushed[..n + k] == pushed[..n] + pushed[n..n + k];
  }

  lemma SilentExplained(q: Lossy, pushed: seq<Item>, returned: seq<Item>, q': Lossy, capacity: nat)
    requires Explains(q, pushed, returned) && LossyStep(q, Silent, q', capacity)
    ensures Explains(q', pushed, returned)
  {
    if Drops(q, q', capacity) {
      DropExplained(q, pushed, returned, |q.waiting| - |q'.waiting|);
    }
    hide IsSubsequence;
  }

  lemma EventExplained(q: Lossy, pushed: seq<Item>, returned: seq<Item>, e: Event, q': Lossy, capacity: nat)
    requires Explains(q, pushed, returned) && LossyStep(q, e, q', capacity)
    ensures Explains(q', if e.Pushed? then pushed + [e.item] else pushed, if e.PopReturned? then returned + [e.item] else returned)
  {
    hide Explains, Drops;
    match e
    case Pushed(item) => PushExplained(q, pushed, returned, item);
    case PopReturned(_) => PopExplained(q, pushed, returned);
    case Silent => SilentExplained(q, pushed, returned, q', capacity);
    case _ =>
  }

  lemma ItemsAppended(trace: seq<Event>, e: Event)
    ensures PushedItems(trace + [e]) == if e.Pushed? then PushedItems(trace) + [e.item] else PushedItems(trace)
    ensures ReturnedItems(trace + [e]) == if e.PopReturned? then ReturnedItems(trace) + [e.item] else ReturnedItems(trace)
  {
    assert (trace + [e])[..|trace|] == trace;
    assert PushedItems(trace) + [] == PushedItems(trace) && ReturnedItems(trace) + [] == ReturnedItems(trace);
  }

  lemma ExplainsStep(q: Lossy, trace: seq<Event>, e: Event, q': Lossy, capacity: nat)
    requires Explains(q, PushedItems(trace), ReturnedItems(trace)) && LossyStep(q, e, q', capacity)
    ensures Explains(q', PushedItems(trace + [e]), ReturnedItems(trace + [e]))
  {
    hide *;
    ItemsAppended(trace, e);
    EventExplained(q, PushedItems(trace), ReturnedItems(trace), e, q', capacity);
  }

  /** In every run of the lossy queue the items returned are some of those pushed, in the order they were pushed. */
  lemma {:induction false} LossyRunInOrder(states: seq<Lossy>, trace: seq<Event>, capacity: nat)
    requires LossyRun(states, trace, capacity)
    ensures Explains(states[|trace|], PushedItems(trace), ReturnedItems(trace))
  {
    if trace != [] {
      var n := |trace| - 1;
      LossyRunInOrder(states[..n + 1], trace[..n], capacity);
      assert trace[..n] + [trace[n]] == trace;
      hide PushedItems, ReturnedItems, Explains, LossyStep;
      ExplainsStep(states[n], trace[..n], trace[n], states[n + 1], capacity);
    }
  }
}
