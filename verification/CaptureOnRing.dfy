/**
 The capture loop and the callback over the ring itself: pushing and popping a state event takes
 one step per shared access of the ring protocol.  Every such run is, ring and all, a run of
 `CaptureProtocol`, so what is proved there holds here.
 */
module CaptureOnRing {
  import opened Common
  import opened AtomicPayloads
  import opened SpscSafety
  import opened SpscTheorems
  import G = SpscProgress
  import H = CaptureProgress
  import P = SpscProtocol
  import C = CaptureProtocol

  datatype System = System(
    ring: P.Ring, saturated: bool, running: bool, tap: C.Tap, resync: C.Resync, loop: C.LoopPc)

  function Init(capacity: nat, size: nat): (s: System)
    requires 0 < capacity < U64_SIZE && 0 < size
    ensures P.Shape(s.ring)
  {
    var c := C.Init(capacity);
    System(P.Init(capacity, size), c.saturated, c.running, c.tap, c.resync, c.loop)
  }

  /** All of the system but the ring, next to a channel. */
  function Beside(s: System, channel: C.Channel): C.Capture {
    C.Capture(s.ring.capacity, channel, s.saturated, s.running, s.tap, s.resync, s.loop)
  }

  function WithControl(s: System, c: C.Capture): System {
    s.(saturated := c.saturated, running := c.running, tap := c.tap, resync := c.resync, loop := c.loop)
  }

  const NO_CHANNEL := C.Channel([], [], [])

  /** The next access of a push: begin it, or one access of the ring protocol; its outcome moves the callback on. */
  function PushAccess(s: System, event: Item): (t: System)
    requires P.Shape(s.ring)
    ensures P.Shape(t.ring)
  {
    if s.ring.p.pc == P.PIdle then s.(ring := P.Do(s.ring, P.Push(event, true)))
    else
      var e := P.EventOf(s.ring, P.Produce);
      var s1 := s.(ring := P.Do(s.ring, P.Produce));
      if e.Pushed? then s1.(tap := s.tap.(pc := C.CbIdle))
      else if e.PushRefused? then s1.(tap := s.tap.(refused := s.tap.refused + 1, pc := C.CbStoreFlag))
      else s1
  }

  function Callback(s: System): (t: System)
    requires P.Shape(s.ring)
    ensures P.Shape(t.ring)
  {
    if s.tap.pc == C.CbPush && s.tap.event.Some? then PushAccess(s, s.tap.event.value)
    else WithControl(s, C.Callback(Beside(s, NO_CHANNEL)))
  }

  predicate Popping(pc: C.LoopPc) {
    pc in {C.LPopState, C.LDrain, C.LFinalDrain}
  }

  /** Where the loop goes after a pop that returned an event, and after one that did not. */
  function AfterPop(pc: C.LoopPc, got: bool): C.LoopPc {
    match pc
    case LPopState => C.LPopData
    case LDrain => if got then C.LDrain else C.LTestEmpty
    case LFinalDrain => if got then C.LFinalDrain else C.LExit
    case _ => pc
  }

  /** The next access of a pop; its outcome moves the loop on. */
  function PopAccess(s: System): (t: System)
    requires P.Shape(s.ring)
    ensures P.Shape(t.ring)
  {
    var e := P.EventOf(s.ring, P.Consume);
    var s1 := s.(ring := P.Do(s.ring, P.Consume));
    if e.PopReturned? then s1.(loop := AfterPop(s.loop, true))
    else if e.PopEmpty? || e.PopBusy? then s1.(loop := AfterPop(s.loop, false))
    else s1
  }

  function Loop(s: System): (t: System)
    requires P.Shape(s.ring)
    ensures P.Shape(t.ring)
  {
    if Popping(s.loop) then PopAccess(s)
    else if s.loop == C.LTestEmpty then s.(loop := if s.ring.head == s.ring.tail then C.LTestPending else C.LTop)
    else WithControl(s, C.Loop(Beside(s, NO_CHANNEL)))
  }

  /** One scheduling decision; events have the size of the ring's items. */
  function Do(s: System, a: C.Action): (t: System)
    requires P.Shape(s.ring)
    ensures P.Shape(t.ring)
  {
    match a
    case Enqueue(event) =>
      if s.tap.pc == C.CbIdle && |event| == s.ring.size then s.(tap := s.tap.(pc := C.CbPush, event := Some(event))) else s
    case CallbackStep => Callback(s)
    case LoopStep => Loop(s)
    case Stop => s.(running := false)
  }

  function Run(s: System, schedule: seq<C.Action>): (t: System)
    requires P.Shape(s.ring)
    ensures P.Shape(t.ring)
  {
    if schedule == [] then s else Do(Run(s, schedule[..|schedule| - 1]), schedule[|schedule| - 1])
  }

  // ---- what the ring stands for ------------------------------------------------------------------------

  function ChannelOf(r: P.Ring): C.Channel
    requires r.tail <= r.head <= |r.log|
  {
    C.Channel(Live(r), r.log[..r.head], ItemsOf(r.popped))
  }

  function Abstract(s: System): C.Capture
    requires s.ring.tail <= s.ring.head <= |s.ring.log|
  {
    Beside(s, ChannelOf(s.ring))
  }

  /** The ring is in lossless use, and its two threads are where the callback and the loop are. */
  predicate Consistent(s: System) {
    && Inv(s.ring) && LosslessInv(s.ring)
    && s.ring.p.pc != P.PSampleTail && s.ring.p.pc != P.PCountDrop
    && (s.tap.pc != C.CbPush ==> s.ring.p.pc == P.PIdle)
    && (s.tap.pc == C.CbPush ==>
          && s.tap.event.Some? && |s.tap.event.value| == s.ring.size
          && (s.ring.p.pc != P.PIdle ==> s.ring.p.item == s.tap.event.value))
    && (!Popping(s.loop) ==> s.ring.c.pc == P.CIdle)
  }

  lemma Placed(r: P.Ring)
    requires Inv(r)
    ensures r.tail <= r.head <= |r.log|
  {
    ConsumerPlace(r);
  }

  /** What one access of the ring does to the channel it stands for. */
  lemma ChannelStep(r: P.Ring, a: P.Action)
    requires Inv(r) && LosslessInv(r) && (a.Push? ==> a.lossless)
    ensures var t := P.Do(r, a); var e := P.EventOf(r, a);
      && Inv(t) && LosslessInv(t) && t.capacity == r.capacity && t.size == r.size
      && r.tail <= r.head <= |r.log| && t.tail <= t.head <= |t.log|
      && FifoStep(Live(r), e, r.capacity) == Some(Live(t))
      && t.log[..t.head] == r.log[..r.head] + (if e.Pushed? then [e.item] else [])
      && ItemsOf(t.popped) == ItemsOf(r.popped) + (if e.PopReturned? then [e.item] else [])
  {
    StepRefinesFifo(r, a);
    StepKeepsLossless(r, a);
    StepHistory(r, a);
    StepKeepsCapacity(r, a);
    Placed(r);
    Placed(P.Do(r, a));
    hide Inv, LosslessInv, P.Do, P.EventOf, FifoStep, ItemsOf;
  }

  /** The same, said of the channel as a whole. */
  lemma ChannelAfter(r: P.Ring, a: P.Action)
    requires Inv(r) && LosslessInv(r) && (a.Push? ==> a.lossless)
    ensures var t := P.Do(r, a);
      && r.tail <= r.head <= |r.log| && t.tail <= t.head <= |t.log|
      && match P.EventOf(r, a)
         case Silent => ChannelOf(t) == ChannelOf(r)
         case Pushed(item) => |ChannelOf(r).queue| < r.capacity && ChannelOf(t) == ChannelOf(r).Push(item)
         case PushRefused => |ChannelOf(r).queue| == r.capacity && ChannelOf(t) == ChannelOf(r)
         case PopReturned(_) => ChannelOf(r).queue != [] && ChannelOf(t) == ChannelOf(r).Pop()
         case PopEmpty => ChannelOf(r).queue == [] && ChannelOf(t) == ChannelOf(r)
         case PopBusy => false
  {
    ChannelStep(r, a);
    hide Inv, LosslessInv, P.Do, P.EventOf, ItemsOf;
    assert r.log[..r.head] + [] == r.log[..r.head];
    assert ItemsOf(r.popped) + [] == ItemsOf(r.popped);
  }

  lemma PushPlaces(r: P.Ring, event: Item)
    requires P.Shape(r) && LosslessInv(r) && |event| == r.size
    requires r.p.pc != P.PSampleTail && r.p.pc != P.PCountDrop
    ensures r.p.pc == P.PIdle ==>
      var t := P.Do(r, P.Push(event, true));
      && P.EventOf(r, P.Push(event, true)) == P.Silent
      && t.p.pc == P.PLoadHead && t.p.item == event && t.c == r.c
    ensures r.p.pc != P.PIdle ==>
      var t, e := P.Do(r, P.Produce), P.EventOf(r, P.Produce);
      && (e == P.Silent || e.PushRefused? || e == P.Pushed(r.p.item))
      && (t.p.pc == P.PIdle <==> e != P.Silent)
      && t.p.item == r.p.item && t.p.pc != P.PSampleTail && t.p.pc != P.PCountDrop && t.c == r.c
  {
  }

  lemma PopPlaces(r: P.Ring)
    requires P.Shape(r)
    ensures var t, e := P.Do(r, P.Consume), P.EventOf(r, P.Consume);
      && (e == P.Silent || e.PopReturned? || e.PopEmpty? || e.PopBusy?)
      && (t.c.pc == P.CIdle <==> e != P.Silent) && t.p == r.p
  {
  }

  /** How many accesses the push or the pop still takes, at most, before its outcome is there. */
  function Left(s: System, a: C.Action): nat {
    match a
    case CallbackStep => if s.ring.p.pc == P.PIdle then WordCount(s.ring.size) + 9 else G.PushLeft(s.ring)
    case LoopStep => if s.ring.c.pc == P.CIdle then WordCount(s.ring.size) + 8 else G.PopLeft(s.ring)
    case _ => 0
  }

  /** An event that is not of the ring's item size is not offered. */
  predicate Misfit(s: System, a: C.Action) {
    a.Enqueue? && |a.event| != s.ring.size
  }

  /** A step of the system is the same step of the capture protocol, or one access nearer to it. */
  ghost predicate Simulates(s: System, t: System, a: C.Action) {
    && s.ring.tail <= s.ring.head <= |s.ring.log| && t.ring.tail <= t.ring.head <= |t.ring.log|
    && (Abstract(t) == C.Do(Abstract(s), a)
        || (Abstract(t) == Abstract(s) && (Left(t, a) < Left(s, a) || Misfit(s, a))))
  }

  /** What the capture protocol does in one step of pushing, and in one of popping. */
  lemma CapturePushes(c: C.Capture)
    requires c.tap.pc == C.CbPush && c.tap.event.Some?
    ensures C.Do(c, C.CallbackStep) ==
      if |c.channel.queue| < c.capacity
      then c.(channel := c.channel.Push(c.tap.event.value), tap := c.tap.(pc := C.CbIdle))
      else c.(tap := c.tap.(refused := c.tap.refused + 1, pc := C.CbStoreFlag))
  {
  }

  lemma CapturePops(c: C.Capture)
    requires Popping(c.loop)
    ensures C.Do(c, C.LoopStep) == c.(channel := c.channel.Pop(), loop := AfterPop(c.loop, c.channel.queue != []))
  {
  }

  lemma PopOfNothing(channel: C.Channel)
    requires channel.queue == []
    ensures channel.Pop() == channel
  {
  }

  lemma PushNearer(r: P.Ring, event: Item)
    requires Inv(r) && LosslessInv(r) && |event| == r.size
    ensures r.p.pc != P.PIdle ==> G.PushLeft(P.Do(r, P.Produce)) < G.PushLeft(r)
    ensures r.p.pc == P.PIdle ==> G.PushLeft(P.Do(r, P.Push(event, true))) <= WordCount(r.size) + 8
  {
    G.PushIsWaitFree(r, P.Produce);
    if r.p.pc == P.PIdle {
      StepKeepsInv(r, P.Push(event, true));
      G.PushIsWaitFree(P.Do(r, P.Push(event, true)), P.Produce);
      PushKeepsSize(r, event);
    }
  }

  lemma PushKeepsSize(r: P.Ring, event: Item)
    requires P.Shape(r)
    ensures P.Do(r, P.Push(event, true)).size == r.size
  {
  }

  lemma PopNearer(r: P.Ring)
    requires Inv(r) && LosslessInv(r)
    ensures r.c.pc != P.CIdle ==> G.PopLeft(P.Do(r, P.Consume)) < G.PopLeft(r)
    ensures r.c.pc == P.CIdle ==> G.PopLeft(P.Do(r, P.Consume)) <= WordCount(r.size) + 7
  {
    G.PopIsWaitFree(r, P.Consume);
    StepKeepsInv(r, P.Consume);
    StepKeepsLossless(r, P.Consume);
    StepKeepsCapacity(r, P.Consume);
    G.PopIsWaitFree(P.Do(r, P.Consume), P.Consume);
  }

  lemma BeginSimulates(s: System)
    requires Consistent(s) && s.tap.pc == C.CbPush && s.ring.p.pc == P.PIdle
    ensures Consistent(Callback(s)) && Simulates(s, Callback(s), C.CallbackStep)
  {
    var r, event := s.ring, s.tap.event.value;
    PushPlaces(r, event);
    PushNearer(r, event);
    ChannelStep(r, P.Push(event, true));
    ChannelAfter(r, P.Push(event, true));
    hide Inv, LosslessInv, P.Do, P.EventOf, FifoStep, ChannelOf, C.Do, C.Channel.Push, C.Channel.Pop, G.PushLeft, G.PopLeft;
  }

  lemma AccessSimulates(s: System)
    requires Consistent(s) && s.tap.pc == C.CbPush && s.ring.p.pc != P.PIdle
    ensures Consistent(Callback(s)) && Simulates(s, Callback(s), C.CallbackStep)
  {
    var r, event := s.ring, s.tap.event.value;
    PushPlaces(r, event);
    PushNearer(r, event);
    ChannelStep(r, P.Produce);
    ChannelAfter(r, P.Produce);
    CapturePushes(Abstract(s));
    hide Inv, LosslessInv, P.Do, P.EventOf, FifoStep, ChannelOf, C.Do, C.Channel.Push, C.Channel.Pop, G.PushLeft, G.PopLeft;
  }

  lemma PushSimulates(s: System)
    requires Consistent(s) && s.tap.pc == C.CbPush
    ensures Consistent(Callback(s)) && Simulates(s, Callback(s), C.CallbackStep)
  {
    hide *;
    if s.ring.p.pc == P.PIdle {
      BeginSimulates(s);
    } else {
      AccessSimulates(s);
    }
  }

  lemma PopSimulates(s: System)
    requires Consistent(s) && Popping(s.loop)
    ensures Consistent(Loop(s)) && Simulates(s, Loop(s), C.LoopStep)
  {
    PopPlaces(s.ring);
    PopNearer(s.ring);
    ChannelStep(s.ring, P.Consume);
    ChannelAfter(s.ring, P.Consume);
    CapturePops(Abstract(s));
    hide Inv, LosslessInv, P.Do, P.EventOf, FifoStep, ChannelOf, C.Do, C.Channel.Push, C.Channel.Pop, G.PushLeft, G.PopLeft;
    if P.EventOf(s.ring, P.Consume) == P.PopEmpty {
      PopOfNothing(ChannelOf(s.ring));
    }
  }

  lemma EmptyTestSimulates(s: System)
    requires Consistent(s) && s.loop == C.LTestEmpty
    ensures Consistent(Loop(s)) && Simulates(s, Loop(s), C.LoopStep)
  {
    Placed(s.ring);
    hide Inv, LosslessInv, C.Callback, ItemsOf;
    assert Live(s.ring) == [] <==> s.ring.head == s.ring.tail;
  }

  /** Steps that touch no channel are the same beside any channel. */
  lemma LoopBesideAny(s: System, channel: C.Channel)
    requires !Popping(s.loop) && s.loop != C.LTestEmpty
    ensures var t := C.Loop(Beside(s, channel));
      && t == Beside(WithControl(s, C.Loop(Beside(s, NO_CHANNEL))), channel)
      && t.tap == s.tap && (Popping(t.loop) ==> s.loop == C.LTop || s.loop == C.LTestResync || s.loop == C.LStorePending)
  {
  }

  lemma CallbackBesideAny(s: System, channel: C.Channel)
    requires s.tap.pc != C.CbPush
    ensures var t := C.Callback(Beside(s, channel));
      && t == Beside(WithControl(s, C.Callback(Beside(s, NO_CHANNEL))), channel)
      && t.loop == s.loop && t.tap.pc != C.CbPush
  {
  }

  lemma QuietLoopSimulates(s: System)
    requires Consistent(s) && !Popping(s.loop) && s.loop != C.LTestEmpty
    ensures Consistent(Loop(s)) && Simulates(s, Loop(s), C.LoopStep)
  {
    Placed(s.ring);
    LoopBesideAny(s, ChannelOf(s.ring));
    hide Inv, LosslessInv, C.Loop, C.Callback, ChannelOf;
  }

  lemma QuietCallbackSimulates(s: System)
    requires Consistent(s) && s.tap.pc != C.CbPush
    ensures Consistent(Callback(s)) && Simulates(s, Callback(s), C.CallbackStep)
  {
    Placed(s.ring);
    CallbackBesideAny(s, ChannelOf(s.ring));
    hide Inv, LosslessInv, C.Loop, C.Callback, ChannelOf;
  }

  lemma StepSimulates(s: System, a: C.Action)
    requires Consistent(s)
    ensures Consistent(Do(s, a)) && Simulates(s, Do(s, a), a)
  {
    Placed(s.ring);
    match a
    case CallbackStep =>
      if s.tap.pc == C.CbPush { PushSimulates(s); } else { QuietCallbackSimulates(s); }
    case LoopStep =>
      if Popping(s.loop) { PopSimulates(s); }
      else if s.loop == C.LTestEmpty { EmptyTestSimulates(s); }
      else { QuietLoopSimulates(s); }
    case Enqueue(_) => hide Inv, LosslessInv, ChannelOf;
    case Stop => hide Inv, LosslessInv, ChannelOf;
  }

  lemma InitConsistent(capacity: nat, size: nat)
    requires 0 < capacity < U64_SIZE && 0 < size
    ensures Consistent(Init(capacity, size)) && Abstract(Init(capacity, size)) == C.Init(capacity)
  {
    InitInv(capacity, size);
  }

  /** The abstract state of `t` is reached from that of `s` in the capture protocol. */
  ghost predicate CaptureReaches(s: System, t: System) {
    && s.ring.tail <= s.ring.head <= |s.ring.log| && t.ring.tail <= t.ring.head <= |t.ring.log|
    && exists steps :: C.Run(Abstract(s), steps) == Abstract(t)
  }

  lemma CaptureReachesOneMore(s: System, t: System, a: C.Action)
    requires P.Shape(t.ring) && CaptureReaches(s, t) && Simulates(t, Do(t, a), a)
    ensures CaptureReaches(s, Do(t, a))
  {
    hide Do, C.Do, Abstract;
    var steps :| C.Run(Abstract(s), steps) == Abstract(t);
    if Abstract(Do(t, a)) != Abstract(t) {
      assert (steps + [a])[..|steps|] == steps;
      assert C.Run(Abstract(s), steps + [a]) == Abstract(Do(t, a));
    }
  }

  /** Every run over the ring is a run of the capture protocol over the channel the ring stands for. */
  lemma {:induction false} RunsAreCaptureRuns(s: System, schedule: seq<C.Action>)
    requires Consistent(s)
    ensures Consistent(Run(s, schedule)) && CaptureReaches(s, Run(s, schedule))
  {
    if schedule == [] {
      Placed(s.ring);
      assert C.Run(Abstract(s), []) == Abstract(s);
    } else {
      var n := |schedule| - 1;
      RunsAreCaptureRuns(s, schedule[..n]);
      var t := Run(s, schedule[..n]);
      StepSimulates(t, schedule[n]);
      assert Run(s, schedule) == Do(t, schedule[n]);
      hide *;
      ConsistentShape(t);
      CaptureReachesOneMore(s, t, schedule[n]);
    }
  }

  lemma ConsistentShape(s: System)
    requires Consistent(s)
    ensures P.Shape(s.ring)
  {
  }

  /**
   With every access of the ring interleaved: at each loop head the bitmap is stale exactly while a
   recovery is pending, a pending recovery still has the flag up, and no resynchronization is half
   done.
   */
  lemma SaturationIsNotForgotten(capacity: nat, size: nat, schedule: seq<C.Action>)
    requires 0 < capacity < U64_SIZE && 0 < size
    ensures var s := Run(Init(capacity, size), schedule);
      s.loop == C.LTop ==>
        && (s.resync.stale <==> s.resync.state == C.RecoveryPending)
        && (s.resync.state == C.RecoveryPending ==> s.saturated)
        && s.resync.state != C.Resynchronizing && s.resync.begun == s.resync.count
  {
    InitConsistent(capacity, size);
    RunsAreCaptureRuns(Init(capacity, size), schedule);
    var s := Run(Init(capacity, size), schedule);
    hide Run, Consistent, C.Run, C.Init, Init, Abstract;
    var steps :| C.Run(C.Init(capacity), steps) == Abstract(s);
    C.SaturationIsNotForgotten(capacity, steps);
    AbstractShows(s);
  }

  /** With every access of the ring interleaved: the state events popped and those in the ring are the ones pushed, in order. */
  lemma StateEventsConserved(capacity: nat, size: nat, schedule: seq<C.Action>)
    requires 0 < capacity < U64_SIZE && 0 < size
    ensures var r := Run(Init(capacity, size), schedule).ring; var tap := Run(Init(capacity, size), schedule).tap;
      && r.tail <= r.head <= |r.log| && r.head - r.tail <= capacity
      && ItemsOf(r.popped) + Live(r) == r.log[..r.head]
      && tap.saturatedCount <= tap.refused <= tap.saturatedCount + 1
  {
    InitConsistent(capacity, size);
    RunsAreCaptureRuns(Init(capacity, size), schedule);
    var s := Run(Init(capacity, size), schedule);
    hide Run, Consistent, C.Run, C.Init, Init, Abstract, ItemsOf, Live;
    var steps :| C.Run(C.Init(capacity), steps) == Abstract(s);
    C.StateEventsConserved(capacity, steps);
    C.InitKeepsCapacity(capacity, steps);
    AbstractShows(s);
  }

  lemma AbstractShows(s: System)
    requires s.ring.tail <= s.ring.head <= |s.ring.log|
    ensures var c := Abstract(s);
      && c.channel.queue == Live(s.ring) && c.channel.accepted == s.ring.log[..s.ring.head]
      && c.channel.processed == ItemsOf(s.ring.popped)
      && c.tap == s.tap && c.resync == s.resync && c.saturated == s.saturated && c.loop == s.loop && c.running == s.running
      && |c.channel.queue| == s.ring.head - s.ring.tail
  {
    hide ItemsOf;
  }

  predicate Good(s: System) {
    Consistent(s) && s.ring.tail <= s.ring.head <= |s.ring.log| && C.Inv(Abstract(s))
  }

  /** Every state reached satisfies the invariant on which the answer to a refusal rests. */
  lemma CaptureInvariantHolds(capacity: nat, size: nat, schedule: seq<C.Action>)
    requires 0 < capacity < U64_SIZE && 0 < size
    ensures var s := Run(Init(capacity, size), schedule);
      Good(s)
  {
    InitConsistent(capacity, size);
    assert C.Inv(C.Init(capacity));
    hide Run, Consistent, C.Run, Init, Abstract, C.Inv, C.Init, P.Shape;
    RunsAreCaptureRuns(Init(capacity, size), schedule);
    var s := Run(Init(capacity, size), schedule);
    var steps :| C.Run(C.Init(capacity), steps) == Abstract(s);
    C.RunKeepsInv(C.Init(capacity), steps);
  }

  /**
   With every access of the ring interleaved: after a refusal made while no recovery is pending and
   the loop has not begun one, the flag is up or about to go up until a new resynchronization begins.
   */
  lemma RefusalIsKept(s: System, schedule: seq<C.Action>)
    requires Good(s) && P.Shape(s.ring)
    requires C.BeforeDecision(Abstract(s)) && s.tap.pc == C.CbStoreFlag
    ensures var t := Run(s, schedule);
      t.resync.begun > s.resync.begun || t.saturated || t.tap.pc == C.CbStoreFlag
  {
    RunsAreCaptureRuns(s, schedule);
    var t := Run(s, schedule);
    AbstractShows(s);
    AbstractShows(t);
    hide Run, Consistent, C.Run, C.Inv, C.BeforeDecision, Abstract, ItemsOf, Live;
    var steps :| C.Run(Abstract(s), steps) == Abstract(t);
    C.RefusalIsKept(Abstract(s), steps);
  }

  // ---- the loop hands events on over the ring ------------------------------------------------------------

  /** The loop running by itself. */
  function Looped(s: System, n: nat): System
    requires P.Shape(s.ring)
    decreases n
  {
    if n == 0 then s else Looped(Do(s, C.LoopStep), n - 1)
  }

  lemma StepKeepsGood(s: System, a: C.Action)
    requires Good(s)
    ensures P.Shape(s.ring) && Good(Do(s, a)) && Simulates(s, Do(s, a), a)
  {
    ConsistentShape(s);
    StepSimulates(s, a);
    hide Do, C.Do, Consistent, C.Inv, Abstract;
    if !Misfit(s, a) || Abstract(Do(s, a)) != Abstract(s) {
      C.StepKeepsInv(Abstract(s), a);
    }
  }

  /** The loop has not ended, and what has been published is the same. */
  predicate Onward(s: System, t: System) {
    Good(t) && t.loop != C.LExit && s.ring.head == t.ring.head <= |s.ring.log|
    && t.ring.head <= |t.ring.log| && t.ring.log[..t.ring.head] == s.ring.log[..s.ring.head]
  }

  /** With an event waiting, each access of the loop brings its pop nearer. */
  lemma LoopComesNearer(s: System)
    requires Onward(s, s) && s.ring.tail < s.ring.head
    ensures P.Shape(s.ring)
    ensures var t := Do(s, C.LoopStep);
      && Onward(s, t) && Onward(t, t)
      && (t.ring.head - t.ring.tail < s.ring.head - s.ring.tail
          || (t.ring.head - t.ring.tail == s.ring.head - s.ring.tail
              && (H.UntilPop(t.loop) < H.UntilPop(s.loop)
                  || (t.loop == s.loop && Left(t, C.LoopStep) < Left(s, C.LoopStep)))))
  {
    StepKeepsGood(s, C.LoopStep);
    var t := Do(s, C.LoopStep);
    AbstractShows(s);
    AbstractShows(t);
    H.PopComesNearer(Abstract(s));
    assert C.Do(Abstract(s), C.LoopStep) == C.Loop(Abstract(s));
    assert t.ring.tail <= t.ring.head <= |t.ring.log|;
    hide Do, C.Do, C.Loop, Good, Abstract, Left, Live, ItemsOf, H.UntilPop, P.Shape;
  }

  /** How far the loop is from having emptied the ring: events waiting, steps to the pop, accesses of it. */
  datatype Far = Far(waiting: nat, steps: nat, accesses: nat)

  function FarOf(s: System): Far {
    Far(if s.ring.tail <= s.ring.head then s.ring.head - s.ring.tail else 0, H.UntilPop(s.loop), Left(s, C.LoopStep))
  }

  lemma FarFalls(s: System)
    requires Onward(s, s) && s.ring.tail < s.ring.head
    ensures P.Shape(s.ring)
    ensures var t := Do(s, C.LoopStep); var a, b := FarOf(t), FarOf(s);
      && Onward(s, t) && Onward(t, t)
      && (a.waiting < b.waiting
          || (a.waiting == b.waiting && (a.steps < b.steps || (a.steps == b.steps && a.accesses < b.accesses))))
  {
    LoopComesNearer(s);
    OnwardPlaced(Do(s, C.LoopStep));
    hide Do, Onward, P.Shape, Left, H.UntilPop;
  }

  lemma {:induction false} EmptiesRing(s: System, far: Far) returns (n: nat)
    requires Onward(s, s) && P.Shape(s.ring) && far == FarOf(s)
    ensures var t := Looped(s, n); Onward(s, t) && t.ring.tail == t.ring.head
    decreases far.waiting, far.steps, far.accesses
  {
    hide *;
    OnwardPlaced(s);
    if s.ring.tail == s.ring.head {
      n := 0;
      LoopedUnfolds(s, 0);
    } else {
      FarFalls(s);
      var m := EmptiesRing(Do(s, C.LoopStep), FarOf(Do(s, C.LoopStep)));
      n := m + 1;
      LoopedUnfolds(s, n);
      OnwardOn(s, Do(s, C.LoopStep), Looped(s, n));
    }
  }

  lemma OnwardOn(s: System, t: System, u: System)
    requires Onward(s, t) && Onward(t, u)
    ensures Onward(s, u)
  {
    hide Good;
  }

  lemma LoopedUnfolds(s: System, n: nat)
    requires P.Shape(s.ring)
    ensures Looped(s, n) == if n == 0 then s else Looped(Do(s, C.LoopStep), n - 1)
  {
  }

  lemma OnwardPlaced(s: System)
    requires Onward(s, s)
    ensures s.ring.tail <= s.ring.head
  {
  }

  /**
   Over the ring itself, whatever the callback is in the middle of: unless it has ended, the loop's
   own accesses hand on every event published so far.
   */
  lemma LoopHandsOn(s: System)
    requires Good(s) && s.loop != C.LExit
    ensures P.Shape(s.ring)
    ensures exists n: nat :: ItemsOf(Looped(s, n).ring.popped) == s.ring.log[..s.ring.head]
  {
    ConsistentShape(s);
    assert Onward(s, s);
    var n := EmptiesRing(s, FarOf(s));
    var t := Looped(s, n);
    hide Looped;
    AbstractShows(t);
    assert t.ring.tail <= t.ring.head;
    assert C.QueueInv(Abstract(t));
    assert Live(t.ring) == [];
    assert ItemsOf(t.ring.popped) + [] == ItemsOf(t.ring.popped);
  }
}
