/** What becomes of the events: which are let in, and that the loop, running on or told to stop, hands them on. */
module CaptureProgress {
  import opened Common
  import opened AtomicPayloads
  import opened CaptureProtocol

  // ---- which events are let in ---------------------------------------------------------------------

  /** Call `i` offered `event`, and the callback has not made a step since. */
  predicate Offered(capacity: nat, schedule: seq<Action>, i: nat, event: Item) {
    && i < |schedule| && schedule[i] == Enqueue(event)
    && Run(Init(capacity), schedule[..i]).tap.pc == CbIdle
    && CallbackStep !in schedule[i + 1..]
  }

  lemma StepOffers(s: Capture, a: Action, event: Item)
    ensures s.tap.pc == CbIdle ==> Do(s, Enqueue(event)).tap == s.tap.(pc := CbPush, event := Some(event))
    ensures a != CallbackStep && s.tap.pc == CbPush ==> Do(s, a).tap == s.tap
  {
  }

  lemma OfferedBefore(capacity: nat, schedule: seq<Action>, i: nat, event: Item)
    requires Offered(capacity, schedule, i, event) && i < |schedule| - 1
    ensures Offered(capacity, schedule[..|schedule| - 1], i, event) && schedule[|schedule| - 1] != CallbackStep
  {
    var n := |schedule| - 1;
    hide Run;
    assert schedule[..n][..i] == schedule[..i];
    assert schedule[i + 1..] == schedule[..n][i + 1..] + [schedule[n]];
  }

  /** An offered event is the one the callback is about to push. */
  lemma {:induction false} OfferedIsPushed(capacity: nat, schedule: seq<Action>, i: nat, event: Item)
    requires Offered(capacity, schedule, i, event)
    ensures Run(Init(capacity), schedule).tap.pc == CbPush && Run(Init(capacity), schedule).tap.event == Some(event)
  {
    hide Do;
    var n := |schedule| - 1;
    StepOffers(Run(Init(capacity), schedule[..n]), schedule[n], event);
    if i < n {
      OfferedBefore(capacity, schedule, i, event);
      OfferedIsPushed(capacity, schedule[..n], i, event);
    }
  }

  /**
   In every interleaving an event offered by the system is accepted if and only if fewer than
   `capacity` events wait when the callback pushes; otherwise it is refused, and the callback's
   next two steps raise the flag and count the refusal.
   */
  lemma AcceptedIffRoom(capacity: nat, schedule: seq<Action>, i: nat, event: Item)
    requires Offered(capacity, schedule, i, event)
    ensures var s := Run(Init(capacity), schedule);
      var t := Do(s, CallbackStep);
      && t.channel.accepted == s.channel.accepted + (if |s.channel.queue| < capacity then [event] else [])
      && t.tap.refused == s.tap.refused + (if |s.channel.queue| < capacity then 0 else 1)
      && (|s.channel.queue| == capacity ==>
            var u := Do(Do(t, CallbackStep), CallbackStep);
            u.saturated && u.tap.saturatedCount == u.tap.refused && u.tap.pc == CbIdle && u.channel == s.channel)
  {
    OfferedIsPushed(capacity, schedule, i, event);
    RunKeepsInv(Init(capacity), schedule);
    RunKeepsCapacity(Init(capacity), schedule);
    hide Run, RecoveryInv;
  }

  // ---- the loop hands events on ----------------------------------------------------------------------

  /** How many steps the loop is from taking a state event, when one waits. */
  function UntilPop(pc: LoopPc): nat {
    match pc
    case LPopState => 0 case LDrain => 0 case LFinalDrain => 0
    case LTop => 1 case LClearFlag => 2 case LStoreRecovered => 3 case LClearStale => 4 case LConfirm => 5
    case LTestPending => 6 case LTestEmpty => 7
    case LStorePending => 1 case LCountResync => 2 case LStoreStale => 3 case LStoreTruth => 4
    case LStoreResynchronizing => 5 case LTestResync => 6 case LTestFlag => 7 case LPopData => 8
    case LExit => 0
  }

  lemma PopComesNearer(s: Capture)
    requires s.loop != LExit && s.channel.queue != []
    ensures var t := Loop(s);
      && t.loop != LExit && t.channel.accepted == s.channel.accepted
      && (t.channel.queue == s.channel.queue[1..] || (t.channel == s.channel && UntilPop(t.loop) < UntilPop(s.loop)))
  {
  }

  lemma {:induction false} EmptiesQueue(s: Capture) returns (n: nat)
    requires Inv(s) && s.loop != LExit
    ensures var t := Looped(s, n);
      t.channel.queue == [] && t.channel.processed == t.channel.accepted == s.channel.accepted
    decreases |s.channel.queue|, UntilPop(s.loop)
  {
    hide RecoveryInv;
    if s.channel.queue == [] {
      n := 0;
      assert s.channel.processed + [] == s.channel.processed;
    } else {
      PopComesNearer(s);
      StepKeepsInv(s, LoopStep);
      assert Do(s, LoopStep) == Loop(s);
      hide Loop, QueueInv, UntilPop;
      var m := EmptiesQueue(Loop(s));
      n := m + 1;
    }
  }

  /** Wherever the loop stands, unless it has ended, its own steps hand on every event accepted so far. */
  lemma LoopHandsOn(s: Capture)
    requires Inv(s) && s.loop != LExit
    ensures exists n :: Run(s, LoopSteps(n)).channel.processed == s.channel.accepted
  {
    hide *;
    var n := EmptiesQueue(s);
    LoopedIsRun(s, n);
  }

  // ---- the end of the loop ---------------------------------------------------------------------------

  /** How many steps the loop is from its end, once it has been told to stop and no event waits. */
  function UntilExit(pc: LoopPc): nat {
    match pc
    case LExit => 0 case LFinalDrain => 1 case LTop => 2 case LClearFlag => 3 case LStoreRecovered => 4
    case LClearStale => 5 case LConfirm => 6 case LTestPending => 7 case LTestEmpty => 8 case LDrain => 9
    case LStorePending => 10 case LCountResync => 11 case LStoreStale => 12 case LStoreTruth => 13
    case LStoreResynchronizing => 14 case LTestResync => 15 case LTestFlag => 16 case LPopData => 17 case LPopState => 18
  }

  lemma ExitComesNearer(s: Capture)
    requires s.loop != LExit && !s.running
    ensures var t := Loop(s);
      && !t.running && t.channel.accepted == s.channel.accepted
      && (|t.channel.queue| < |s.channel.queue| || (t.channel == s.channel && UntilExit(t.loop) < UntilExit(s.loop)))
      && (t.loop == LExit ==> t.channel.queue == [])
  {
  }

  lemma {:induction false} ReachesExit(s: Capture) returns (n: nat)
    requires Inv(s) && s.loop != LExit && !s.running
    ensures var t := Looped(s, n);
      t.loop == LExit && t.channel.queue == [] && t.channel.processed == t.channel.accepted == s.channel.accepted
    decreases |s.channel.queue|, UntilExit(s.loop)
  {
    hide RecoveryInv;
    ExitComesNearer(s);
    StepKeepsInv(s, LoopStep);
    assert Do(s, LoopStep) == Loop(s);
    var t := Loop(s);
    hide Loop, UntilExit;
    if t.loop == LExit {
      assert t.channel.processed + [] == t.channel.processed;
      n := 1;
      assert Looped(t, 0) == t;
    } else {
      hide QueueInv;
      var m := ReachesExit(t);
      n := m + 1;
    }
  }

  /** Told to stop, the loop by itself hands on every event accepted so far and ends. */
  lemma StoppedLoopEnds(s: Capture)
    requires Inv(s) && s.loop != LExit && !s.running
    ensures exists n :: var t := Run(s, LoopSteps(n)); t.loop == LExit && t.channel.processed == s.channel.accepted
  {
    hide *;
    var n := ReachesExit(s);
    LoopedIsRun(s, n);
  }

  /** The step after the first `k` ended the loop. */
  predicate EndedAt(capacity: nat, schedule: seq<Action>, k: nat) {
    && k < |schedule|
    && Run(Init(capacity), schedule[..k]).loop != LExit && Run(Init(capacity), schedule[..k + 1]).loop == LExit
  }

  /** The accepted events when the loop ended are those handed on. */
  predicate HandedOnUntil(capacity: nat, schedule: seq<Action>, k: nat)
    requires k < |schedule|
  {
    Run(Init(capacity), schedule).channel.processed == Run(Init(capacity), schedule[..k + 1]).channel.accepted
  }

  lemma LastStep(s: Capture, a: Action)
    requires Inv(s) && Do(s, a).loop == LExit
    ensures s.loop != LExit ==> Do(s, a).channel.processed == Do(s, a).channel.accepted == s.channel.accepted
    ensures s.loop == LExit ==> Do(s, a).channel.processed == s.channel.processed
  {
    hide RecoveryInv;
    assert s.channel.processed + [] == s.channel.processed;
  }

  /**
   In every run in which the loop has ended, exactly the events accepted before its end have been
   handed on.  So an event accepted later is not: the tap is removed only after the loop has ended.
   */
  lemma {:induction false} EndMeansHandedOn(capacity: nat, schedule: seq<Action>)
    requires Run(Init(capacity), schedule).loop == LExit
    ensures exists k: nat :: EndedAt(capacity, schedule, k) && HandedOnUntil(capacity, schedule, k)
  {
    var n := |schedule| - 1;
    var before := Run(Init(capacity), schedule[..n]);
    RunKeepsInv(Init(capacity), schedule[..n]);
    assert schedule[..n + 1] == schedule;
    LastStep(before, schedule[n]);
    hide Do, Inv;
    if before.loop != LExit {
      assert EndedAt(capacity, schedule, n) && HandedOnUntil(capacity, schedule, n);
    } else {
      EndMeansHandedOn(capacity, schedule[..n]);
      var k: nat :| EndedAt(capacity, schedule[..n], k) && HandedOnUntil(capacity, schedule[..n], k);
      assert schedule[..n][..k] == schedule[..k] && schedule[..n][..k + 1] == schedule[..k + 1];
      assert EndedAt(capacity, schedule, k) && HandedOnUntil(capacity, schedule, k);
    }
  }

  lemma {:induction false} EndedStays(s: Capture, more: seq<Action>)
    requires s.loop == LExit
    ensures var t := Run(s, more); t.loop == LExit && t.channel.processed == s.channel.processed
  {
    if more != [] {
      EndedStays(s, more[..|more| - 1]);
    }
  }

  /** An accepted event that no continuation hands on. */
  ghost predicate Stranded(s: Capture, event: Item) {
    s.loop == LExit && s.channel.accepted == [event] && forall more :: Run(s, more).channel.processed == []
  }

  /** And it happens: the loop is told to stop, ends, and then an event arrives and is accepted. */
  lemma LateEventIsStranded(capacity: nat, event: Item)
    requires 0 < capacity
    ensures exists schedule :: Stranded(Run(Init(capacity), schedule), event)
  {
    var s0 := Init(capacity);
    RunTwo(s0, Stop, LoopStep);
    var s2 := Run(s0, [Stop, LoopStep]);
    RunTwo(s2, LoopStep, Enqueue(event));
    var s4 := Run(s2, [LoopStep, Enqueue(event)]);
    RunOne(s4, CallbackStep);
    var s5 := Do(s4, CallbackStep);
    assert s5.loop == LExit && s5.channel == Channel([event], [event], []);
    hide Run, Do;
    RunConcat(s0, [Stop, LoopStep], [LoopStep, Enqueue(event)]);
    RunConcat(s0, [Stop, LoopStep] + [LoopStep, Enqueue(event)], [CallbackStep]);
    forall more
      ensures Run(s5, more).channel.processed == []
    {
      EndedStays(s5, more);
    }
    assert Stranded(Run(s0, [Stop, LoopStep] + [LoopStep, Enqueue(event)] + [CallbackStep]), event);
  }
}
