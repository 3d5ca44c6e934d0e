/**
 Saturation and recovery as a concurrent protocol: the event callback refuses state events when
 the lossless ring is full, the capture loop drains the ring and resynchronizes.  The ring is the
 bounded queue it was shown to be; every other shared access is one step.
 */
module CaptureProtocol {
  import opened Common
  import opened AtomicPayloads

  datatype ResyncState = Idle | Resynchronizing | RecoveryPending | Recovered

  /** The callback inside the enqueueing of a state event. */
  datatype CallbackPc = CbIdle | CbPush | CbStoreFlag | CbCount

  /** The next shared access of the capture loop. */
  datatype LoopPc =
    | LTop | LPopState | LPopData | LTestFlag
    | LTestResync | LStoreResynchronizing | LStoreTruth | LStoreStale | LCountResync | LStorePending
    | LDrain | LTestEmpty | LTestPending | LConfirm | LClearStale | LStoreRecovered | LClearFlag
    | LFinalDrain | LExit

  /** The lossless ring; `accepted` and `processed` are histories of what went in and out. */
  datatype Channel = Channel(queue: seq<Item>, accepted: seq<Item>, processed: seq<Item>) {
    /** Taking the oldest state event, if any. */
    function Pop(): Channel {
      if queue == [] then this else Channel(queue[1..], accepted, processed + [queue[0]])
    }

    function Push(item: Item): Channel {
      Channel(queue + [item], accepted + [item], processed)
    }
  }

  /** The resynchronizer; `begun` is the history of how many resynchronizations were begun. */
  datatype Resync = Resync(state: ResyncState, stale: bool, count: nat, begun: nat)

  /** The callback and its saturation flag; `refused` is the history of refused events. */
  datatype Tap = Tap(pc: CallbackPc, event: Option<Item>, saturatedCount: nat, refused: nat)

  datatype Capture = Capture(
    capacity: nat, channel: Channel, saturated: bool, running: bool, tap: Tap, resync: Resync, loop: LoopPc)

  datatype Action = Enqueue(event: Item) | CallbackStep | LoopStep | Stop

  function Init(capacity: nat): Capture {
    Capture(capacity, Channel([], [], []), false, true, Tap(CbIdle, None, 0, 0), Resync(Idle, false, 0, 0), LTop)
  }

  function Callback(s: Capture): Capture {
    var tap := s.tap;
    match tap.pc
    case CbIdle => s
    case CbPush =>
      if tap.event.None? then s.(tap := tap.(pc := CbIdle))
      else if |s.channel.queue| < s.capacity
      then s.(channel := s.channel.Push(tap.event.value), tap := tap.(pc := CbIdle))
      else s.(tap := tap.(refused := tap.refused + 1, pc := CbStoreFlag))
    case CbStoreFlag => s.(saturated := true, tap := tap.(pc := CbCount))
    case CbCount => s.(tap := tap.(saturatedCount := tap.saturatedCount + 1, pc := CbIdle))
  }

  function Loop(s: Capture): Capture {
    var r := s.resync;
    match s.loop
    case LTop => s.(loop := if s.running then LPopState else LFinalDrain)
    case LPopState => s.(channel := s.channel.Pop(), loop := LPopData)
    case LPopData => s.(loop := LTestFlag)
    case LTestFlag => s.(loop := if s.saturated then LTestResync else LTop)
    case LTestResync => s.(loop := if r.state == Idle || r.state == Recovered then LStoreResynchronizing else LDrain)
    case LStoreResynchronizing => s.(resync := r.(state := Resynchronizing, begun := r.begun + 1), loop := LStoreTruth)
    case LStoreTruth => s.(loop := LStoreStale)
    case LStoreStale => s.(resync := r.(stale := true), loop := LCountResync)
    case LCountResync => s.(resync := r.(count := r.count + 1), loop := LStorePending)
    case LStorePending => s.(resync := r.(state := RecoveryPending), loop := LDrain)
    case LDrain => s.(channel := s.channel.Pop(), loop := if s.channel.queue == [] then LTestEmpty else LDrain)
    case LTestEmpty => s.(loop := if s.channel.queue == [] then LTestPending else LTop)
    case LTestPending => s.(loop := if r.state == RecoveryPending then LConfirm else LClearFlag)
    case LConfirm => s.(loop := if r.state == RecoveryPending then LClearStale else LClearFlag)
    case LClearStale => s.(resync := r.(stale := false), loop := LStoreRecovered)
    case LStoreRecovered => s.(resync := r.(state := Recovered), loop := LClearFlag)
    case LClearFlag => s.(saturated := false, loop := LTop)
    case LFinalDrain => s.(channel := s.channel.Pop(), loop := if s.channel.queue == [] then LExit else LFinalDrain)
    case LExit => s
  }

  function Do(s: Capture, a: Action): Capture {
    match a
    case Enqueue(event) => if s.tap.pc == CbIdle then s.(tap := s.tap.(pc := CbPush, event := Some(event))) else s
    case CallbackStep => Callback(s)
    case LoopStep => Loop(s)
    case Stop => s.(running := false)
  }

  function Run(s: Capture, schedule: seq<Action>): Capture {
    if schedule == [] then s else Do(Run(s, schedule[..|schedule| - 1]), schedule[|schedule| - 1])
  }

  // ---- what every interleaving keeps -------------------------------------------------------------

  predicate Rewriting(pc: LoopPc) {
    pc in {LStoreTruth, LStoreStale, LCountResync, LStorePending}
  }

  /** From the moment the loop has seen the flag until it clears it. */
  predicate Handling(pc: LoopPc) {
    Rewriting(pc) || pc in {LTestResync, LStoreResynchronizing, LDrain, LTestEmpty, LTestPending, LConfirm,
                            LClearStale, LStoreRecovered, LClearFlag}
  }

  predicate Inv(s: Capture) {
    RecoveryInv(s) && QueueInv(s)
  }

  predicate RecoveryInv(s: Capture) {
    && (s.resync.state == Resynchronizing <==> Rewriting(s.loop))
    && (s.loop in {LCountResync, LStorePending} ==> s.resync.stale)
    && (s.loop in {LStoreTruth, LStoreStale, LStoreRecovered} ==> !s.resync.stale)
    && (!Rewriting(s.loop) && s.loop != LStoreRecovered ==> (s.resync.stale <==> s.resync.state == RecoveryPending))
    && (Handling(s.loop) || s.resync.state == RecoveryPending ==> s.saturated)
    && (s.loop == LStoreResynchronizing ==> s.resync.state == Idle || s.resync.state == Recovered)
    && (s.loop in {LDrain, LTestEmpty, LTestPending, LConfirm, LClearStale, LStoreRecovered} ==> s.resync.state == RecoveryPending)
    && (s.loop == LClearFlag ==> s.resync.state == Recovered)
    && s.resync.begun == s.resync.count + (if s.loop in {LStoreTruth, LStoreStale, LCountResync} then 1 else 0)
  }

  predicate QueueInv(s: Capture) {
    && |s.channel.queue| <= s.capacity
    && s.channel.processed + s.channel.queue == s.channel.accepted
    && s.tap.refused == s.tap.saturatedCount + (if s.tap.pc in {CbStoreFlag, CbCount} then 1 else 0)
  }

  lemma LoopKeepsRecovery(s: Capture)
    requires RecoveryInv(s)
    ensures RecoveryInv(Loop(s))
  {
  }

  lemma LoopMovesChannel(s: Capture)
    ensures var t := Loop(s);
      t.capacity == s.capacity && t.tap == s.tap && (t.channel == s.channel || t.channel == s.channel.Pop())
  {
  }

  lemma LoopKeepsQueue(s: Capture)
    requires QueueInv(s)
    ensures QueueInv(Loop(s))
  {
    LoopMovesChannel(s);
    hide Loop;
    if s.channel.queue != [] {
      assert s.channel.queue == [s.channel.queue[0]] + s.channel.queue[1..];
    }
  }

  lemma StepKeepsInv(s: Capture, a: Action)
    requires Inv(s)
    ensures Inv(Do(s, a))
  {
    if a == LoopStep {
      hide RecoveryInv, QueueInv, Loop;
      LoopKeepsRecovery(s);
      LoopKeepsQueue(s);
    } else if a == CallbackStep && s.tap.pc == CbPush && s.tap.event.Some? {
      assert s.channel.processed + (s.channel.queue + [s.tap.event.value]) == s.channel.accepted + [s.tap.event.value];
    }
  }

  lemma {:induction false} RunKeepsInv(s: Capture, schedule: seq<Action>)
    requires Inv(s)
    ensures Inv(Run(s, schedule))
  {
    if schedule != [] {
      RunKeepsInv(s, schedule[..|schedule| - 1]);
      StepKeepsInv(Run(s, schedule[..|schedule| - 1]), schedule[|schedule| - 1]);
    }
  }

  /**
   In every run, whenever the loop is at its head: the bitmap is stale exactly while a recovery is
   pending, a pending recovery still has its flag up, and no resynchronization is half done.
   */
  lemma SaturationIsNotForgotten(capacity: nat, schedule: seq<Action>)
    ensures var s := Run(Init(capacity), schedule);
      s.loop == LTop ==>
        && (s.resync.stale <==> s.resync.state == RecoveryPending)
        && (s.resync.state == RecoveryPending ==> s.saturated)
        && s.resync.state != Resynchronizing
        && s.resync.begun == s.resync.count
  {
    RunKeepsInv(Init(capacity), schedule);
  }

  /** State events are handed on in order, each once, with no more than `capacity` waiting; refusals are all counted. */
  lemma StateEventsConserved(capacity: nat, schedule: seq<Action>)
    ensures var s := Run(Init(capacity), schedule);
      && s.channel.processed <= s.channel.accepted && s.channel.processed + s.channel.queue == s.channel.accepted
      && s.tap.saturatedCount <= s.tap.refused <= s.tap.saturatedCount + 1
  {
    RunKeepsInv(Init(capacity), schedule);
  }

  /** No more than `capacity` state events ever wait. */
  lemma InitKeepsCapacity(capacity: nat, schedule: seq<Action>)
    ensures |Run(Init(capacity), schedule).channel.queue| <= Run(Init(capacity), schedule).capacity == capacity
  {
    RunKeepsInv(Init(capacity), schedule);
    RunKeepsCapacity(Init(capacity), schedule);
  }

  lemma {:induction false} RunKeepsCapacity(s: Capture, schedule: seq<Action>)
    ensures Run(s, schedule).capacity == s.capacity
  {
    if schedule != [] {
      RunKeepsCapacity(s, schedule[..|schedule| - 1]);
      StepKeepsCapacity(Run(s, schedule[..|schedule| - 1]), schedule[|schedule| - 1]);
      hide Do;
    }
  }

  lemma StepKeepsCapacity(s: Capture, a: Action)
    ensures Do(s, a).capacity == s.capacity
  {
  }

  // ---- which refusals are answered by a resynchronization ----------------------------------------

  /**
   A flag raised here is still ahead of the loop's decision to resynchronize: no recovery is
   pending and the loop has not yet begun one.
   */
  predicate BeforeDecision(s: Capture) {
    && s.resync.state != RecoveryPending
    && s.loop in {LTop, LPopState, LPopData, LTestFlag, LTestResync, LStoreResynchronizing, LFinalDrain, LExit}
  }

  /** The loop running by itself. */
  function LoopSteps(n: nat): (schedule: seq<Action>) {
    if n == 0 then [] else LoopSteps(n - 1) + [LoopStep]
  }

  lemma RunLoop(s: Capture, n: nat)
    ensures Run(s, LoopSteps(n + 1)) == Loop(Run(s, LoopSteps(n)))
  {
    assert LoopSteps(n + 1)[..|LoopSteps(n)|] == LoopSteps(n);
  }

  /** How far the loop is from clearing the flag when nobody disturbs it. */
  function Distance(s: Capture): nat {
    |s.channel.queue| +
    match s.loop
    case LTop => 16 case LPopState => 15 case LPopData => 14 case LTestFlag => 13 case LTestResync => 12
    case LStoreResynchronizing => 11
    case LStoreTruth => 10 case LStoreStale => 9 case LCountResync => 8 case LStorePending => 7
    case LDrain => 6 case LTestEmpty => (if s.channel.queue == [] then 5 else 17) case LTestPending => 4 case LConfirm => 3
    case LClearStale => 2 case LStoreRecovered => 1 case LClearFlag => 0
    case _ => 18
  }

  /** The loop is past its decision, or will not decide again because a recovery is pending. */
  predicate PastDecision(s: Capture) {
    s.saturated && s.running && !BeforeDecision(s) && s.loop !in {LFinalDrain, LExit}
  }

  lemma PastDecisionStep(s: Capture)
    requires Inv(s) && PastDecision(s) && s.loop != LClearFlag
    ensures PastDecision(Loop(s)) && Distance(Loop(s)) < Distance(s)
    ensures Loop(s).resync.begun == s.resync.begun && Loop(s).tap == s.tap
  {
  }

  lemma {:induction false} ReachesClear(s: Capture, n: nat)
    requires Inv(Run(s, LoopSteps(n))) && PastDecision(Run(s, LoopSteps(n)))
    ensures exists m: nat :: var t := Run(s, LoopSteps(m));
      Forgotten(Run(s, LoopSteps(n)), t)
    decreases Distance(Run(s, LoopSteps(n)))
  {
    var u := Run(s, LoopSteps(n));
    RunLoop(s, n);
    if u.loop != LClearFlag {
      StepKeepsInv(u, LoopStep);
      PastDecisionStep(u);
      ReachesClear(s, n + 1);
    } else {
      var t := Run(s, LoopSteps(n + 1));
      assert Forgotten(u, t);
    }
  }

  /** `t` follows `s` with the flag down, no resynchronization begun in between, and the loop at its head. */
  predicate Forgotten(s: Capture, t: Capture) {
    !t.saturated && t.resync.begun == s.resync.begun && t.tap == s.tap && t.loop == LTop
  }

  /**
   Raised after the decision, while the loop keeps running, the flag can be lost: the loop alone
   clears it without beginning another resynchronization.
   */
  lemma LateFlagCanBeLost(s: Capture)
    requires Inv(s) && PastDecision(s)
    ensures exists m: nat :: Forgotten(s, Run(s, LoopSteps(m)))
  {
    assert Run(s, LoopSteps(0)) == s;
    ReachesClear(s, 0);
  }

  lemma {:induction false} RunConcat(s: Capture, first: seq<Action>, second: seq<Action>)
    ensures Run(s, first + second) == Run(Run(s, first), second)
    decreases |second|
  {
    hide Do;
    if second == [] {
      assert first + second == first;
    } else {
      var all := first + second;
      RunConcat(s, first, second[..|second| - 1]);
      assert all[..|all| - 1] == first + second[..|second| - 1];
    }
  }

  lemma RunOne(s: Capture, a: Action)
    ensures Run(s, [a]) == Do(s, a)
  {
    assert [a][..0] == [];
    assert Run(s, []) == s;
  }

  lemma RunTwo(s: Capture, a: Action, b: Action)
    ensures Run(s, [a, b]) == Do(Do(s, a), b)
  {
    hide Do;
    RunConcat(s, [a], [b]);
    assert [a] + [b] == [a, b];
    RunOne(s, a);
    RunOne(Do(s, a), b);
  }

  // ---- the answer to one refusal -------------------------------------------------------------------

  /** The callback is about to push a state event into a full ring, while the loop is running. */
  predicate AboutToRefuse(s: Capture) {
    && s.tap.pc == CbPush && s.tap.event.Some? && |s.channel.queue| == s.capacity
    && s.running && s.loop !in {LFinalDrain, LExit}
  }

  /** No resynchronization has begun since `s`, so the flag is up, or the callback is about to raise it. */
  predicate Kept(s: Capture, t: Capture) {
    t.resync.begun > s.resync.begun || t.saturated || t.tap.pc == CbStoreFlag
  }

  /** What holds from a refusal before the decision on, until a resynchronization begins. */
  predicate Awaiting(s: Capture, t: Capture) {
    || t.resync.begun > s.resync.begun
    || (t.resync.begun == s.resync.begun && BeforeDecision(t) && (t.saturated || t.tap.pc == CbStoreFlag))
  }

  lemma AwaitingStep(s: Capture, t: Capture, a: Action)
    requires RecoveryInv(t) && Awaiting(s, t)
    ensures Awaiting(s, Do(t, a))
  {
  }

  lemma {:induction false} RefusalIsKept(s: Capture, schedule: seq<Action>)
    requires Inv(s) && BeforeDecision(s) && (s.saturated || s.tap.pc == CbStoreFlag)
    ensures Awaiting(s, Run(s, schedule))
  {
    hide Do, RecoveryInv, QueueInv;
    if schedule != [] {
      RefusalIsKept(s, schedule[..|schedule| - 1]);
      RunKeepsInv(s, schedule[..|schedule| - 1]);
      AwaitingStep(s, Run(s, schedule[..|schedule| - 1]), schedule[|schedule| - 1]);
    }
  }

  /** Both remaining accesses of a refusal: the flag goes up and the refusal is counted. */
  lemma RefusalFinished(s: Capture)
    requires Inv(s) && s.tap.pc == CbStoreFlag
    ensures var t := Run(s, [CallbackStep, CallbackStep]);
      Inv(t) && t == s.(saturated := true, tap := s.tap.(pc := CbIdle, saturatedCount := s.tap.saturatedCount + 1))
  {
    RunTwo(s, CallbackStep, CallbackStep);
    RunKeepsInv(s, [CallbackStep, CallbackStep]);
  }

  /**
   Exactly which refused state events get a resynchronization of their own: in every continuation
   of the refusal the flag is up, or about to go up, until a new resynchronization begins, if and
   only if at the refusal no recovery is pending and the loop has not begun one.  Otherwise the
   flag can go up and come down again without any.
   */
  lemma RefusalAnsweredIff(s: Capture)
    requires Inv(s) && AboutToRefuse(s)
    ensures var refused := Callback(s);
      && refused.tap.refused == s.tap.refused + 1
      && (BeforeDecision(refused) <==> forall schedule: seq<Action> :: Kept(refused, Run(refused, schedule)))
  {
    var refused := Callback(s);
    assert Do(s, CallbackStep) == refused;
    StepKeepsInv(s, CallbackStep);
    hide Do, RecoveryInv, QueueInv;
    if BeforeDecision(refused) {
      forall schedule: seq<Action>
        ensures Kept(refused, Run(refused, schedule))
      {
        RefusalIsKept(refused, schedule);
      }
    } else {
      hide Kept, BeforeDecision, Run;
      RefusalCanBeForgotten(refused);
    }
  }

  lemma RefusalCanBeForgotten(s: Capture)
    requires Inv(s) && s.tap.pc == CbStoreFlag && s.running && s.loop !in {LFinalDrain, LExit} && !BeforeDecision(s)
    ensures exists schedule: seq<Action> :: !Kept(s, Run(s, schedule))
  {
    RaisedTooLate(s);
    hide *;
    var raised := Run(s, [CallbackStep, CallbackStep]);
    LateFlagCanBeLost(raised);
    var m: nat :| Forgotten(raised, Run(raised, LoopSteps(m)));
    RunConcat(s, [CallbackStep, CallbackStep], LoopSteps(m));
    ForgottenIsNotKept(s, raised, Run(raised, LoopSteps(m)));
    assert !Kept(s, Run(s, [CallbackStep, CallbackStep] + LoopSteps(m)));
  }

  lemma RaisedTooLate(s: Capture)
    requires Inv(s) && s.tap.pc == CbStoreFlag && s.running && s.loop !in {LFinalDrain, LExit} && !BeforeDecision(s)
    ensures var t := Run(s, [CallbackStep, CallbackStep]);
      Inv(t) && PastDecision(t) && t.resync == s.resync && t.tap.pc == CbIdle
  {
    RefusalFinished(s);
    hide Run, Inv;
  }

  lemma ForgottenIsNotKept(s: Capture, raised: Capture, t: Capture)
    requires Forgotten(raised, t) && raised.resync == s.resync && raised.tap.pc == CbIdle
    ensures !Kept(s, t)
  {
  }

  /** The loop is how many steps away from beginning a resynchronization? */
  function UntilBegun(pc: LoopPc): nat {
    match pc
    case LTop => 6 case LPopState => 5 case LPopData => 4 case LTestFlag => 3 case LTestResync => 2
    case LStoreResynchronizing => 1
    case _ => 0
  }

  /** The flag is up before the decision, and the loop is running. */
  predicate WillAnswer(s: Capture) {
    s.saturated && s.running && BeforeDecision(s) && s.loop !in {LFinalDrain, LExit}
  }

  lemma AnswerStep(s: Capture)
    requires RecoveryInv(s) && WillAnswer(s)
    ensures UntilBegun(s.loop) > 0
    ensures UntilBegun(s.loop) == 1 ==> Loop(s).resync.begun == s.resync.begun + 1
    ensures UntilBegun(s.loop) > 1 ==>
      WillAnswer(Loop(s)) && UntilBegun(Loop(s).loop) == UntilBegun(s.loop) - 1 && Loop(s).resync.begun == s.resync.begun
  {
  }

  /** The loop running by itself, from the front. */
  function Looped(s: Capture, n: nat): Capture
    decreases n
  {
    if n == 0 then s else Looped(Loop(s), n - 1)
  }

  lemma {:induction false} LoopedLast(s: Capture, n: nat)
    ensures Looped(s, n + 1) == Loop(Looped(s, n))
    decreases n
  {
    hide Loop;
    if n > 0 {
      LoopedLast(Loop(s), n - 1);
    }
  }

  lemma {:induction false} LoopedIsRun(s: Capture, n: nat)
    ensures Run(s, LoopSteps(n)) == Looped(s, n)
  {
    hide Loop;
    if n > 0 {
      LoopedIsRun(s, n - 1);
      LoopedLast(s, n - 1);
      RunLoop(s, n - 1);
    }
  }

  lemma {:induction false} Begins(s: Capture)
    requires Inv(s) && WillAnswer(s)
    ensures 1 <= UntilBegun(s.loop) <= 6
    ensures Looped(s, UntilBegun(s.loop)).resync.begun == s.resync.begun + 1
    decreases UntilBegun(s.loop)
  {
    AnswerStep(s);
    StepKeepsInv(s, LoopStep);
    assert Do(s, LoopStep) == Loop(s);
    hide Do, Loop, RecoveryInv, QueueInv, WillAnswer;
    var n := UntilBegun(s.loop);
    assert Looped(s, n) == Looped(Loop(s), n - 1);
    if n > 1 {
      Begins(Loop(s));
    }
  }

  /** And the answer comes: with the flag up before the decision, at most six steps of the loop alone begin a resynchronization. */
  lemma LoopAnswers(s: Capture)
    requires Inv(s) && WillAnswer(s)
    ensures exists n :: 1 <= n <= 6 && Run(s, LoopSteps(n)).resync.begun == s.resync.begun + 1
  {
    hide *;
    Begins(s);
    LoopedIsRun(s, UntilBegun(s.loop));
  }

  // ---- a run in which a refusal is forgotten ---------------------------------------------------------

  /** One event that fits into an empty ring of one, and one that is refused. */
  function PushTwo(event: Item): seq<Action> {
    [Enqueue(event), CallbackStep] + [Enqueue(event), CallbackStep] + [CallbackStep, CallbackStep]
  }

  lemma AfterPushTwo(s: Capture, event: Item)
    requires s.capacity == 1 && s.channel.queue == [] && s.tap.pc == CbIdle
    ensures var t := Run(s, PushTwo(event));
      && t.channel.queue == [event] && t.saturated && t.running == s.running && t.capacity == 1
      && t.tap.pc == CbIdle && t.tap.refused == s.tap.refused + 1 && t.resync == s.resync && t.loop == s.loop
  {
    RunTwo(s, Enqueue(event), CallbackStep);
    var one := Run(s, [Enqueue(event), CallbackStep]);
    RunTwo(one, Enqueue(event), CallbackStep);
    var two := Run(one, [Enqueue(event), CallbackStep]);
    RunTwo(two, CallbackStep, CallbackStep);
    RunConcat(s, [Enqueue(event), CallbackStep], [Enqueue(event), CallbackStep]);
    RunConcat(s, [Enqueue(event), CallbackStep] + [Enqueue(event), CallbackStep], [CallbackStep, CallbackStep]);
  }

  lemma FourLoops(s: Capture, n: nat)
    ensures Looped(s, n + 4) == Looped(Loop(Loop(Loop(Loop(s)))), n)
  {
    hide Loop;
    var s1 := Loop(s);
    var s2 := Loop(s1);
    assert Looped(s, n + 4) == Looped(s1, n + 3) == Looped(s2, n + 2);
    assert Looped(s2, n + 2) == Looped(Loop(s2), n + 1);
  }

  /** From the head of the loop to the decision, taking the one event that waits. */
  lemma ReachesDecision(s: Capture)
    requires s.loop == LTop && s.running && s.saturated && |s.channel.queue| == 1
    ensures Loop(Loop(Loop(Loop(s)))) == s.(channel := s.channel.Pop(), loop := LTestResync)
    ensures s.channel.Pop().queue == []
  {
    var s1 := Loop(s);
    assert s1 == s.(loop := LPopState);
    var s2 := Loop(s1);
    assert s2 == s.(channel := s.channel.Pop(), loop := LPopData);
    var s3 := Loop(s2);
    assert s3 == s2.(loop := LTestFlag);
  }

  lemma Decides(s: Capture)
    requires s.loop == LTestResync && s.resync.state == Idle
    ensures Loop(Loop(Loop(Loop(s))))
            == s.(resync := Resync(Resynchronizing, true, s.resync.count, s.resync.begun + 1), loop := LCountResync)
  {
    var s1 := Loop(s);
    assert s1 == s.(loop := LStoreResynchronizing);
    var s2 := Loop(s1);
    assert s2 == s.(resync := s.resync.(state := Resynchronizing, begun := s.resync.begun + 1), loop := LStoreTruth);
    var s3 := Loop(s2);
    assert s3 == s2.(loop := LStoreStale);
  }

  lemma DecidesOnce(s: Capture)
    requires s.loop == LTop && s.running && s.saturated && |s.channel.queue| == 1 && s.resync == Resync(Idle, false, 0, 0)
    ensures Looped(s, 10)
            == s.(channel := s.channel.Pop(), resync := Resync(RecoveryPending, true, 1, 1), loop := LDrain)
    ensures s.channel.Pop().queue == []
  {
    hide Loop, Looped;
    FourLoops(s, 6);
    ReachesDecision(s);
    var s4 := s.(channel := s.channel.Pop(), loop := LTestResync);
    FourLoops(s4, 2);
    Decides(s4);
    Completes(s4.(resync := Resync(Resynchronizing, true, 0, 1), loop := LCountResync));
  }

  lemma Completes(s: Capture)
    requires s.loop == LCountResync && s.resync == Resync(Resynchronizing, true, 0, 1)
    ensures Looped(s, 2) == s.(resync := Resync(RecoveryPending, true, 1, 1), loop := LDrain)
  {
    var s1 := Loop(s);
    assert s1 == s.(resync := Resync(Resynchronizing, true, 1, 1), loop := LStorePending);
    assert Looped(s, 2) == Looped(s1, 1) == Looped(Loop(s1), 0);
  }

  lemma Drains(s: Capture)
    requires s.loop == LDrain && |s.channel.queue| == 1 && s.resync.state == RecoveryPending
    ensures Loop(Loop(Loop(Loop(s)))) == s.(channel := s.channel.Pop(), loop := LConfirm)
  {
    var s1 := Loop(s);
    assert s1 == s.(channel := s.channel.Pop()) && s1.channel.queue == [];
    var s2 := Loop(s1);
    assert s2 == s1.(loop := LTestEmpty);
    var s3 := Loop(s2);
    assert s3 == s1.(loop := LTestPending);
  }

  lemma Clears(s: Capture)
    requires s.loop == LConfirm && s.resync == Resync(RecoveryPending, true, 1, 1)
    ensures Loop(Loop(Loop(Loop(s)))) == s.(resync := Resync(Recovered, false, 1, 1), saturated := false, loop := LTop)
  {
    var s1 := Loop(s);
    assert s1 == s.(loop := LClearStale);
    var s2 := Loop(s1);
    assert s2 == s.(resync := Resync(RecoveryPending, false, 1, 1), loop := LStoreRecovered);
    var s3 := Loop(s2);
    assert s3 == s.(resync := Resync(Recovered, false, 1, 1), loop := LClearFlag);
  }

  lemma DrainsAndClears(s: Capture)
    requires s.loop == LDrain && |s.channel.queue| == 1 && s.resync == Resync(RecoveryPending, true, 1, 1)
    ensures Looped(s, 8)
            == s.(channel := s.channel.Pop(), resync := Resync(Recovered, false, 1, 1), saturated := false, loop := LTop)
  {
    hide Loop;
    FourLoops(s, 4);
    Drains(s);
    var s4 := s.(channel := s.channel.Pop(), loop := LConfirm);
    FourLoops(s4, 0);
    Clears(s4);
  }

  /** One refusal answered, and the ring drained. */
  predicate Drained(s: Capture) {
    && s.capacity == 1 && s.channel.queue == [] && s.running && s.saturated && s.loop == LDrain
    && s.tap.pc == CbIdle && s.tap.refused == 1 && s.resync == Resync(RecoveryPending, true, 1, 1)
  }

  lemma FirstIsAnswered(event: Item)
    ensures Drained(Run(Init(1), PushTwo(event) + LoopSteps(10)))
  {
    AfterPushTwo(Init(1), event);
    hide Run, PushTwo, Looped, LoopSteps;
    var s := Run(Init(1), PushTwo(event));
    DecidesOnce(s);
    LoopedIsRun(s, 10);
    RunConcat(Init(1), PushTwo(event), LoopSteps(10));
  }

  /** Two refusals, one resynchronization, and the flag down. */
  predicate OneForgotten(s: Capture) {
    s.tap.refused == 2 && s.resync.begun == 1 && !s.saturated && s.loop == LTop
  }

  lemma SecondIsForgotten(s: Capture, event: Item)
    requires Drained(s)
    ensures OneForgotten(Run(s, PushTwo(event) + LoopSteps(8)))
  {
    AfterPushTwo(s, event);
    hide Run, PushTwo, Looped, LoopSteps;
    var t := Run(s, PushTwo(event));
    DrainsAndClears(t);
    LoopedIsRun(t, 8);
    RunConcat(s, PushTwo(event), LoopSteps(8));
  }

  /**
   A refusal is really forgotten in a run from the start: two events are refused, the second one
   while the loop is draining, and the loop comes back to its head with the flag down after one
   resynchronization.
   */
  lemma RefusalForgotten(event: Item)
    ensures exists schedule :: OneForgotten(Run(Init(1), schedule))
  {
    hide *;
    var first, second := PushTwo(event) + LoopSteps(10), PushTwo(event) + LoopSteps(8);
    FirstIsAnswered(event);
    SecondIsForgotten(Run(Init(1), first), event);
    RunConcat(Init(1), first, second);
    assert OneForgotten(Run(Init(1), first + second));
  }
}
