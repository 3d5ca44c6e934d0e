/** The capture side as objects: the two rings, the resynchronizer, and one body of the capture loop. */
module CaptureThread {
  import opened Common
  import opened AtomicPayloads
  import opened SpscRingBuffers
  import opened CaptureProtocol

  const SPSC_DATA_CAPACITY := 256
  const SPSC_STATE_CAPACITY := 64

  /** Size of the flat event record and offset of its kind octet. */
  const FLAT_SIZE := 48
  const KIND_OFFSET := 16

  /** The kinds of events, numbered in this order. */
  datatype RawEventKind = MouseMove | MouseButtonPress | MouseButtonRelease | Wheel | KeyPress | KeyRelease

  function CodeOf(kind: RawEventKind): Byte {
    match kind
    case MouseMove => 0
    case MouseButtonPress => 1
    case MouseButtonRelease => 2
    case Wheel => 3
    case KeyPress => 4
    case KeyRelease => 5
  }

  // Kind octets of the state-carrying events.
  const MOUSE_BUTTON_PRESS := 1
  const MOUSE_BUTTON_RELEASE := 2
  const KEY_PRESS := 4
  const KEY_RELEASE := 5

  /** The types of system events the tap listens for. */
  datatype SystemEvent =
    | MouseMoved | LeftMouseDown | LeftMouseUp | RightMouseDown | RightMouseUp | OtherMouseDown | OtherMouseUp
    | ScrollWheel | KeyDown | KeyUp

  function MapEventType(event: SystemEvent): RawEventKind {
    match event
    case MouseMoved => MouseMove
    case LeftMouseDown => MouseButtonPress
    case RightMouseDown => MouseButtonPress
    case OtherMouseDown => MouseButtonPress
    case LeftMouseUp => MouseButtonRelease
    case RightMouseUp => MouseButtonRelease
    case OtherMouseUp => MouseButtonRelease
    case ScrollWheel => Wheel
    case KeyDown => KeyPress
    case KeyUp => KeyRelease
  }

  /** What an event carries once it has been handed on. */
  datatype PayloadKind = Motion | Button | Scrolling | Key

  function PayloadOf(kind: RawEventKind): PayloadKind {
    match kind
    case MouseMove => Motion
    case MouseButtonPress => Button
    case MouseButtonRelease => Button
    case Wheel => Scrolling
    case KeyPress => Key
    case KeyRelease => Key
  }

  /** A flat event record as stored in a ring. */
  type FlatEvent = e: Item | |e| == FLAT_SIZE witness seq(FLAT_SIZE, _ => 0)

  predicate IsStateEvent(event: FlatEvent) {
    var kind := event[KIND_OFFSET];
    kind == KEY_PRESS || kind == KEY_RELEASE || kind == MOUSE_BUTTON_PRESS || kind == MOUSE_BUTTON_RELEASE
  }

  /**
   The lossless ring is for exactly the events that carry a button or a key: of the events the tap
   listens for, all but motion and scrolling; and no octet beyond the six kinds is one.
   */
  lemma StateEventsPressOrRelease(event: FlatEvent)
    ensures IsStateEvent(event) <==>
      exists kind :: event[KIND_OFFSET] == CodeOf(kind) && (PayloadOf(kind).Button? || PayloadOf(kind).Key?)
    ensures forall system :: event[KIND_OFFSET] == CodeOf(MapEventType(system)) ==>
      (IsStateEvent(event) <==> !system.MouseMoved? && !system.ScrollWheel?)
  {
    if IsStateEvent(event) {
      var kind := match event[KIND_OFFSET]
        case 1 => MouseButtonPress
        case 2 => MouseButtonRelease
        case 4 => KeyPress
        case _ => KeyRelease;
      assert event[KIND_OFFSET] == CodeOf(kind);
    }
  }

  datatype ChannelResult = Success | DataDroppedOldest | StateSaturated

  class DualChannelSpsc {
    const dataChannel: SpscRingBuffer
    const stateChannel: SpscRingBuffer
    var stateChannelSaturated: bool
    var stateChannelSaturatedCount: nat

    ghost const repr: set<object>

    ghost predicate Valid()
      reads this, repr
    {
      && this !in repr
      && dataChannel in repr && dataChannel.repr <= repr && stateChannel in repr && stateChannel.repr <= repr
      && dataChannel != stateChannel && dataChannel.repr !! stateChannel.repr
      && dataChannel !in stateChannel.repr && stateChannel !in dataChannel.repr
      && dataChannel.Valid() && dataChannel.capacity == SPSC_DATA_CAPACITY && dataChannel.size == FLAT_SIZE
      && stateChannel.Valid() && stateChannel.capacity == SPSC_STATE_CAPACITY && stateChannel.size == FLAT_SIZE
      && stateChannel.head - stateChannel.tail <= SPSC_STATE_CAPACITY
    }

    constructor ()
      ensures Valid() && fresh(repr) && !stateChannelSaturated && stateChannelSaturatedCount == 0
      ensures stateChannel.Contents() == [] && dataChannel.Contents() == []
    {
      hide SpscRingBuffer.HoldsLive;
      var data := new SpscRingBuffer(SPSC_DATA_CAPACITY, FLAT_SIZE);
      var state := new SpscRingBuffer(SPSC_STATE_CAPACITY, FLAT_SIZE);
      dataChannel, stateChannel := data, state;
      stateChannelSaturated, stateChannelSaturatedCount := false, 0;
      repr := {data, state} + data.repr + state.repr;
    }

    /**
     A state event is either appended to its ring or refused with the flag raised and the refusal
     counted, the latter exactly when the ring is full; any other event goes to the ring that
     keeps the newest.
     */
    method Enqueue(event: FlatEvent) returns (result: ChannelResult)
      requires Valid()
      modifies this, repr
      ensures Valid()
      ensures IsStateEvent(event) ==>
        && dataChannel.Contents() == old(dataChannel.Contents())
        && result == (if |old(stateChannel.Contents())| == SPSC_STATE_CAPACITY then StateSaturated else Success)
      ensures IsStateEvent(event) && result == Success ==>
        && stateChannel.Contents() == old(stateChannel.Contents()) + [event]
        && stateChannelSaturated == old(stateChannelSaturated)
        && stateChannelSaturatedCount == old(stateChannelSaturatedCount)
      ensures IsStateEvent(event) && result != Success ==>
        && stateChannel.Contents() == old(stateChannel.Contents())
        && stateChannelSaturated && stateChannelSaturatedCount == old(stateChannelSaturatedCount) + 1
      ensures !IsStateEvent(event) ==>
        && stateChannel.Contents() == old(stateChannel.Contents())
        && stateChannelSaturated == old(stateChannelSaturated)
        && stateChannelSaturatedCount == old(stateChannelSaturatedCount)
        && dataChannel.Contents() == PushNewest(old(dataChannel.Contents()), event, SPSC_DATA_CAPACITY)
        && result == (if dataChannel.cumulativeDropCount > 0 then DataDroppedOldest else Success)
    {
      if IsStateEvent(event) {
        var ok := stateChannel.TryPush(event);
        if ok {
          return Success;
        }
        stateChannelSaturated := true;
        stateChannelSaturatedCount := stateChannelSaturatedCount + 1;
        return StateSaturated;
      }
      var _ := dataChannel.TryPushDropOldest(event);
      if dataChannel.cumulativeDropCount > 0 {
        return DataDroppedOldest;
      }
      return Success;
    }

    method TryPopState() returns (r: Option<Item>)
      requires Valid()
      modifies stateChannel`tail, stateChannel`delivered
      ensures Valid()
      ensures r.None? <==> old(stateChannel.Contents()) == []
      ensures r.None? ==> stateChannel.Contents() == []
      ensures r.Some? ==> old(stateChannel.Contents()) == [r.value] + stateChannel.Contents()
      ensures dataChannel.Contents() == old(dataChannel.Contents())
    {
      r := stateChannel.TryPop();
    }

    method TryPopData() returns (r: Option<Item>)
      requires Valid()
      modifies dataChannel`tail, dataChannel`delivered
      ensures Valid()
      ensures r.None? <==> old(dataChannel.Contents()) == []
      ensures r.None? ==> dataChannel.Contents() == []
      ensures r.Some? ==> old(dataChannel.Contents()) == [r.value] + dataChannel.Contents()
      ensures stateChannel.Contents() == old(stateChannel.Contents())
    {
      r := dataChannel.TryPop();
    }

    method StateEmpty() returns (r: bool)
      requires Valid()
      ensures r <==> stateChannel.Contents() == []
    {
      r := stateChannel.head == stateChannel.tail;
    }
  }

  /** The modifier keys as the system reports them. */
  datatype ModifierState = ModifierState(shift: bool, ctrl: bool, alt: bool, cmd: bool, fn: bool)

  class AuthoritativeResync {
    var state: ResyncState
    var groundTruth: ModifierState
    var bitmapStale: bool
    var resyncCount: nat

    constructor ()
      ensures state == Idle && !bitmapStale && resyncCount == 0
    {
      state, bitmapStale, resyncCount := Idle, false, 0;
      groundTruth := ModifierState(false, false, false, false, false);
    }

    method Trigger()
      modifies this`state
      ensures state == Resynchronizing
    {
      state := Resynchronizing;
    }

    method Resynchronize(query: ModifierState) returns (truth: ModifierState)
      modifies this
      ensures truth == groundTruth == query && bitmapStale
      ensures state == RecoveryPending && resyncCount == old(resyncCount) + 1
    {
      state := Resynchronizing;
      truth := query;
      groundTruth := truth;
      bitmapStale := true;
      resyncCount := resyncCount + 1;
      state := RecoveryPending;
    }

    /** Confirms exactly a pending recovery, and changes nothing otherwise. */
    method ConfirmRecovery() returns (ok: bool)
      modifies this`state, this`bitmapStale
      ensures ok <==> old(state) == RecoveryPending
      ensures ok ==> state == Recovered && !bitmapStale
      ensures !ok ==> state == old(state) && bitmapStale == old(bitmapStale)
    {
      if state != RecoveryPending {
        return false;
      }
      bitmapStale := false;
      state := Recovered;
      return true;
    }

    method Reset()
      modifies this`state, this`bitmapStale
      ensures state == Idle && !bitmapStale
    {
      state := Idle;
      bitmapStale := false;
    }
  }

  /** The part of the capture state that saturation handling looks at. */
  datatype Pressure = Pressure(waiting: nat, saturated: bool, state: ResyncState, stale: bool, count: nat)

  /** A state event arriving between two bodies. */
  function AfterEvent(p: Pressure): Pressure {
    if p.waiting == SPSC_STATE_CAPACITY then p.(saturated := true) else p.(waiting := p.waiting + 1)
  }

  /** One undisturbed body of the capture loop. */
  function AfterBody(p: Pressure): Pressure {
    if !p.saturated then p.(waiting := if p.waiting == 0 then 0 else p.waiting - 1)
    else
      var begins := p.state == Idle || p.state == Recovered;
      var confirms := begins || p.state == RecoveryPending;
      Pressure(0, false, if confirms then Recovered else p.state, !confirms && p.stale,
               if begins then p.count + 1 else p.count)
  }

  /** A caller telling the resynchronizer that a resynchronization is under way, and one resetting it. */
  function AfterTrigger(p: Pressure): Pressure {
    p.(state := Resynchronizing)
  }

  function AfterReset(p: Pressure): Pressure {
    p.(state := Idle, stale := false)
  }

  class MacEventTap {
    const dualChannel: DualChannelSpsc
    const resync: AuthoritativeResync
    ghost var processed: seq<Item>  // the state events handed on
    ghost var moved: seq<Item>      // the other events handed on

    ghost predicate Valid()
      reads this, dualChannel, dualChannel.repr
    {
      && dualChannel.Valid()
      && this !in dualChannel.repr && resync !in dualChannel.repr
    }

    /** The events waiting in each ring, oldest first. */
    ghost function StateEvents(): seq<Item>
      reads dualChannel.stateChannel
    {
      dualChannel.stateChannel.Contents()
    }

    ghost function DataEvents(): (q: seq<Item>)
      requires Valid()
      reads this, dualChannel, dualChannel.repr
      ensures |q| <= SPSC_DATA_CAPACITY
    {
      dualChannel.dataChannel.Contents()
    }

    ghost function View(): Pressure
      requires Valid()
      reads this, dualChannel, dualChannel.repr, resync
    {
      Pressure(|StateEvents()|, dualChannel.stateChannelSaturated,
               resync.state, resync.bitmapStale, resync.resyncCount)
    }

    constructor ()
      ensures Valid() && View() == Pressure(0, false, Idle, false, 0) && processed == moved == []
      ensures StateEvents() == DataEvents() == []
    {
      dualChannel := new DualChannelSpsc();
      resync := new AuthoritativeResync();
      processed, moved := [], [];
    }

    /** What the system calls for each event: enqueue it and nothing else. */
    method EventCallback(event: FlatEvent)
      requires Valid()
      modifies dualChannel, dualChannel.repr
      ensures Valid()
      ensures View() == if IsStateEvent(event) then AfterEvent(old(View())) else old(View())
      ensures StateEvents() ==
        old(StateEvents()) + if IsStateEvent(event) && |old(StateEvents())| < SPSC_STATE_CAPACITY then [event] else []
      ensures DataEvents() ==
        if IsStateEvent(event) then old(DataEvents()) else PushNewest(old(DataEvents()), event, SPSC_DATA_CAPACITY)
    {
      var _ := dualChannel.Enqueue(event);
    }

    /** Callers reach the resynchronizer through the tap. */
    method TriggerResync()
      requires Valid()
      modifies resync`state
      ensures Valid() && View() == AfterTrigger(old(View()))
    {
      resync.Trigger();
    }

    method ResetResync()
      requires Valid()
      modifies resync`state, resync`bitmapStale
      ensures Valid() && View() == AfterReset(old(View()))
    {
      resync.Reset();
    }

    /** An event handed on and the next one taken: together they are the same events. */
    static lemma HandedOn(before: seq<Item>, value: Item, waiting: seq<Item>, next: Option<Item>, left: seq<Item>)
      requires next.None? ==> waiting == [] == left
      requires next.Some? ==> waiting == [next.value] + left
      ensures before + [value] + (if next.Some? then [next.value] else []) + left == before + [value] + waiting
    {
    }

    /** Hand on every waiting state event, oldest first. */
    method DrainState()
      requires Valid()
      modifies this`processed, dualChannel.stateChannel`tail, dualChannel.stateChannel`delivered
      ensures Valid() && StateEvents() == [] && DataEvents() == old(DataEvents())
      ensures processed == old(processed) + old(StateEvents())
    {
      hide SpscRingBuffer.HoldsLive;
      var flat := dualChannel.TryPopState();
      while flat.Some?
        invariant Valid() && DataEvents() == old(DataEvents())
        invariant flat.None? ==> StateEvents() == []
        invariant processed + (if flat.Some? then [flat.value] else []) + StateEvents() == old(processed) + old(StateEvents())
        decreases if flat.Some? then 1 + |StateEvents()| else 0
      {
        ghost var before, value, waiting := processed, flat.value, StateEvents();
        processed := processed + [flat.value];
        flat := dualChannel.TryPopState();
        HandedOn(before, value, waiting, flat, StateEvents());
      }
    }

    method DrainData()
      requires Valid()
      modifies this`moved, dualChannel.dataChannel`tail, dualChannel.dataChannel`delivered
      ensures Valid() && DataEvents() == [] && StateEvents() == old(StateEvents())
      ensures moved == old(moved) + old(DataEvents())
    {
      hide SpscRingBuffer.HoldsLive;
      var flat := dualChannel.TryPopData();
      while flat.Some?
        invariant Valid() && StateEvents() == old(StateEvents())
        invariant flat.None? ==> DataEvents() == []
        invariant moved + (if flat.Some? then [flat.value] else []) + DataEvents() == old(moved) + old(DataEvents())
        decreases if flat.Some? then 1 + |DataEvents()| else 0
      {
        ghost var before, value, waiting := moved, flat.value, DataEvents();
        moved := moved + [flat.value];
        flat := dualChannel.TryPopData();
        HandedOn(before, value, waiting, flat, DataEvents());
      }
    }

    /** What the loop does after it was told to stop: every event waiting in either ring is handed on. */
    method FinalDrain()
      requires Valid()
      modifies this`processed, dualChannel.stateChannel`tail, dualChannel.stateChannel`delivered
      modifies this`moved, dualChannel.dataChannel`tail, dualChannel.dataChannel`delivered
      ensures Valid() && StateEvents() == DataEvents() == []
      ensures processed == old(processed) + old(StateEvents()) && moved == old(moved) + old(DataEvents())
    {
      DrainState();
      DrainData();
    }

    /** Once the ring is empty, a pending recovery is confirmed and the flag lowered. */
    method ConfirmWhenEmpty()
      requires Valid()
      modifies dualChannel`stateChannelSaturated, resync
      ensures Valid() && StateEvents() == old(StateEvents()) && DataEvents() == old(DataEvents())
      ensures StateEvents() != [] ==>
        dualChannel.stateChannelSaturated == old(dualChannel.stateChannelSaturated)
        && resync.state == old(resync.state) && resync.bitmapStale == old(resync.bitmapStale)
      ensures StateEvents() == [] ==>
        && !dualChannel.stateChannelSaturated
        && resync.state == (if old(resync.state) == RecoveryPending then Recovered else old(resync.state))
        && resync.bitmapStale == (old(resync.state) != RecoveryPending && old(resync.bitmapStale))
      ensures resync.resyncCount == old(resync.resyncCount) && resync.groundTruth == old(resync.groundTruth)
    {
      var empty := dualChannel.StateEmpty();
      if empty {
        if resync.state == RecoveryPending {
          var _ := resync.ConfirmRecovery();
        }
        dualChannel.stateChannelSaturated := false;
      }
    }

    /** The saturated half of a body: resynchronize unless one is under way, drain, confirm, lower the flag. */
    method HandleSaturation(query: ModifierState)
      requires Valid() && dualChannel.stateChannelSaturated
      modifies this`processed, dualChannel`stateChannelSaturated, resync
      modifies dualChannel.stateChannel`tail, dualChannel.stateChannel`delivered
      ensures Valid() && StateEvents() == [] && !dualChannel.stateChannelSaturated && DataEvents() == old(DataEvents())
      ensures processed == old(processed) + old(StateEvents())
      ensures View() == AfterBody(old(View()))
      ensures resync.groundTruth == if resync.resyncCount > old(resync.resyncCount) then query else old(resync.groundTruth)
    {
      if resync.state == Idle || resync.state == Recovered {
        var _ := resync.Resynchronize(query);
      }
      DrainState();
      ConfirmWhenEmpty();
    }

    /** The first half of a body: at most one event from each ring is handed on, the oldest. */
    method PopOneEach()
      requires Valid()
      modifies this`processed, this`moved
      modifies dualChannel.stateChannel`tail, dualChannel.stateChannel`delivered
      modifies dualChannel.dataChannel`tail, dualChannel.dataChannel`delivered
      ensures Valid()
      ensures processed + StateEvents() == old(processed) + old(StateEvents())
      ensures |StateEvents()| == Max(0, |old(StateEvents())| - 1)
      ensures moved + DataEvents() == old(moved) + old(DataEvents())
      ensures |DataEvents()| == Max(0, |old(DataEvents())| - 1)
    {
      hide SpscRingBuffer.HoldsLive;
      var flat := dualChannel.TryPopState();
      if flat.Some? {
        processed := processed + [flat.value];
      }
      flat := dualChannel.TryPopData();
      if flat.Some? {
        moved := moved + [flat.value];
      }
    }

    /**
     One body of the capture loop with nothing interleaved: events of both rings are handed on in
     order, at least one from each ring that is not empty, and the saturation state moves as the
     pure description says.
     */
    method CaptureBody(query: ModifierState)
      requires Valid()
      modifies this`processed, this`moved, dualChannel`stateChannelSaturated, resync
      modifies dualChannel.stateChannel`tail, dualChannel.stateChannel`delivered
      modifies dualChannel.dataChannel`tail, dualChannel.dataChannel`delivered
      ensures Valid() && View() == AfterBody(old(View()))
      ensures processed + StateEvents() == old(processed) + old(StateEvents())
      ensures moved + DataEvents() == old(moved) + old(DataEvents())
      ensures |DataEvents()| == Max(0, |old(DataEvents())| - 1)
      ensures resync.groundTruth == if resync.resyncCount > old(resync.resyncCount) then query else old(resync.groundTruth)
    {
      PopOneEach();
      if dualChannel.stateChannelSaturated {
        HandleSaturation(query);
      }
    }
  }

  // ---- runs in which events, bodies and calls from outside alternate freely, each whole ------------

  datatype Happening = Event | Body | TriggerCall | ResetCall

  function Play(history: seq<Happening>): Pressure {
    if history == [] then Pressure(0, false, Idle, false, 0)
    else
      var p := Play(history[..|history| - 1]);
      match history[|history| - 1]
      case Event => AfterEvent(p)
      case Body => AfterBody(p)
      case TriggerCall => AfterTrigger(p)
      case ResetCall => AfterReset(p)
  }

  /** Was the `k`-th happening a state event that was refused? */
  predicate Refused(history: seq<Happening>, k: nat)
    requires k < |history|
  {
    history[k] == Event && Play(history[..k]).waiting == SPSC_STATE_CAPACITY
  }

  /** Some event since the last body was refused. */
  predicate RefusalPending(history: seq<Happening>) {
    exists k :: 0 <= k < |history| && Refused(history, k) && forall j :: k < j < |history| ==> history[j] != Body
  }

  /** The resynchronizer was triggered from outside and not reset since. */
  predicate Blocked(history: seq<Happening>) {
    exists k :: 0 <= k < |history| && history[k] == TriggerCall && forall j :: k < j < |history| ==> history[j] != ResetCall
  }

  /** How many bodies come after a refusal that no body has followed yet, while the resynchronizer is not blocked. */
  function BodiesAfterRefusal(history: seq<Happening>): nat {
    if history == [] then 0
    else
      var n := |history| - 1;
      var before := history[..n];
      BodiesAfterRefusal(before) + (if history[n] == Body && RefusalPending(before) && !Blocked(before) then 1 else 0)
  }

  lemma RefusedBefore(history: seq<Happening>, k: nat)
    requires k < |history| - 1
    ensures Refused(history, k) <==> Refused(history[..|history| - 1], k)
  {
    assert history[..k] == history[..|history| - 1][..k];
  }

  lemma PendingStep(history: seq<Happening>)
    requires history != []
    ensures var n := |history| - 1;
      RefusalPending(history) <==>
        history[n] != Body && (Refused(history, n) || RefusalPending(history[..n]))
  {
    var n := |history| - 1;
    var before := history[..n];
    hide Refused;
    if history[n] != Body && RefusalPending(before) {
      var k :| 0 <= k < |before| && Refused(before, k) && forall j :: k < j < |before| ==> before[j] != Body;
      RefusedBefore(history, k);
    }
    if RefusalPending(history) && !Refused(history, n) {
      var k :| 0 <= k < |history| && Refused(history, k) && forall j :: k < j < |history| ==> history[j] != Body;
      RefusedBefore(history, k);
      assert forall j :: k < j < n ==> before[j] == history[j];
    }
    RefusedIsEvent(history, n);
  }

  lemma RefusedIsEvent(history: seq<Happening>, k: nat)
    requires k < |history|
    ensures Refused(history, k) ==> history[k] == Event
  {
  }

  lemma BlockedStep(history: seq<Happening>)
    requires history != []
    ensures var n := |history| - 1;
      Blocked(history) <==> history[n] == TriggerCall || (history[n] != ResetCall && Blocked(history[..n]))
  {
    var n := |history| - 1;
    var before := history[..n];
    if history[n] != ResetCall && Blocked(before) {
      var k :| 0 <= k < |before| && before[k] == TriggerCall && forall j :: k < j < |before| ==> before[j] != ResetCall;
      assert history[k] == TriggerCall;
    }
    if Blocked(history) && history[n] != TriggerCall {
      var k :| 0 <= k < |history| && history[k] == TriggerCall && forall j :: k < j < |history| ==> history[j] != ResetCall;
      assert before[k] == TriggerCall;
    }
  }

  /**
   Every refused state event is answered by a resynchronization in the very next body, unless the
   resynchronizer is blocked by a trigger from outside, and nothing else resynchronizes: the count
   is the number of unblocked bodies that follow a refusal.  Between bodies the flag is up exactly
   while a refusal waits, and no recovery is left pending.
   */
  lemma {:induction false} EveryRefusalIsAnswered(history: seq<Happening>)
    ensures var p := Play(history);
      && p.count == BodiesAfterRefusal(history)
      && (p.saturated <==> RefusalPending(history))
      && (p.state == Resynchronizing <==> Blocked(history))
      && p.state != RecoveryPending && !p.stale
  {
    if history != [] {
      EveryRefusalIsAnswered(history[..|history| - 1]);
      PendingStep(history);
      BlockedStep(history);
      hide RefusalPending, Blocked;
    }
  }

  /** After a trigger no body resynchronizes again, whatever is refused, until a reset. */
  lemma {:induction false} TriggeredStaysBlocked(history: seq<Happening>, more: seq<Happening>)
    requires Blocked(history) && ResetCall !in more
    ensures Blocked(history + more) && Play(history + more).count == Play(history).count
  {
    if more == [] {
      assert history + more == history;
    } else {
      hide Blocked, RefusalPending;
      var all := history + more;
      var shorter := more[..|more| - 1];
      TriggeredStaysBlocked(history, shorter);
      assert all[..|all| - 1] == history + shorter;
      BlockedStep(all);
      EveryRefusalIsAnswered(history + shorter);
      EveryRefusalIsAnswered(all);
    }
  }

  lemma {:induction false} ResetUnblocks(history: seq<Happening>, more: seq<Happening>)
    requires TriggerCall !in more
    ensures !Blocked(history + [ResetCall] + more)
  {
    var all := history + [ResetCall] + more;
    BlockedStep(all);
    if more == [] {
      assert all[|all| - 1] == ResetCall;
    } else {
      assert all[|all| - 1] == more[|more| - 1];
      assert all[..|all| - 1] == history + [ResetCall] + more[..|more| - 1];
      ResetUnblocks(history, more[..|more| - 1]);
    }
    hide Blocked;
  }

  /** After a reset, and until another trigger, a body resynchronizes exactly if a refusal waits for it. */
  lemma AnsweredAgainAfterReset(history: seq<Happening>, more: seq<Happening>)
    requires TriggerCall !in more
    ensures var before := history + [ResetCall] + more;
      Play(before + [Body]).count == Play(before).count + if RefusalPending(before) then 1 else 0
  {
    var before := history + [ResetCall] + more;
    ResetUnblocks(history, more);
    hide Blocked, RefusalPending, Play;
    assert (before + [Body])[..|before|] == before;
    EveryRefusalIsAnswered(before);
    EveryRefusalIsAnswered(before + [Body]);
  }
}
