/** Closing the input gate when the link drops, and opening it again after a confirmed recovery. */
module ResyncGate {
  import opened Common

  datatype LinkState = LinkDisconnected | LinkConnecting | LinkConnected | LinkPairing | LinkPaired | LinkLost

  datatype GateState = Connected | Disconnected | Reconnecting | Resync | Recovery

  /** Which of the optional functions were supplied; releasing needs the reader and the releaser. */
  datatype Hooks = Hooks(readPressed: bool, releaseAll: bool, triggerResync: bool, confirmRecovery: bool, stateChange: bool)

  /** The calls out of the coordinator, in order. */
  datatype Effect = ReleaseAll | TriggerResync | Confirm(recovered: bool) | Changed(state: GateState)

  datatype Gate = Gate(state: GateState, started: bool, disconnects: nat, resyncs: nat, recoveries: nat)

  /** `recovered` is what the confirmation would answer at that moment. */
  datatype Op = Start | Stop | Link(link: LinkState, recovered: bool)

  const INITIAL := Gate(Connected, false, 0, 0, 0)

  predicate InputAllowed(g: Gate) {
    g.state == Connected
  }

  function Drop(g: Gate): Gate {
    g.(state := Reconnecting, disconnects := g.disconnects + 1)
  }

  function Connecting(g: Gate): Gate {
    if g.state == Disconnected then g.(state := Reconnecting) else g
  }

  predicate Confirmed(h: Hooks, recovered: bool) {
    recovered || !h.confirmRecovery
  }

  function Connect(h: Hooks, g: Gate, recovered: bool): Gate {
    if g.state == Connected then g
    else if Confirmed(h, recovered) then g.(state := Connected, resyncs := g.resyncs + 1)
    else g.(state := Recovery, resyncs := g.resyncs + 1, recoveries := g.recoveries + 1)
  }

  function Do(h: Hooks, g: Gate, op: Op): Gate {
    match op
    case Start => g.(started := true)
    case Stop => g.(started := false)
    case Link(link, recovered) =>
      if !g.started then g
      else if link.LinkConnected? then Connect(h, g, recovered)
      else if link.LinkDisconnected? || link.LinkLost? then Drop(g)
      else if link.LinkConnecting? then Connecting(g)
      else g
  }

  /** The state after the first `n` calls of a run. */
  function After(h: Hooks, ops: seq<Op>, n: nat): Gate
    requires n <= |ops|
  {
    if n == 0 then INITIAL else Do(h, After(h, ops, n - 1), ops[n - 1])
  }

  // ---- the gate ----------------------------------------------------------------------------------

  /** Among the first `n` calls there is a start, and no stop after the last of them. */
  predicate Started(ops: seq<Op>, n: nat)
    requires n <= |ops|
  {
    exists i :: 0 <= i < n && ops[i].Start? && forall j :: i < j < n ==> !ops[j].Stop?
  }

  lemma StartedStep(ops: seq<Op>, n: nat)
    requires n < |ops|
    ensures Started(ops, n + 1) <==> !ops[n].Stop? && (ops[n].Start? || Started(ops, n))
  {
    if Started(ops, n) && !ops[n].Stop? {
      var i :| 0 <= i < n && ops[i].Start? && forall j :: i < j < n ==> !ops[j].Stop?;
      assert ops[i].Start?;
    }
  }

  /** Link reports reach the coordinator exactly from a start until the next stop. */
  lemma {:induction false} StartedIff(h: Hooks, ops: seq<Op>, n: nat)
    requires n <= |ops|
    ensures After(h, ops, n).started <==> Started(ops, n)
  {
    if n > 0 {
      StartedIff(h, ops, n - 1);
      StartedStep(ops, n - 1);
      hide Started;
    }
  }

  /** Call `i` reported a lost link to a started coordinator. */
  predicate Drops(ops: seq<Op>, i: nat)
    requires i < |ops|
  {
    ops[i].Link? && (ops[i].link.LinkDisconnected? || ops[i].link.LinkLost?) && Started(ops, i)
  }

  /** Call `i` reported a connected link to a started coordinator. */
  predicate Connects(ops: seq<Op>, i: nat)
    requires i < |ops|
  {
    ops[i].Link? && ops[i].link.LinkConnected? && Started(ops, i)
  }

  /** Call `i` reported a connected link to a started coordinator, and the recovery is confirmed. */
  predicate Restores(h: Hooks, ops: seq<Op>, i: nat)
    requires i < |ops|
  {
    Connects(ops, i) && (h.confirmRecovery ==> ops[i].recovered)
  }

  /** Every lost link was followed by a confirmed reconnection. */
  ghost predicate AllRestored(h: Hooks, ops: seq<Op>, n: nat)
    requires n <= |ops|
  {
    forall i: nat :: i < n && Drops(ops, i) ==> exists j: nat :: i < j < n && Restores(h, ops, j)
  }

  predicate Resting(s: GateState) {
    s.Connected? || s.Reconnecting? || s.Recovery?
  }

  lemma StateAfterStep(h: Hooks, ops: seq<Op>, n: nat)
    requires 0 < n <= |ops|
    ensures var g, g' := After(h, ops, n - 1), After(h, ops, n);
      Resting(g.state) ==>
        && Resting(g'.state)
        && g'.state == if Drops(ops, n - 1) then Reconnecting
                       else if Restores(h, ops, n - 1) then Connected
                       else if g.state == Connected then Connected
                       else if Connects(ops, n - 1) then Recovery
                       else g.state
  {
    StartedIff(h, ops, n - 1);
    hide Started;
  }

  lemma AllRestoredStep(h: Hooks, ops: seq<Op>, n: nat)
    requires 0 < n <= |ops|
    ensures Drops(ops, n - 1) ==> !AllRestored(h, ops, n)
    ensures Restores(h, ops, n - 1) ==> AllRestored(h, ops, n)
    ensures !Drops(ops, n - 1) && !Restores(h, ops, n - 1) ==> (AllRestored(h, ops, n) <==> AllRestored(h, ops, n - 1))
  {
    assert Restores(h, ops, n - 1) ==> !Drops(ops, n - 1);
    hide Drops, Restores, Started;
    if !Drops(ops, n - 1) && !Restores(h, ops, n - 1) && AllRestored(h, ops, n) {
      forall i: nat | i < n - 1 && Drops(ops, i)
        ensures exists j: nat :: i < j < n - 1 && Restores(h, ops, j)
      {
        var j: nat :| i < j < n && Restores(h, ops, j);
        assert j < n - 1;
      }
    }
  }

  /** Input is allowed exactly when every lost link reported so far was followed by a confirmed reconnection. */
  lemma {:induction false} AllowedIffAllRestored(h: Hooks, ops: seq<Op>, n: nat)
    requires n <= |ops|
    ensures Resting(After(h, ops, n).state)
    ensures InputAllowed(After(h, ops, n)) <==> AllRestored(h, ops, n)
  {
    if n > 0 {
      AllowedIffAllRestored(h, ops, n - 1);
      AllRestoredStep(h, ops, n);
      StateAfterStep(h, ops, n);
      hide After, AllRestored, Drops, Connects, Restores;
    }
  }

  /** The gate never rests in Disconnected or Resync, so a report of connecting never does anything. */
  lemma ConnectingIsIdle(h: Hooks, ops: seq<Op>, n: nat, recovered: bool)
    requires n <= |ops|
    ensures After(h, ops, n).state !in {Disconnected, Resync}
    ensures Do(h, After(h, ops, n), Link(LinkConnecting, recovered)) == After(h, ops, n)
  {
    AllowedIffAllRestored(h, ops, n);
  }

  // ---- the calls out -----------------------------------------------------------------------------

  type Calls = seq<Effect>

  function Opt(made: bool, e: Effect): Calls {
    if made then [e] else []
  }

  /** The announcement of a new state. */
  function Announce(h: Hooks, from: GateState, to: GateState): Calls {
    Opt(h.stateChange && from != to, Changed(to))
  }

  function DropCalls(h: Hooks, g: Gate): Calls {
    (Announce(h, g.state, Disconnected) + Opt(h.readPressed && h.releaseAll, ReleaseAll))
    + (Opt(h.triggerResync, TriggerResync) + Announce(h, Disconnected, Reconnecting))
  }

  function ConnectCalls(h: Hooks, g: Gate, recovered: bool): Calls {
    if g.state == Connected then []
    else
      (Announce(h, g.state, Resync) + Opt(h.triggerResync, TriggerResync))
      + (Opt(h.confirmRecovery, Confirm(recovered)) + Announce(h, Resync, if Confirmed(h, recovered) then Connected else Recovery))
  }

  function CallsOf(h: Hooks, g: Gate, op: Op): Calls {
    if !op.Link? || !g.started then []
    else if op.link.LinkConnected? then ConnectCalls(h, g, op.recovered)
    else if op.link.LinkDisconnected? || op.link.LinkLost? then DropCalls(h, g)
    else if op.link.LinkConnecting? && g.state == Disconnected then Announce(h, Disconnected, Reconnecting)
    else []
  }

  /** All calls made during the first `n` calls of a run. */
  function Log(h: Hooks, ops: seq<Op>, n: nat): Calls
    requires n <= |ops|
  {
    if n == 0 then [] else Log(h, ops, n - 1) + CallsOf(h, After(h, ops, n - 1), ops[n - 1])
  }

  function Count(calls: Calls, e: Effect): nat {
    if calls == [] then 0
    else Count(calls[..|calls| - 1], e) + if calls[|calls| - 1] == e then 1 else 0
  }

  lemma {:induction false} CountAppended(calls: Calls, more: Calls, e: Effect)
    ensures Count(calls + more, e) == Count(calls, e) + Count(more, e)
  {
    if more == [] {
      assert calls + more == calls;
    } else {
      assert (calls + more)[..|calls + more| - 1] == calls + more[..|more| - 1];
      CountAppended(calls, more[..|more| - 1], e);
    }
  }

  lemma CountOpt(made: bool, called: Effect, e: Effect)
    ensures Count(Opt(made, called), e) == if made && called == e then 1 else 0
  {
    assert [called][..0] == [];
  }

  lemma CountFour(a: Calls, b: Calls, c: Calls, d: Calls, e: Effect)
    ensures Count((a + b) + (c + d), e) == Count(a, e) + Count(b, e) + Count(c, e) + Count(d, e)
  {
    hide Count;
    CountAppended(a, b, e);
    CountAppended(c, d, e);
    CountAppended(a + b, c + d, e);
  }

  lemma CountDrop(h: Hooks, g: Gate, e: Effect)
    requires Resting(g.state)
    ensures Count(DropCalls(h, g), e)
      == (if e.ReleaseAll? && h.readPressed && h.releaseAll then 1 else 0) + (if e.TriggerResync? && h.triggerResync then 1 else 0)
       + (if (e == Changed(Disconnected) || e == Changed(Reconnecting)) && h.stateChange then 1 else 0)
  {
    hide Count, Opt;
    CountFour(Announce(h, g.state, Disconnected), Opt(h.readPressed && h.releaseAll, ReleaseAll),
              Opt(h.triggerResync, TriggerResync), Announce(h, Disconnected, Reconnecting), e);
    CountOpt(h.stateChange && g.state != Disconnected, Changed(Disconnected), e);
    CountOpt(h.readPressed && h.releaseAll, ReleaseAll, e);
    CountOpt(h.triggerResync, TriggerResync, e);
    CountOpt(h.stateChange && Disconnected != Reconnecting, Changed(Reconnecting), e);
  }

  lemma CountConnect(h: Hooks, g: Gate, recovered: bool, e: Effect)
    requires Resting(g.state) && g.state != Connected
    ensures Count(ConnectCalls(h, g, recovered), e)
      == (if e.TriggerResync? && h.triggerResync then 1 else 0) + (if e == Confirm(recovered) && h.confirmRecovery then 1 else 0)
       + (if e == Changed(Resync) && h.stateChange then 1 else 0)
       + (if e == Changed(if Confirmed(h, recovered) then Connected else Recovery) && h.stateChange then 1 else 0)
  {
    hide Count, Opt;
    var to := if Confirmed(h, recovered) then Connected else Recovery;
    CountFour(Announce(h, g.state, Resync), Opt(h.triggerResync, TriggerResync),
              Opt(h.confirmRecovery, Confirm(recovered)), Announce(h, Resync, to), e);
    CountOpt(h.stateChange && g.state != Resync, Changed(Resync), e);
    CountOpt(h.triggerResync, TriggerResync, e);
    CountOpt(h.confirmRecovery, Confirm(recovered), e);
    CountOpt(h.stateChange && Resync != to, Changed(to), e);
  }

  /** What one step adds to a counter of calls. */
  function Increase(h: Hooks, g: Gate, g': Gate, e: Effect): int {
    match e
    case ReleaseAll => if h.readPressed && h.releaseAll then g'.disconnects - g.disconnects else 0
    case TriggerResync => if h.triggerResync then g'.disconnects - g.disconnects + g'.resyncs - g.resyncs else 0
    case Confirm(recovered) =>
      if !h.confirmRecovery then 0
      else if recovered then (g'.resyncs - g'.recoveries) - (g.resyncs - g.recoveries)
      else g'.recoveries - g.recoveries
    case Changed(state) =>
      if !h.stateChange then 0
      else
        match state
        case Disconnected => g'.disconnects - g.disconnects
        case Reconnecting => g'.disconnects - g.disconnects
        case Resync => g'.resyncs - g.resyncs
        case Recovery => g'.recoveries - g.recoveries
        case Connected => (g'.resyncs - g'.recoveries) - (g.resyncs - g.recoveries)
  }

  lemma CountStep(h: Hooks, g: Gate, op: Op, e: Effect)
    requires Resting(g.state)
    ensures Count(CallsOf(h, g, op), e) == Increase(h, g, Do(h, g, op), e)
  {
    hide Count, DropCalls, ConnectCalls;
    assert Count([], e) == 0 by { CountOpt(false, e, e); }
    CountDrop(h, g, e);
    if op.Link? && g.state != Connected {
      CountConnect(h, g, op.recovered, e);
    }
    assert g.state == Connected && op.Link? ==> ConnectCalls(h, g, op.recovered) == [] by { NothingToConnect(h, g, op); }
  }

  lemma NothingToConnect(h: Hooks, g: Gate, op: Op)
    ensures g.state == Connected && op.Link? ==> ConnectCalls(h, g, op.recovered) == []
  {
  }

  /** The reports of a lost link among the first `n` calls that reached a started coordinator. */
  function DropCount(h: Hooks, ops: seq<Op>, n: nat): nat
    requires n <= |ops|
  {
    if n == 0 then 0 else DropCount(h, ops, n - 1) + if Drops(ops, n - 1) then 1 else 0
  }

  /** The reports of a connected link that came while a lost link had not been restored. */
  ghost function ReconnectCount(h: Hooks, ops: seq<Op>, n: nat): nat
    requires n <= |ops|
  {
    if n == 0 then 0
    else ReconnectCount(h, ops, n - 1) + if Connects(ops, n - 1) && !AllRestored(h, ops, n - 1) then 1 else 0
  }

  lemma CountersStep(h: Hooks, ops: seq<Op>, n: nat)
    requires 0 < n <= |ops|
    ensures var g, g' := After(h, ops, n - 1), After(h, ops, n);
      && g'.disconnects == g.disconnects + (if Drops(ops, n - 1) then 1 else 0)
      && g'.resyncs == g.resyncs + (if Connects(ops, n - 1) && g.state != Connected then 1 else 0)
      && g.recoveries <= g'.recoveries <= g.recoveries + (g'.resyncs - g.resyncs)
      && (!h.confirmRecovery ==> g'.recoveries == g.recoveries)
  {
    StartedIff(h, ops, n - 1);
    hide Started;
  }

  lemma {:induction false} CountLog(h: Hooks, ops: seq<Op>, n: nat, e: Effect)
    requires n <= |ops|
    ensures Count(Log(h, ops, n), e) == Increase(h, INITIAL, After(h, ops, n), e)
  {
    if n > 0 {
      var g := After(h, ops, n - 1);
      CountLog(h, ops, n - 1, e);
      AllowedIffAllRestored(h, ops, n - 1);
      CountStep(h, g, ops[n - 1], e);
      CountAppended(Log(h, ops, n - 1), CallsOf(h, g, ops[n - 1]), e);
      LogUnfolds(h, ops, n);
      hide *;
      IncreaseAdds(h, INITIAL, g, After(h, ops, n), e);
    } else {
      NothingLogged(h, ops, e);
    }
  }

  lemma LogUnfolds(h: Hooks, ops: seq<Op>, n: nat)
    requires 0 < n <= |ops|
    ensures var g := After(h, ops, n - 1);
      && Log(h, ops, n) == Log(h, ops, n - 1) + CallsOf(h, g, ops[n - 1])
      && After(h, ops, n) == Do(h, g, ops[n - 1])
  {
  }

  lemma NothingLogged(h: Hooks, ops: seq<Op>, e: Effect)
    ensures Count(Log(h, ops, 0), e) == 0 == Increase(h, INITIAL, After(h, ops, 0), e)
  {
  }

  lemma IncreaseAdds(h: Hooks, a: Gate, b: Gate, c: Gate, e: Effect)
    ensures Increase(h, a, b, e) + Increase(h, b, c, e) == Increase(h, a, c, e)
  {
  }

  lemma {:induction false} CountersAreHistory(h: Hooks, ops: seq<Op>, n: nat)
    requires n <= |ops|
    ensures var g := After(h, ops, n);
      && g.disconnects == DropCount(h, ops, n) && g.resyncs == ReconnectCount(h, ops, n) && g.recoveries <= g.resyncs
    ensures !h.confirmRecovery ==> After(h, ops, n).recoveries == 0
  {
    if n > 0 {
      CountersAreHistory(h, ops, n - 1);
      CountersStep(h, ops, n);
      AllowedIffAllRestored(h, ops, n - 1);
      hide After, AllRestored, Drops, Connects;
    }
  }

  /**
   One release of everything per lost link, one resync per lost link and per reconnection, and
   the recovery counter counts exactly the confirmations that were refused.  Each state entered is
   announced once.
   */
  lemma CallsMatchCounters(h: Hooks, ops: seq<Op>, n: nat)
    requires n <= |ops|
    ensures var g, log := After(h, ops, n), Log(h, ops, n);
      && g.disconnects == DropCount(h, ops, n) && g.resyncs == ReconnectCount(h, ops, n)
      && Count(log, ReleaseAll) == (if h.readPressed && h.releaseAll then g.disconnects else 0)
      && Count(log, TriggerResync) == (if h.triggerResync then g.disconnects + g.resyncs else 0)
      && Count(log, Confirm(true)) + Count(log, Confirm(false)) == (if h.confirmRecovery then g.resyncs else 0)
      && g.recoveries == Count(log, Confirm(false)) <= g.resyncs
      && (h.stateChange ==>
            && Count(log, Changed(Disconnected)) == Count(log, Changed(Reconnecting)) == g.disconnects
            && Count(log, Changed(Resync)) == g.resyncs
            && Count(log, Changed(Recovery)) == g.recoveries
            && Count(log, Changed(Connected)) == g.resyncs - g.recoveries)
  {
    hide Count, Log, After, DropCount, ReconnectCount;
    CountersAreHistory(h, ops, n);
    CountLog(h, ops, n, Changed(Disconnected));
    CountLog(h, ops, n, Changed(Reconnecting));
    CountLog(h, ops, n, Changed(Resync));
    CountLog(h, ops, n, Changed(Recovery));
    CountLog(h, ops, n, Changed(Connected));
    CountLog(h, ops, n, ReleaseAll);
    CountLog(h, ops, n, TriggerResync);
    CountLog(h, ops, n, Confirm(true));
    CountLog(h, ops, n, Confirm(false));
  }

  /** The state announced last; the coordinator begins as connected. */
  function LastAnnounced(calls: Calls): GateState {
    if calls == [] then Connected
    else if calls[|calls| - 1].Changed? then calls[|calls| - 1].state
    else LastAnnounced(calls[..|calls| - 1])
  }

  lemma {:induction false} LastAnnouncedOf(calls: Calls, more: Calls)
    ensures LastAnnounced(calls + more)
            == if exists i :: 0 <= i < |more| && more[i].Changed? then LastAnnounced(more) else LastAnnounced(calls)
  {
    if more == [] {
      assert calls + more == calls;
    } else {
      var all, fewer := calls + more, more[..|more| - 1];
      assert all[..|all| - 1] == calls + fewer && all[|all| - 1] == more[|more| - 1];
      LastAnnouncedOf(calls, fewer);
      assert forall i :: 0 <= i < |fewer| ==> fewer[i] == more[i];
    }
  }

  /** One call's announcements end with the state it leaves, if there are any, and there are if it changed. */
  lemma StepAnnounces(h: Hooks, g: Gate, op: Op, before: Calls)
    requires Resting(g.state) && h.stateChange && LastAnnounced(before) == g.state
    ensures LastAnnounced(before + CallsOf(h, g, op)) == Do(h, g, op).state
  {
    var calls := CallsOf(h, g, op);
    LastAnnouncedOf(before, calls);
    hide LastAnnounced;
    if calls != [] {
      assert calls[|calls| - 1] == Changed(Do(h, g, op).state);
      EndsAnnounced(calls);
    }
  }

  lemma EndsAnnounced(calls: Calls)
    requires calls != [] && calls[|calls| - 1].Changed?
    ensures LastAnnounced(calls) == calls[|calls| - 1].state
  {
  }

  /** Whoever listens to the announcements always knows the state. */
  lemma {:induction false} AnnouncedIsState(h: Hooks, ops: seq<Op>, n: nat)
    requires n <= |ops| && h.stateChange
    ensures LastAnnounced(Log(h, ops, n)) == After(h, ops, n).state
  {
    hide *;
    if n == 0 {
      NothingAnnounced(h, ops);
    } else {
      AnnouncedIsState(h, ops, n - 1);
      AllowedIffAllRestored(h, ops, n - 1);
      LogUnfolds(h, ops, n);
      StepAnnounces(h, After(h, ops, n - 1), ops[n - 1], Log(h, ops, n - 1));
    }
  }

  lemma NothingAnnounced(h: Hooks, ops: seq<Op>)
    ensures LastAnnounced(Log(h, ops, 0)) == After(h, ops, 0).state
  {
  }

  /**
   The order of the calls: everything is released right after the loss is announced, and the
   gate is announced open right after a confirmed recovery.
   */
  ghost predicate InOrder(h: Hooks, calls: Calls) {
    && (h.readPressed && h.releaseAll ==>
         forall i :: 0 <= i < |calls| && calls[i] == Changed(Disconnected) ==> i + 1 < |calls| && calls[i + 1] == ReleaseAll)
    && (h.confirmRecovery ==>
         forall i :: 0 <= i < |calls| && calls[i] == Changed(Connected) ==> i > 0 && calls[i - 1] == Confirm(true))
  }

  lemma InOrderAppended(h: Hooks, calls: Calls, more: Calls)
    requires InOrder(h, calls) && InOrder(h, more)
    ensures InOrder(h, calls + more)
  {
  }

  lemma PairInOrder(h: Hooks, b1: bool, e1: Effect, b2: bool, e2: Effect)
    requires b1 && e1 == Changed(Disconnected) && h.readPressed && h.releaseAll ==> b2 && e2 == ReleaseAll
    requires b2 && e2 == Changed(Connected) && h.confirmRecovery ==> b1 && e1 == Confirm(true)
    requires e2 != Changed(Disconnected) && e1 != Changed(Connected)
    ensures InOrder(h, Opt(b1, e1) + Opt(b2, e2))
  {
    var calls := Opt(b1, e1) + Opt(b2, e2);
    if b1 {
      assert calls == if b2 then [e1, e2] else [e1];
    } else {
      assert calls == if b2 then [e2] else [];
    }
  }

  lemma DropInOrder(h: Hooks, g: Gate)
    ensures InOrder(h, DropCalls(h, g))
  {
    var first := Announce(h, g.state, Disconnected) + Opt(h.readPressed && h.releaseAll, ReleaseAll);
    var second := Opt(h.triggerResync, TriggerResync) + Announce(h, Disconnected, Reconnecting);
    assert InOrder(h, first) && InOrder(h, second);
    hide InOrder, Opt, Announce;
    InOrderAppended(h, first, second);
  }

  lemma ConnectInOrder(h: Hooks, g: Gate, recovered: bool)
    ensures InOrder(h, ConnectCalls(h, g, recovered))
  {
    var to := if Confirmed(h, recovered) then Connected else Recovery;
    var first := Announce(h, g.state, Resync) + Opt(h.triggerResync, TriggerResync);
    var second := Opt(h.confirmRecovery, Confirm(recovered)) + Announce(h, Resync, to);
    PairInOrder(h, h.stateChange && g.state != Resync, Changed(Resync), h.triggerResync, TriggerResync);
    PairInOrder(h, h.confirmRecovery, Confirm(recovered), h.stateChange && Resync != to, Changed(to));
    assert InOrder(h, first) && InOrder(h, second) && InOrder(h, []) by { hide Opt; }
    hide InOrder, Opt, Announce;
    InOrderAppended(h, first, second);
  }

  lemma StepInOrder(h: Hooks, g: Gate, op: Op)
    requires Resting(g.state)
    ensures InOrder(h, CallsOf(h, g, op))
  {
    assert InOrder(h, []);
    hide InOrder, DropCalls, ConnectCalls;
    DropInOrder(h, g);
    if op.Link? {
      ConnectInOrder(h, g, op.recovered);
    }
  }

  lemma {:induction false} CallsAreInOrder(h: Hooks, ops: seq<Op>, n: nat)
    requires n <= |ops|
    ensures InOrder(h, Log(h, ops, n))
  {
    if n > 0 {
      CallsAreInOrder(h, ops, n - 1);
      AllowedIffAllRestored(h, ops, n - 1);
      var g := After(h, ops, n - 1);
      StepInOrder(h, g, ops[n - 1]);
      InOrderAppended(h, Log(h, ops, n - 1), CallsOf(h, g, ops[n - 1]));
      hide InOrder, CallsOf, After;
    }
  }

  // ---- the object --------------------------------------------------------------------------------

  lemma Regroup(log: Calls, a: Calls, b: Calls, c: Calls, d: Calls)
    ensures log + a + b + c + d == log + ((a + b) + (c + d))
  {
  }

  class DisconnectResyncCoordinator {
    const hooks: Hooks
    var state: GateState
    var started: bool
    var disconnectCount: nat
    var resyncCount: nat
    var recoveryCount: nat
    /** The calls made to the supplied functions. */
    var calls: Calls

    function View(): Gate
      reads this
    {
      Gate(state, started, disconnectCount, resyncCount, recoveryCount)
    }

    constructor (hooks: Hooks)
      ensures this.hooks == hooks && View() == INITIAL && calls == []
    {
      this.hooks := hooks;
      state, started := Connected, false;
      disconnectCount, resyncCount, recoveryCount := 0, 0, 0;
      calls := [];
    }

    method StartGate()
      modifies this
      ensures View() == Do(hooks, old(View()), Start) && calls == old(calls)
    {
      if started {
        return;
      }
      started := true;
    }

    method StopGate()
      modifies this
      ensures View() == Do(hooks, old(View()), Stop) && calls == old(calls)
    {
      started := false;
    }

    method TransitionTo(newState: GateState)
      modifies this
      ensures View() == old(View()).(state := newState)
      ensures calls == old(calls) + Announce(hooks, old(state), newState)
    {
      var oldState := state;
      state := newState;
      if oldState != newState && hooks.stateChange {
        calls := calls + [Changed(newState)];
      } else {
        assert calls + [] == calls;
      }
    }

    /** Calls one of the supplied functions, if it is there. */
    method Invoke(supplied: bool, e: Effect)
      modifies this`calls
      ensures calls == old(calls) + Opt(supplied, e)
    {
      if supplied {
        calls := calls + [e];
      } else {
        assert calls + [] == calls;
      }
    }

    method OnDisconnected()
      modifies this
      ensures View() == Drop(old(View())) && calls == old(calls) + DropCalls(hooks, old(View()))
    {
      hide Opt, Announce;
      TransitionTo(Disconnected);
      disconnectCount := disconnectCount + 1;
      Invoke(hooks.readPressed && hooks.releaseAll, ReleaseAll);
      Invoke(hooks.triggerResync, TriggerResync);
      TransitionTo(Reconnecting);
      Regroup(old(calls), Announce(hooks, old(state), Disconnected), Opt(hooks.readPressed && hooks.releaseAll, ReleaseAll),
              Opt(hooks.triggerResync, TriggerResync), Announce(hooks, Disconnected, Reconnecting));
    }

    method OnReconnecting()
      modifies this
      ensures View() == Connecting(old(View()))
      ensures calls == if old(state) == Disconnected then old(calls) + Announce(hooks, Disconnected, Reconnecting) else old(calls)
    {
      if state == Disconnected {
        TransitionTo(Reconnecting);
      }
    }

    method OnConnected(recovered: bool)
      modifies this
      ensures View() == Connect(hooks, old(View()), recovered)
      ensures calls == old(calls) + ConnectCalls(hooks, old(View()), recovered)
    {
      if state == Connected {
        assert calls + [] == calls;
        return;
      }
      hide Opt, Announce;
      TransitionTo(Resync);
      resyncCount := resyncCount + 1;
      Invoke(hooks.triggerResync, TriggerResync);
      var recoveryConfirmed := true;
      Invoke(hooks.confirmRecovery, Confirm(recovered));
      if hooks.confirmRecovery {
        recoveryConfirmed := recovered;
      }
      if recoveryConfirmed {
        TransitionTo(Connected);
      } else {
        TransitionTo(Recovery);
        recoveryCount := recoveryCount + 1;
      }
      Regroup(old(calls), Announce(hooks, old(state), Resync), Opt(hooks.triggerResync, TriggerResync),
              Opt(hooks.confirmRecovery, Confirm(recovered)), Announce(hooks, Resync, if recoveryConfirmed then Connected else Recovery));
    }

    method HandleLinkState(link: LinkState, recovered: bool)
      modifies this
      ensures View() == Do(hooks, old(View()), Link(link, recovered))
      ensures calls == old(calls) + CallsOf(hooks, old(View()), Link(link, recovered))
    {
      hide DropCalls, ConnectCalls, Announce;
      assert calls + [] == calls;
      if !started {
        return;
      }
      match link {
        case LinkConnected => OnConnected(recovered);
        case LinkDisconnected => OnDisconnected();
        case LinkLost => OnDisconnected();
        case LinkConnecting => OnReconnecting();
        case _ =>
      }
    }
  }
}
