/** Releasing everything that is pressed, within a deadline. */
module ReleaseExecutor {
  import opened Common
  import opened Bitmaps

  /** The clock counts nanoseconds; the deadline is 100 ms. */
  const DEADLINE_NS := 100_000_000

  datatype Target = MouseButtonRelease(button: nat) | KeyRelease(code: nat)

  datatype Event = Event(eventId: nat, timestamp: Word, target: Target, sourceNodeId: nat)

  /** What an execution does that can be seen from outside. */
  datatype Act = Read(time: int) | Inject(event: Event, ok: bool)

  datatype ExecutionResult = Success | PartialRelease | DeadlineReached | Degraded

  /**
   The surroundings: `clock(k)` is what reading number `k` gives, `accepts(n)` whether injection
   number `n` succeeds.
   */
  datatype World = World(clock: nat -> int, accepts: nat -> bool, sourceNodeId: nat, firstEventId: nat) {
    function Start(): int {
      clock(0)
    }

    function Deadline(): int {
      clock(0) + DEADLINE_NS
    }
  }

  /** The state of the loops: what was done, how often the clock was read, and whether they were left. */
  datatype Progress = Progress(acts: seq<Act>, readings: nat, injected: nat, released: nat, stopped: bool)

  function AtStart(w: World): Progress {
    Progress([Read(w.clock(0))], 1, 0, 0, false)
  }

  function ReleaseEvent(w: World, n: nat, target: Target): Event {
    Event(w.firstEventId + n, w.Start() % U64_SIZE, target, w.sourceNodeId)
  }

  /** One pressed button or key: look at the clock, inject, look again. */
  function ReleaseOne(w: World, p: Progress, target: Target): Progress {
    if p.stopped then p
    else
      var before := w.clock(p.readings);
      if before >= w.Deadline() then p.(acts := p.acts + [Read(before)], readings := p.readings + 1, stopped := true)
      else
        var ok := w.accepts(p.injected);
        var after := w.clock(p.readings + 1);
        Progress(p.acts + [Read(before), Inject(ReleaseEvent(w, p.injected, target), ok), Read(after)],
                 p.readings + 2, p.injected + 1, p.released + (if ok then 1 else 0), after >= w.Deadline())
  }

  function ReleaseAll(w: World, targets: seq<Target>): Progress {
    if targets == [] then AtStart(w)
    else ReleaseOne(w, ReleaseAll(w, targets[..|targets| - 1]), targets[|targets| - 1])
  }

  function Buttons(bits: Byte, n: nat): seq<Target> {
    if n == 0 then []
    else Buttons(bits, n - 1) + (if Bit(bits, n - 1) then [MouseButtonRelease(n - 1)] else [])
  }

  function Keys(words: KeyWords, n: nat): seq<Target> {
    if n == 0 then []
    else Keys(words, n - 1) + (if KeyPressed(words, n - 1) then [KeyRelease(n - 1)] else [])
  }

  /** One release per pressed button, in ascending order. */
  lemma {:induction false} ButtonsArePressed(bits: Byte, n: nat)
    ensures |Buttons(bits, n)| == |PressedButtons(bits, n)|
    ensures forall i :: 0 <= i < |Buttons(bits, n)| ==> Buttons(bits, n)[i] == MouseButtonRelease(PressedButtons(bits, n)[i])
  {
    if n > 0 {
      ButtonsArePressed(bits, n - 1);
    }
  }

  /** One release per pressed key, in ascending order. */
  lemma {:induction false} KeysArePressed(words: KeyWords, n: nat)
    ensures |Keys(words, n)| == |PressedKeys(words, n)|
    ensures forall i :: 0 <= i < |Keys(words, n)| ==> Keys(words, n)[i] == KeyRelease(PressedKeys(words, n)[i])
  {
    if n > 0 {
      KeysArePressed(words, n - 1);
    }
  }

  /** Everything to release, in order: the buttons, then the keys, each in ascending order. */
  function Targets(bits: Byte, words: KeyWords): seq<Target> {
    Buttons(bits, 8) + Keys(words, 256)
  }

  lemma {:induction false} InButtons(bits: Byte, n: nat, target: Target)
    ensures target in Buttons(bits, n) <==> target.MouseButtonRelease? && target.button < n && Bit(bits, target.button)
    ensures forall i, j :: 0 <= i < j < |Buttons(bits, n)| ==> Buttons(bits, n)[i] != Buttons(bits, n)[j]
  {
    hide Bit;
    if n > 0 {
      InButtons(bits, n - 1, target);
      InButtons(bits, n - 1, MouseButtonRelease(n - 1));
    }
  }

  lemma {:induction false} InKeys(words: KeyWords, n: nat, target: Target)
    ensures target in Keys(words, n) <==> target.KeyRelease? && target.code < n && KeyPressed(words, target.code)
    ensures forall i, j :: 0 <= i < j < |Keys(words, n)| ==> Keys(words, n)[i] != Keys(words, n)[j]
  {
    hide KeyPressed;
    if n > 0 {
      InKeys(words, n - 1, target);
      InKeys(words, n - 1, KeyRelease(n - 1));
    }
  }

  lemma NoneTwice(a: seq<Target>, b: seq<Target>)
    requires forall i, j :: 0 <= i < j < |a| ==> a[i] != a[j]
    requires forall i, j :: 0 <= i < j < |b| ==> b[i] != b[j]
    requires forall target :: target in a ==> target !in b
    ensures forall i, j :: 0 <= i < j < |a + b| ==> (a + b)[i] != (a + b)[j]
  {
    forall i, j | 0 <= i < j < |a + b|
      ensures (a + b)[i] != (a + b)[j]
    {
      if i < |a| <= j {
        assert a[i] in a && b[j - |a|] in b;
      }
    }
  }

  /** What is pressed, button or key, is what is to be released, and nothing twice. */
  lemma TargetsArePressed(bits: Byte, words: KeyWords, target: Target)
    ensures target in Targets(bits, words) <==>
      match target
      case MouseButtonRelease(b) => b < 8 && Bit(bits, b)
      case KeyRelease(c) => c < 256 && KeyPressed(words, c)
    ensures forall i, j :: 0 <= i < j < |Targets(bits, words)| ==> Targets(bits, words)[i] != Targets(bits, words)[j]
  {
    InButtons(bits, 8, target);
    InKeys(words, 256, target);
    forall t
      ensures t in Buttons(bits, 8) ==> t !in Keys(words, 256)
    {
      InButtons(bits, 8, t);
      InKeys(words, 256, t);
    }
    hide Bit, KeyPressed, Buttons, Keys;
    NoneTwice(Buttons(bits, 8), Keys(words, 256));
  }

  /** The result after one more execution; `previous` is the one kept from the last. */
  function ResultOf(previous: ExecutionResult, p: Progress, pressed: nat): ExecutionResult {
    if p.stopped || previous == DeadlineReached then DeadlineReached
    else if p.released == pressed && pressed > 0 then Success
    else if p.released > 0 then PartialRelease
    else if pressed == 0 then Success
    else Degraded
  }

  // ---- what an execution does ----------------------------------------------------------------------

  function Injections(acts: seq<Act>): (r: seq<Event>)
  {
    if acts == [] then []
    else Injections(acts[..|acts| - 1]) + (if acts[|acts| - 1].Inject? then [acts[|acts| - 1].event] else [])
  }

  lemma InjectionsOfOneMore(acts: seq<Act>, a: Act, b: Act, c: Act)
    requires a.Read? && b.Inject? && c.Read?
    ensures Injections(acts + [a]) == Injections(acts)
    ensures Injections(acts + [a, b, c]) == Injections(acts) + [b.event]
  {
    var abc := acts + [a, b, c];
    assert abc[..|abc| - 1] == acts + [a, b];
    assert (acts + [a, b])[..|acts| + 1] == acts + [a];
    assert (acts + [a])[..|acts|] == acts;
  }

  /** The `n` events an undisturbed execution starts with. */
  function FirstEvents(w: World, targets: seq<Target>, n: nat): seq<Event>
    requires n <= |targets|
  {
    seq(n, i requires 0 <= i < n => ReleaseEvent(w, i, targets[i]))
  }

  /**
   The injections are the release events of the first so many targets, each once and in order,
   with ascending ids; only an execution that was stopped leaves some out.
   */
  lemma {:induction false} InjectionsArePrefix(w: World, targets: seq<Target>)
    ensures var p := ReleaseAll(w, targets);
      && p.injected <= |targets|
      && Injections(p.acts) == FirstEvents(w, targets, p.injected)
      && (!p.stopped ==> p.injected == |targets|)
  {
    if targets == [] {
      NothingInjected(w);
    } else {
      var n := |targets| - 1;
      var p := ReleaseAll(w, targets[..n]);
      InjectionsArePrefix(w, targets[..n]);
      InjectionsStep(w, targets, p);
      hide ReleaseOne, Injections, FirstEvents;
    }
  }

  lemma NothingInjected(w: World)
    ensures Injections(AtStart(w).acts) == []
  {
    assert [Read(w.clock(0))][..0] == [];
  }

  lemma FirstEventsOfPrefix(w: World, targets: seq<Target>, n: nat, m: nat)
    requires m <= n <= |targets|
    ensures FirstEvents(w, targets[..n], m) == FirstEvents(w, targets, m)
  {
  }

  /** One more target after the first `n`. */
  lemma InjectionsStep(w: World, targets: seq<Target>, p: Progress)
    requires targets != []
    requires var n := |targets| - 1;
      p.injected <= n && Injections(p.acts) == FirstEvents(w, targets[..n], p.injected) && (!p.stopped ==> p.injected == n)
    ensures var q := ReleaseOne(w, p, targets[|targets| - 1]);
      && p.injected <= q.injected <= |targets|
      && Injections(q.acts) == FirstEvents(w, targets, q.injected)
      && (!q.stopped ==> q.injected == |targets|)
  {
    var n := |targets| - 1;
    FirstEventsOfPrefix(w, targets, n, p.injected);
    hide Injections;
    if !p.stopped {
      var event := ReleaseEvent(w, n, targets[n]);
      assert FirstEvents(w, targets, n + 1) == FirstEvents(w, targets, n) + [event];
      InjectionsOfOneMore(p.acts, Read(w.clock(p.readings)), Inject(event, w.accepts(n)), Read(w.clock(p.readings + 1)));
      hide FirstEvents;
    }
  }

  /** Each event releases its target, and carries the next id, the start time and the given source. */
  lemma EachReleasesItsTarget(w: World, targets: seq<Target>)
    ensures var events := Injections(ReleaseAll(w, targets).acts);
      && |events| <= |targets|
      && forall i :: 0 <= i < |events| ==>
           && events[i].target == targets[i] && events[i].eventId == w.firstEventId + i
           && events[i].timestamp == w.clock(0) % U64_SIZE && events[i].sourceNodeId == w.sourceNodeId
  {
    InjectionsArePrefix(w, targets);
    hide Injections, ReleaseAll;
  }

  /** What the clock gave, and how the injections went, in order. */
  function Times(acts: seq<Act>): seq<int> {
    if acts == [] then []
    else Times(acts[..|acts| - 1]) + (if acts[|acts| - 1].Read? then [acts[|acts| - 1].time] else [])
  }

  function Outcomes(acts: seq<Act>): seq<bool> {
    if acts == [] then []
    else Outcomes(acts[..|acts| - 1]) + (if acts[|acts| - 1].Inject? then [acts[|acts| - 1].ok] else [])
  }

  lemma TimesOfOneMore(acts: seq<Act>, a: Act)
    ensures Times(acts + [a]) == Times(acts) + (if a.Read? then [a.time] else [])
    ensures Outcomes(acts + [a]) == Outcomes(acts) + (if a.Inject? then [a.ok] else [])
  {
    assert (acts + [a])[..|acts|] == acts;
  }

  /** The first `n` answers of `f`. */
  function FirstOf<T>(f: nat -> T, n: nat): (r: seq<T>)
    ensures |r| == n && forall k :: 0 <= k < n ==> r[k] == f(k)
  {
    seq(n, k requires 0 <= k => f(k))
  }

  lemma OneMoreOf<T>(f: nat -> T, n: nat)
    ensures FirstOf(f, n + 1) == FirstOf(f, n) + [f(n)]
  {
  }

  /** Every reading is the next of the clock, and every injection has the next answer, none left out. */
  predicate TakenInTurn(w: World, p: Progress) {
    Times(p.acts) == FirstOf(w.clock, p.readings) && Outcomes(p.acts) == FirstOf(w.accepts, p.injected)
  }

  lemma OneTakenInTurn(w: World, p: Progress, target: Target)
    requires TakenInTurn(w, p)
    ensures TakenInTurn(w, ReleaseOne(w, p, target))
  {
    var read := Read(w.clock(p.readings));
    var inject := Inject(ReleaseEvent(w, p.injected, target), w.accepts(p.injected));
    var again := Read(w.clock(p.readings + 1));
    hide FirstOf, Times, Outcomes, ReleaseEvent;
    ThreeMore(p.acts, read, inject, again);
    TimesOfOneMore(p.acts, read);
    OneMoreOf(w.clock, p.readings);
    OneMoreOf(w.clock, p.readings + 1);
    OneMoreOf(w.accepts, p.injected);
    assert Times(p.acts) + [read.time] + [again.time] == Times(p.acts) + [read.time, again.time];
    assert Outcomes(p.acts) + [] == Outcomes(p.acts);
  }

  lemma ThreeMore(acts: seq<Act>, a: Act, b: Act, c: Act)
    requires a.Read? && b.Inject? && c.Read?
    ensures Times(acts + [a, b, c]) == Times(acts) + [a.time, c.time]
    ensures Outcomes(acts + [a, b, c]) == Outcomes(acts) + [b.ok]
  {
    hide *;
    TimesOfOneMore(acts, a);
    TimesOfOneMore(acts + [a], b);
    TimesOfOneMore(acts + [a] + [b], c);
    assert acts + [a, b, c] == acts + [a] + [b] + [c];
  }

  lemma {:induction false} ReadingsAndAnswersInTurn(w: World, targets: seq<Target>)
    ensures TakenInTurn(w, ReleaseAll(w, targets))
  {
    if targets == [] {
      TimesOfOneMore([], Read(w.clock(0)));
      assert [] + [Read(w.clock(0))] == [Read(w.clock(0))];
    } else {
      ReadingsAndAnswersInTurn(w, targets[..|targets| - 1]);
      OneTakenInTurn(w, ReleaseAll(w, targets[..|targets| - 1]), targets[|targets| - 1]);
      hide TakenInTurn, ReleaseOne;
    }
  }

  /** Every injection comes right after a clock reading before the deadline. */
  ghost predicate GuardedByClock(w: World, acts: seq<Act>) {
    forall i :: 0 <= i < |acts| && acts[i].Inject? ==> i > 0 && acts[i - 1].Read? && acts[i - 1].time < w.Deadline()
  }

  /** Before its last act the execution saw no reading at or past the deadline. */
  ghost predicate InTimeUntilLast(w: World, acts: seq<Act>) {
    forall i :: 0 <= i < |acts| - 1 && acts[i].Read? ==> acts[i].time < w.Deadline()
  }

  /** What the clock has allowed so far. */
  ghost predicate Obeyed(w: World, p: Progress) {
    && GuardedByClock(w, p.acts)
    && InTimeUntilLast(w, p.acts)
    && |p.acts| > 0 && p.acts[0] == Read(w.Start()) && p.acts[|p.acts| - 1].Read?
    && (p.stopped <==> p.acts[|p.acts| - 1].time >= w.Deadline())
  }

  lemma ObeyedStep(w: World, p: Progress, target: Target)
    requires Obeyed(w, p)
    ensures Obeyed(w, ReleaseOne(w, p, target))
  {
    hide ReleaseEvent;
  }

  lemma {:induction false} ClockIsObeyed(w: World, targets: seq<Target>)
    ensures var p := ReleaseAll(w, targets);
      && GuardedByClock(w, p.acts)
      && InTimeUntilLast(w, p.acts)
      && |p.acts| > 0 && p.acts[0] == Read(w.Start()) && p.acts[|p.acts| - 1].Read?
      && (p.stopped <==> p.acts[|p.acts| - 1].time >= w.Deadline())
  {
    if targets != [] {
      ClockIsObeyed(w, targets[..|targets| - 1]);
      ObeyedStep(w, ReleaseAll(w, targets[..|targets| - 1]), targets[|targets| - 1]);
      hide ReleaseOne;
    }
  }

  /** The number of successful injections among the first `n`. */
  function Accepted(w: World, n: nat): (r: nat)
    ensures r <= n
    ensures r == n <==> forall i :: 0 <= i < n ==> w.accepts(i)
    ensures r == 0 <==> forall i :: 0 <= i < n ==> !w.accepts(i)
  {
    if n == 0 then 0 else Accepted(w, n - 1) + (if w.accepts(n - 1) then 1 else 0)
  }

  lemma {:induction false} ReleasedAreAccepted(w: World, targets: seq<Target>)
    ensures var p := ReleaseAll(w, targets); p.released == Accepted(w, p.injected)
  {
    if targets != [] {
      ReleasedAreAccepted(w, targets[..|targets| - 1]);
    }
  }

  /**
   The result tells exactly what happened, provided the previous execution did not end at its
   deadline: success if and only if no reading reached the deadline and every pressed button
   and key was injected with success.
   */
  lemma ResultIsExact(w: World, targets: seq<Target>, previous: ExecutionResult)
    requires previous != DeadlineReached
    ensures var p := ReleaseAll(w, targets); var r := ResultOf(previous, p, |targets|);
      && (r == DeadlineReached <==> exists i :: 0 <= i < |p.acts| && p.acts[i].Read? && p.acts[i].time >= w.Deadline())
      && (r == Success <==> !p.stopped && p.injected == |targets| && forall i :: 0 <= i < |targets| ==> w.accepts(i))
      && (r == Degraded <==> !p.stopped && targets != [] && forall i :: 0 <= i < |targets| ==> !w.accepts(i))
  {
    InjectionsArePrefix(w, targets);
    ClockIsObeyed(w, targets);
    ReleasedAreAccepted(w, targets);
    hide ReleaseAll, Accepted;
  }

  // ---- one execution after another -----------------------------------------------------------------

  /** One call of the executor: its surroundings and what was pressed. */
  datatype Execution = Execution(w: World, bits: Byte, words: KeyWords) {
    function Pressed(): seq<Target> {
      Targets(bits, words)
    }

    function Outcome(): Progress {
      ReleaseAll(w, Pressed())
    }
  }

  /** The result kept after a whole history of executions by one executor. */
  function ResultAfter(history: seq<Execution>): ExecutionResult {
    if history == [] then Success
    else
      var last := history[|history| - 1];
      ResultOf(ResultAfter(history[..|history| - 1]), last.Outcome(), |last.Pressed()|)
  }

  /** Some execution of the history was stopped at its deadline. */
  ghost predicate EverStopped(history: seq<Execution>) {
    exists i :: 0 <= i < |history| && history[i].Outcome().stopped
  }

  /** The result is that the deadline was reached if and only if it was in some execution so far, however long ago. */
  lemma {:induction false} DeadlineIsSticky(history: seq<Execution>)
    ensures ResultAfter(history) == DeadlineReached <==> EverStopped(history)
  {
    hide ReleaseAll, Targets;
    if history != [] {
      var earlier := history[..|history| - 1];
      DeadlineIsSticky(earlier);
      if EverStopped(earlier) {
        var i :| 0 <= i < |earlier| && earlier[i].Outcome().stopped;
        assert history[i].Outcome().stopped;
      }
      assert forall i :: 0 <= i < |earlier| ==> history[i] == earlier[i];
    }
  }

  /**
   The result of an execution speaks of that execution alone if and only if it was stopped itself
   or none before it was: what an executor that had never run would report.
   */
  lemma ResultSpeaksOfLastIff(history: seq<Execution>)
    requires history != []
    ensures var earlier, last := history[..|history| - 1], history[|history| - 1];
      ResultAfter(history) == ResultAfter([last]) <==> last.Outcome().stopped || !EverStopped(earlier)
  {
    var last := history[|history| - 1];
    DeadlineIsSticky(history[..|history| - 1]);
    assert [last][..0] == [];
    assert ResultAfter([last]) == ResultOf(Success, last.Outcome(), |last.Pressed()|);
    hide ReleaseAll, Targets, EverStopped;
  }

  // ---- the object --------------------------------------------------------------------------------

  /** Division of the elapsed time, rounding toward zero, kept in 32 bits. */
  function ElapsedMs(ns: int): nat {
    (if ns >= 0 then ns / 1_000_000 else -(-ns / 1_000_000)) % U32_SIZE
  }

  lemma ButtonsGrow(bits: Byte, n: nat)
    ensures Buttons(bits, n + 1) == if Bit(bits, n) then Buttons(bits, n) + [MouseButtonRelease(n)] else Buttons(bits, n)
  {
    assert Buttons(bits, n) + [] == Buttons(bits, n);
  }

  lemma KeysGrow(words: KeyWords, n: nat)
    ensures Keys(words, n + 1) == if KeyPressed(words, n) then Keys(words, n) + [KeyRelease(n)] else Keys(words, n)
  {
    assert Keys(words, n) + [] == Keys(words, n);
  }

  lemma OneMoreTarget(w: World, targets: seq<Target>, target: Target)
    ensures ReleaseAll(w, targets + [target]) == ReleaseOne(w, ReleaseAll(w, targets), target)
  {
    assert (targets + [target])[..|targets|] == targets;
  }

  /** Once the loops have been left, further targets make no difference. */
  lemma {:induction false} StoppedStays(w: World, targets: seq<Target>, all: seq<Target>)
    requires targets <= all && ReleaseAll(w, targets).stopped
    ensures ReleaseAll(w, all) == ReleaseAll(w, targets)
    decreases |all|
  {
    if |targets| < |all| {
      StoppedStays(w, targets, all[..|all| - 1]);
    } else {
      assert targets == all;
    }
  }

  lemma {:induction false} ButtonsStartWith(bits: Byte, n: nat, m: nat)
    requires n <= m
    ensures Buttons(bits, n) <= Buttons(bits, m)
    decreases m - n
  {
    hide *;
    if n < m {
      ButtonsGrow(bits, m - 1);
      ButtonsStartWith(bits, n, m - 1);
    }
  }

  lemma {:induction false} KeysStartWith(words: KeyWords, n: nat, m: nat)
    requires n <= m
    ensures Keys(words, n) <= Keys(words, m)
    decreases m - n
  {
    hide *;
    if n < m {
      KeysGrow(words, m - 1);
      KeysStartWith(words, n, m - 1);
    }
  }

  lemma NextKey(w: World, buttons: seq<Target>, words: KeyWords, code: nat)
    requires KeyPressed(words, code)
    ensures ReleaseAll(w, buttons + Keys(words, code + 1)) == ReleaseOne(w, ReleaseAll(w, buttons + Keys(words, code)), KeyRelease(code))
  {
    KeysGrow(words, code);
    hide Keys, ReleaseAll, ReleaseOne;
    assert buttons + Keys(words, code + 1) == buttons + Keys(words, code) + [KeyRelease(code)];
    OneMoreTarget(w, buttons + Keys(words, code), KeyRelease(code));
  }

  lemma StoppedAtKey(w: World, buttons: seq<Target>, words: KeyWords, n: nat)
    requires n <= 256 && ReleaseAll(w, buttons + Keys(words, n)).stopped
    ensures ReleaseAll(w, buttons + Keys(words, 256)) == ReleaseAll(w, buttons + Keys(words, n))
  {
    hide *;
    KeysStartWith(words, n, 256);
    StoppedStays(w, buttons + Keys(words, n), buttons + Keys(words, 256));
  }

  class ReleaseAllPressedExecutor {
    var lastResult: ExecutionResult
    var releasedCount: nat
    var totalElapsedMs: nat
    var executionCount: nat

    constructor ()
      ensures lastResult == Success && releasedCount == 0 && totalElapsedMs == 0 && executionCount == 0
    {
      lastResult := Success;
      releasedCount, totalElapsedMs, executionCount := 0, 0, 0;
    }

    /** One pressed target of either loop; the caller leaves its loop when `p.stopped`. */
    static method Release(w: World, p: Progress, target: Target) returns (r: Progress)
      requires !p.stopped
      ensures r == ReleaseOne(w, p, target)
    {
      var acts, readings := p.acts, p.readings;
      var t := w.clock(readings);
      acts, readings := acts + [Read(t)], readings + 1;
      if t >= w.Deadline() {
        return p.(acts := acts, readings := readings, stopped := true);
      }
      var event := Event(w.firstEventId + p.injected, w.Start() % U64_SIZE, target, w.sourceNodeId);
      var ok := w.accepts(p.injected);
      acts := acts + [Inject(event, ok)];
      var released := if ok then p.released + 1 else p.released;
      t := w.clock(readings);
      acts, readings := acts + [Read(t)], readings + 1;
      r := Progress(acts, readings, p.injected + 1, released, t >= w.Deadline());
      assert acts == p.acts + [Read(w.clock(p.readings)), Inject(event, ok), Read(t)];
    }

    static method ReleaseButtons(mouse: MouseButtonBitmap, w: World) returns (p: Progress)
      ensures p == ReleaseAll(w, Buttons(mouse.bits, 8))
    {
      p := AtStart(w);
      var button := 0;
      while button < 8
        invariant 0 <= button <= 8 && !p.stopped
        invariant p == ReleaseAll(w, Buttons(mouse.bits, button))
      {
        hide ReleaseAll, ReleaseOne, Buttons, Bit;
        ButtonsGrow(mouse.bits, button);
        if mouse.IsPressed(button) {
          OneMoreTarget(w, Buttons(mouse.bits, button), MouseButtonRelease(button));
          p := Release(w, p, MouseButtonRelease(button));
          if p.stopped {
            ButtonsStartWith(mouse.bits, button + 1, 8);
            StoppedStays(w, Buttons(mouse.bits, button + 1), Buttons(mouse.bits, 8));
            return;
          }
        }
        button := button + 1;
      }
    }

    static method ReleaseKeys(keys: KeyCodeBitmap, w: World, before: Progress, ghost buttons: seq<Target>) returns (p: Progress)
      requires keys.Valid() && before == ReleaseAll(w, buttons) && !before.stopped
      ensures p == ReleaseAll(w, buttons + Keys(keys.words[..], 256))
    {
      p := before;
      var code := 0;
      ghost var words: KeyWords := keys.words[..];
      assert buttons + Keys(words, 0) == buttons;
      hide ReleaseAll, ReleaseOne, Keys, KeyPressed, PressedKeys, Bit, Targets, Buttons;
      while code < 256
        invariant 0 <= code <= 256 && !p.stopped
        invariant p == ReleaseAll(w, buttons + Keys(words, code))
      {
        KeysGrow(words, code);
        if keys.IsPressed(code) {
          NextKey(w, buttons, words, code);
          p := Release(w, p, KeyRelease(code));
          if p.stopped {
            StoppedAtKey(w, buttons, words, code + 1);
            return;
          }
        }
        code := code + 1;
      }
    }

    method Execute(mouse: MouseButtonBitmap, keys: KeyCodeBitmap, w: World) returns (result: ExecutionResult, acts: seq<Act>)
      requires keys.Valid()
      modifies this
      ensures var targets := Targets(mouse.bits, keys.words[..]);
        var p := ReleaseAll(w, targets);
        && acts == p.acts + [Read(w.clock(p.readings))]
        && result == lastResult == ResultOf(old(lastResult), p, |targets|)
        && releasedCount == p.released
        && totalElapsedMs == ElapsedMs(w.clock(p.readings) - w.Start())
      ensures executionCount == old(executionCount) + 1
    {
      hide ReleaseAll, Buttons, Keys, PressedButtons, PressedKeys;
      executionCount := executionCount + 1;
      var p := ReleaseButtons(mouse, w);
      if p.stopped {
        StoppedStays(w, Buttons(mouse.bits, 8), Targets(mouse.bits, keys.words[..]));
      } else {
        p := ReleaseKeys(keys, w, p, Buttons(mouse.bits, 8));
      }
      if p.stopped {
        lastResult := DeadlineReached;
      }
      var end := w.clock(p.readings);
      acts := p.acts + [Read(end)];
      totalElapsedMs := ElapsedMs(end - w.Start());
      releasedCount := p.released;
      ButtonsArePressed(mouse.bits, 8);
      KeysArePressed(keys.words[..], 256);
      if lastResult != DeadlineReached {
        var pressedButtons := mouse.Count();
        var pressedKeys := keys.Count();
        var totalPressed := pressedButtons + pressedKeys;
        if p.released == totalPressed && totalPressed > 0 {
          lastResult := Success;
        } else if p.released > 0 {
          lastResult := PartialRelease;
        } else if totalPressed == 0 {
          lastResult := Success;
        } else {
          lastResult := Degraded;
        }
      }
      result := lastResult;
    }
  }
}
