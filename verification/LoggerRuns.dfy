/** Over all runs of the log queue: which lines are let in, and that those let in come out. */
module LoggerRuns {
  import opened LoggerProtocol

  // ---- which lines are let in ----------------------------------------------------------------------

  /** The logger was started while no stop was under way, and has not been told to stop since. */
  predicate Started(schedule: seq<Action>) {
    exists i :: 0 <= i < |schedule| && StartedAt(schedule, i)
  }

  predicate StartedAt(schedule: seq<Action>, i: nat)
    requires i < |schedule|
  {
    schedule[i] == Start && Run(Init(), schedule[..i]).control == Resting && StopBegin !in schedule[i + 1..]
  }

  lemma StartedStep(schedule: seq<Action>, a: Action)
    ensures Started(schedule + [a]) <==>
      a != StopBegin && ((a == Start && Run(Init(), schedule).control == Resting) || Started(schedule))
  {
    hide Run;
    var all := schedule + [a];
    assert all[..|schedule|] == schedule && all[|schedule|] == a && all[|schedule| + 1..] == [];
    forall i: nat | i < |schedule|
      ensures StartedAt(all, i) <==> a != StopBegin && StartedAt(schedule, i)
    {
      assert all[..i] == schedule[..i];
      assert all[i + 1..] == schedule[i + 1..] + [a];
    }
    if Started(all) {
      var i: nat :| i < |all| && StartedAt(all, i);
      assert a != StopBegin;
    }
    if a == Start && Run(Init(), schedule).control == Resting {
      assert StartedAt(all, |schedule|);
    }
  }

  lemma RunningStep(s: LogState, a: Action)
    requires Inv(s)
    ensures Do(s, a).running <==> a != StopBegin && ((a == Start && s.control == Resting) || s.running)
  {
  }

  /** The logger is running exactly from a start until the next stop. */
  lemma {:induction false} RunningIffStarted(schedule: seq<Action>)
    ensures Run(Init(), schedule).running <==> Started(schedule)
  {
    if schedule != [] {
      var n := |schedule| - 1;
      RunningIffStarted(schedule[..n]);
      RunKeepsInv(schedule[..n]);
      assert schedule == schedule[..n] + [schedule[n]];
      RunningStep(Run(Init(), schedule[..n]), schedule[n]);
      StartedStep(schedule[..n], schedule[n]);
    }
  }

  /** The lines submitted after a start and before the next stop, while fewer than 4096 waited. */
  function LetIn(schedule: seq<Action>): seq<string> {
    if schedule == [] then []
    else
      var n := |schedule| - 1;
      LetIn(schedule[..n]) +
      (if schedule[n].Submit? && Started(schedule[..n]) && |Run(Init(), schedule[..n]).queue| < 4096
       then [schedule[n].line] else [])
  }

  /** How many lines were submitted while 4096 waited, and how many while there was room. */
  function TooMany(schedule: seq<Action>): nat {
    if schedule == [] then 0
    else
      var n := |schedule| - 1;
      TooMany(schedule[..n]) + if schedule[n].Submit? && |Run(Init(), schedule[..n]).queue| == 4096 then 1 else 0
  }

  function NotRunning(schedule: seq<Action>): nat {
    if schedule == [] then 0
    else
      var n := |schedule| - 1;
      NotRunning(schedule[..n]) +
      if schedule[n].Submit? && !Started(schedule[..n]) && |Run(Init(), schedule[..n]).queue| < 4096 then 1 else 0
  }

  lemma SubmitDecides(s: LogState, a: Action)
    requires Inv(s)
    ensures var t := Do(s, a);
      && t.accepted == s.accepted + (if a.Submit? && s.running && |s.queue| < 4096 then [a.line] else [])
      && t.dropped == s.dropped + (if a.Submit? && |s.queue| == 4096 then 1 else 0)
      && t.refused == s.refused + (if a.Submit? && !s.running && |s.queue| < 4096 then 1 else 0)
  {
  }

  /**
   In every interleaving the accepted lines are, in order, the lines submitted between a start and
   the next stop while fewer than 4096 lines waited; the lines counted as dropped are those
   submitted while 4096 waited, and those counted nowhere by the program came while it was not running.
   */
  lemma {:induction false} AcceptedAreThoseLetIn(schedule: seq<Action>)
    ensures var s := Run(Init(), schedule);
      s.accepted == LetIn(schedule) && s.dropped == TooMany(schedule) && s.refused == NotRunning(schedule)
  {
    if schedule != [] {
      var n := |schedule| - 1;
      var s := Run(Init(), schedule[..n]);
      AcceptedAreThoseLetIn(schedule[..n]);
      RunKeepsInv(schedule[..n]);
      RunningIffStarted(schedule[..n]);
      SubmitDecides(s, schedule[n]);
      hide Started, Do, Inv;
    }
  }

  // ---- what is let in comes out ----------------------------------------------------------------------

  /** The worker left to itself. */
  function Worked(s: LogState, n: nat): LogState {
    if n == 0 then s else Work(Worked(s, n - 1))
  }

  function WorkerSteps(n: nat): (schedule: seq<Action>)
    ensures |schedule| == n
  {
    if n == 0 then [] else WorkerSteps(n - 1) + [WorkerStep]
  }

  lemma {:induction false} WorkedIsRun(schedule: seq<Action>, n: nat)
    ensures Run(Init(), schedule + WorkerSteps(n)) == Worked(Run(Init(), schedule), n)
  {
    if n == 0 {
      assert schedule + [] == schedule;
    } else {
      WorkedIsRun(schedule, n - 1);
      RunThenOne(Init(), schedule + WorkerSteps(n - 1), WorkerStep);
      assert schedule + WorkerSteps(n) == schedule + WorkerSteps(n - 1) + [WorkerStep];
    }
  }

  /** The worker exists and has not finished. */
  predicate Alive(s: LogState) {
    s.worker == Waiting || s.worker.Holding?
  }

  lemma WorkKeeps(s: LogState)
    requires Alive(s) && (s.queue != [] || s.worker.Holding?)
    ensures var t := Work(s);
      && Alive(t) && Backlog(t) < Backlog(s)
      && t.accepted == s.accepted && t.running == s.running && t.control == s.control
  {
  }

  lemma {:induction false} WorksOff(s: LogState, n: nat) returns (m: nat)
    requires Alive(Worked(s, n))
    ensures n <= m
    ensures var t, u := Worked(s, n), Worked(s, m);
      && u.queue == [] && u.worker == Waiting
      && u.accepted == t.accepted && u.running == t.running && u.control == t.control
    decreases Backlog(Worked(s, n))
  {
    var t := Worked(s, n);
    if t.queue == [] && t.worker == Waiting {
      m := n;
    } else {
      WorkKeeps(t);
      m := WorksOff(s, n + 1);
    }
  }

  lemma AliveWhen(schedule: seq<Action>)
    ensures var s := Run(Init(), schedule);
      s.running || (s.control == Joining && s.worker != Finished) ==> Alive(s)
  {
    RunKeepsInv(schedule);
  }

  /**
   While the logger runs or its stop waits for the worker: left to itself the worker empties the
   queue, and then exactly the accepted lines, less empty ones, are out.
   */
  lemma WorkerEmitsAll(schedule: seq<Action>)
    requires var s := Run(Init(), schedule); s.running || (s.control == Joining && s.worker != Finished)
    ensures exists n ::
      var t := Run(Init(), schedule + WorkerSteps(n));
      t.queue == [] && t.emitted == NonEmpty(Run(Init(), schedule).accepted)
  {
    var s := Run(Init(), schedule);
    AliveWhen(schedule);
    var n := WorksOff(s, 0);
    WorkedIsRun(schedule, n);
    LogIsConserved(schedule + WorkerSteps(n));
    hide Run, Worked;
    var t := Run(Init(), schedule + WorkerSteps(n));
    assert t.emitted + [] + [] == t.emitted;
  }

  /** The worker's remaining steps and those of the controlling thread. */
  function FinishStop(n: nat): seq<Action> {
    WorkerSteps(n) + [StopJoin, StopEnd]
  }

  lemma StopTail(s: LogState)
    requires s.control == Joining && s.worker == Finished
    ensures var t := Do(Do(s, StopJoin), StopEnd);
      t.control == Resting && !t.sink && t == s.(control := Resting, worker := Absent, sink := false)
  {
  }

  /** A stop under way comes to its end by the steps of the worker and the stopping thread, with every accepted line out. */
  lemma StopEnds(schedule: seq<Action>)
    requires Run(Init(), schedule).control == Joining
    ensures exists n ::
      var s, t := Run(Init(), schedule), Run(Init(), schedule + FinishStop(n));
      t.control == Resting && !t.running && !t.sink && t.queue == [] && t.emitted == NonEmpty(s.accepted)
  {
    var s := Run(Init(), schedule);
    var n := WorkerFinishes(schedule);
    WorkedIsRun(schedule, n);
    var done := schedule + WorkerSteps(n);
    RunThenOne(Init(), done, StopJoin);
    RunThenOne(Init(), done + [StopJoin], StopEnd);
    StopTail(Run(Init(), done));
    assert schedule + FinishStop(n) == done + [StopJoin] + [StopEnd];
    RunKeepsInv(schedule);
    assert !s.running;
    StoppedMeansEmitted(done + [StopJoin] + [StopEnd]);
  }

  lemma WorkerFinishes(schedule: seq<Action>) returns (n: nat)
    requires Run(Init(), schedule).control == Joining
    ensures var s, t := Run(Init(), schedule), Worked(Run(Init(), schedule), n);
      t.worker == Finished && t.accepted == s.accepted && t.running == s.running && t.control == Joining
  {
    var s := Run(Init(), schedule);
    RunKeepsInv(schedule);
    if s.worker == Finished {
      n := 0;
    } else {
      AliveWhen(schedule);
      var m := WorksOff(s, 0);
      n := m + 1;
    }
  }
}
