/**
 The bounded log queue: any number of submitters, one worker, and one controlling thread that
 starts and stops it.  Each critical section of the mutex is one step.
 */
module LoggerProtocol {
  import opened Common

  const MAX_QUEUE := 4096

  /** The worker: absent, between two lines, holding a line it has taken, or finished. */
  datatype Worker = Absent | Waiting | Holding(line: string) | Finished

  /** The controlling thread: idle, in `stop` after clearing the running flag, or after the join. */
  datatype Control = Resting | Joining | Joined

  /**
   `accepted` and `emitted` are the histories of lines let in and lines given to the sink;
   `refused` counts submissions turned away while the queue had room.
   */
  datatype LogState = LogState(
    queue: seq<string>, running: bool, sink: bool, dropped: nat, worker: Worker, control: Control,
    accepted: seq<string>, emitted: seq<string>, refused: nat, submitted: nat)

  datatype Action = Submit(line: string) | Start | StopBegin | WorkerStep | StopJoin | StopEnd

  function Init(): LogState {
    LogState([], false, false, 0, Absent, Resting, [], [], 0, 0)
  }

  function SubmitLine(s: LogState, line: string): LogState {
    var s1 := s.(submitted := s.submitted + 1);
    if |s.queue| >= MAX_QUEUE then s1.(dropped := s.dropped + 1)
    else if !s.running then s1.(refused := s.refused + 1)
    else s1.(queue := s.queue + [line], accepted := s.accepted + [line])
  }

  function Begin(s: LogState): LogState {
    if s.control != Resting || s.running then s
    else s.(sink := true, running := true, worker := Waiting)
  }

  function ClearRunning(s: LogState): LogState {
    if s.control == Resting && s.running then s.(running := false, control := Joining) else s
  }

  /** Taking the next line, finding that there is nothing left to do, or giving a held line to the sink. */
  function Work(s: LogState): LogState {
    match s.worker
    case Waiting =>
      if s.queue != [] then s.(worker := Holding(s.queue[0]), queue := s.queue[1..])
      else if !s.running then s.(worker := Finished)
      else s
    case Holding(line) =>
      s.(worker := Waiting, emitted := if line != "" && s.sink then s.emitted + [line] else s.emitted)
    case _ => s
  }

  /** The join returns only when the worker has finished. */
  function Join(s: LogState): LogState {
    if s.control == Joining && s.worker == Finished then s.(control := Joined, worker := Absent) else s
  }

  function ReleaseSink(s: LogState): LogState {
    if s.control == Joined then s.(control := Resting, sink := false) else s
  }

  function Do(s: LogState, a: Action): LogState {
    match a
    case Submit(line) => SubmitLine(s, line)
    case Start => Begin(s)
    case StopBegin => ClearRunning(s)
    case WorkerStep => Work(s)
    case StopJoin => Join(s)
    case StopEnd => ReleaseSink(s)
  }

  function Run(s: LogState, schedule: seq<Action>): LogState {
    if schedule == [] then s else Do(Run(s, schedule[..|schedule| - 1]), schedule[|schedule| - 1])
  }

  /** The lines the sink can ever see: the empty line is taken from the queue but not emitted. */
  function NonEmpty(lines: seq<string>): (r: seq<string>)
    ensures |r| <= |lines|
  {
    if lines == [] then []
    else
      var n := |lines| - 1;
      NonEmpty(lines[..n]) + (if lines[n] == "" then [] else [lines[n]])
  }

  function InFlight(s: LogState): seq<string> {
    if s.worker.Holding? then [s.worker.line] else []
  }

  ghost predicate Inv(s: LogState) {
    && (exists taken :: TakenInOrder(s, taken))
    && |s.queue| <= MAX_QUEUE
    && s.submitted == |s.accepted| + s.dropped + s.refused
    && (s.worker != Absent ==> s.sink)
    && (s.running ==> s.control == Resting && s.sink && (s.worker == Waiting || s.worker.Holding?))
    && (s.control == Resting && !s.running ==> s.worker == Absent)
    && (s.control == Joining ==> s.worker != Absent && !s.running)
    && (s.control == Joined ==> s.worker == Absent && !s.running)
    && (s.worker == Absent || s.worker == Finished ==> s.queue == [])
  }

  /** `taken` are the lines the worker has dealt with: with those in its hand and in the queue they are all accepted lines. */
  predicate TakenInOrder(s: LogState, taken: seq<string>) {
    taken + InFlight(s) + s.queue == s.accepted && s.emitted == NonEmpty(taken)
  }

  lemma NonEmptyAppend(lines: seq<string>, line: string)
    ensures NonEmpty(lines + [line]) == if line == "" then NonEmpty(lines) else NonEmpty(lines) + [line]
  {
    assert (lines + [line])[..|lines|] == lines;
    assert NonEmpty(lines) + [] == NonEmpty(lines);
  }

  lemma EmitKeepsOrder(s: LogState, taken: seq<string>)
    requires TakenInOrder(s, taken) && s.worker.Holding? && s.sink
    ensures TakenInOrder(Work(s), taken + [s.worker.line])
  {
    hide NonEmpty;
    NonEmptyAppend(taken, s.worker.line);
    assert taken + [s.worker.line] + [] + s.queue == taken + [s.worker.line] + s.queue;
  }

  lemma TakeKeepsOrder(s: LogState, taken: seq<string>)
    requires TakenInOrder(s, taken) && !s.worker.Holding?
    ensures TakenInOrder(Work(s), taken)
  {
    hide NonEmpty;
    if s.worker == Waiting && s.queue != [] {
      assert taken + [] + s.queue == taken + [s.queue[0]] + s.queue[1..];
    }
  }

  lemma StepKeepsInv(s: LogState, a: Action)
    requires Inv(s)
    ensures Inv(Do(s, a))
  {
    hide NonEmpty;
    var taken :| TakenInOrder(s, taken);
    if a == WorkerStep {
      if s.worker.Holding? {
        EmitKeepsOrder(s, taken);
      } else {
        TakeKeepsOrder(s, taken);
      }
    } else {
      if a.Submit? {
        assert taken + InFlight(s) + (s.queue + [a.line]) == s.accepted + [a.line];
      }
      assert TakenInOrder(Do(s, a), taken);
    }
  }

  lemma {:induction false} RunKeepsInv(schedule: seq<Action>)
    ensures Inv(Run(Init(), schedule))
  {
    if schedule == [] {
      assert TakenInOrder(Init(), []);
    } else {
      RunKeepsInv(schedule[..|schedule| - 1]);
      StepKeepsInv(Run(Init(), schedule[..|schedule| - 1]), schedule[|schedule| - 1]);
    }
  }

  lemma {:induction false} NonEmptyConcat(a: seq<string>, b: seq<string>)
    ensures NonEmpty(a + b) == NonEmpty(a) + NonEmpty(b)
    decreases |b|
  {
    if b == [] {
      assert a + b == a;
      assert NonEmpty(a) + [] == NonEmpty(a);
    } else {
      hide *;
      var n := |b| - 1;
      NonEmptyConcat(a, b[..n]);
      LastOf(a, b);
      NonEmptyAppend(b[..n], b[n]);
      NonEmptyAppend(a + b[..n], b[n]);
      Regroup(NonEmpty(a), NonEmpty(b[..n]), [b[n]]);
    }
  }

  lemma LastOf(a: seq<string>, b: seq<string>)
    requires b != []
    ensures b[..|b| - 1] + [b[|b| - 1]] == b
    ensures a + b[..|b| - 1] + [b[|b| - 1]] == a + b
  {
  }

  lemma Regroup(a: seq<string>, b: seq<string>, c: seq<string>)
    ensures a + b + c == a + (b + c)
  {
  }

  lemma {:induction false} NonEmptyIsAll(lines: seq<string>)
    ensures NonEmpty(lines) == lines <==> "" !in lines
    ensures |NonEmpty(lines)| == |lines| ==> "" !in lines
  {
    if lines != [] {
      var n := |lines| - 1;
      NonEmptyIsAll(lines[..n]);
      NonEmptyAppend(lines[..n], lines[n]);
      hide NonEmpty;
      assert lines == lines[..n] + [lines[n]];
      assert "" in lines <==> "" in lines[..n] || lines[n] == "";
      if lines[n] != "" && NonEmpty(lines) == lines {
        assert NonEmpty(lines[..n]) == NonEmpty(lines)[..n] == lines[..n];
      }
    }
  }

  /**
   Nothing is lost, duplicated or reordered: in every interleaving the lines emitted, the line in
   the worker's hand and the lines queued are the accepted lines in order (less empty ones); the
   queue is bounded; and every submission was accepted, counted as dropped, or refused because
   the logger was not running.
   */
  lemma LogIsConserved(schedule: seq<Action>)
    ensures var s := Run(Init(), schedule);
      && s.emitted + NonEmpty(InFlight(s)) + NonEmpty(s.queue) == NonEmpty(s.accepted)
      && |s.queue| <= MAX_QUEUE
      && s.submitted == |s.accepted| + s.dropped + s.refused
  {
    RunKeepsInv(schedule);
    var s := Run(Init(), schedule);
    var taken :| TakenInOrder(s, taken);
    NonEmptyConcat(taken + InFlight(s), s.queue);
    NonEmptyConcat(taken, InFlight(s));
  }

  /** After `stop` has joined the worker, every accepted non-empty line has been emitted exactly once, in order. */
  lemma StoppedMeansEmitted(schedule: seq<Action>)
    ensures var s := Run(Init(), schedule);
      s.control == Joined || (s.control == Resting && !s.running) ==>
        s.queue == [] && s.emitted == NonEmpty(s.accepted)
  {
    RunKeepsInv(schedule);
    LogIsConserved(schedule);
  }

  /** The sink then has seen the accepted lines themselves if and only if none of them was empty. */
  lemma AllEmittedIffNoneEmpty(schedule: seq<Action>)
    requires Run(Init(), schedule).control == Joined
    ensures var s := Run(Init(), schedule); s.emitted == s.accepted <==> "" !in s.accepted
  {
    StoppedMeansEmitted(schedule);
    NonEmptyIsAll(Run(Init(), schedule).accepted);
  }

  lemma RunThenOne(s: LogState, schedule: seq<Action>, a: Action)
    ensures Run(s, schedule + [a]) == Do(Run(s, schedule), a)
  {
    assert (schedule + [a])[..|schedule|] == schedule;
  }

  /** And it happens: the logger accepts an empty line, stops, and has emitted nothing. */
  lemma EmptyLineVanishes()
    ensures exists schedule :: var s := Run(Init(), schedule);
      s.control == Joined && s.accepted == [""] && s.emitted == []
  {
    hide Do;
    RunThenOne(Init(), [], Start);
    RunThenOne(Init(), [] + [Start], Submit(""));
    RunThenOne(Init(), [] + [Start] + [Submit("")], WorkerStep);
    RunThenOne(Init(), [] + [Start] + [Submit("")] + [WorkerStep], WorkerStep);
    RunThenOne(Init(), [] + [Start] + [Submit("")] + [WorkerStep] + [WorkerStep], StopBegin);
    RunThenOne(Init(), [] + [Start] + [Submit("")] + [WorkerStep] + [WorkerStep] + [StopBegin], WorkerStep);
    var schedule := [] + [Start] + [Submit("")] + [WorkerStep] + [WorkerStep] + [StopBegin] + [WorkerStep];
    RunThenOne(Init(), schedule, StopJoin);
    OneEmptyLine();
    assert Run(Init(), []) == Init();
    hide Run;
    assert Run(Init(), schedule + [StopJoin]).control == Joined;
  }

  lemma OneEmptyLine()
    ensures var s := Do(Do(Do(Do(Do(Do(Do(Init(), Start), Submit("")), WorkerStep), WorkerStep), StopBegin), WorkerStep), StopJoin);
      s.control == Joined && s.accepted == [""] && s.emitted == []
  {
    var s1 := Do(Init(), Start);
    var s2 := Do(s1, Submit(""));
    assert s2.queue == [""] && s2.accepted == [""] && s2.running && s2.worker == Waiting;
    var s3 := Do(s2, WorkerStep);
    assert s3.worker == Holding("") && s3.queue == [];
    var s4 := Do(s3, WorkerStep);
    assert s4.worker == Waiting && s4.emitted == [];
    var s5 := Do(s4, StopBegin);
    var s6 := Do(s5, WorkerStep);
    assert s6.worker == Finished;
  }

  /** What is still to be done before the worker can finish. */
  function Backlog(s: LogState): nat {
    2 * |s.queue| + match s.worker case Holding(_) => 2 case Waiting => 1 case _ => 0
  }

  /** Once the running flag is down, each step of the worker brings its end nearer, whatever the submitters do. */
  lemma StopMakesProgress(schedule: seq<Action>, a: Action)
    requires Run(Init(), schedule).control == Joining
    ensures var s := Run(Init(), schedule);
      && Backlog(Do(s, a)) <= Backlog(s)
      && (a == WorkerStep && s.worker != Finished ==> Backlog(Do(s, a)) < Backlog(s))
      && (Backlog(s) == 0 ==> s.worker == Finished)
  {
    RunKeepsInv(schedule);
  }

  /** One more line taken from the queue and, unless it is empty, emitted. */
  lemma TakenOneMore(taken: seq<string>, queue: seq<string>, all: seq<string>, before: seq<string>, emitted: seq<string>)
    requires queue != [] && taken + queue == all && emitted == before + NonEmpty(taken)
    ensures taken + [queue[0]] + queue[1..] == all
    ensures (if queue[0] == "" then emitted else emitted + [queue[0]]) == before + NonEmpty(taken + [queue[0]])
  {
    NonEmptyAppend(taken, queue[0]);
    hide *;
    assert [queue[0]] + queue[1..] == queue;
    Regroup(taken, [queue[0]], queue[1..]);
    Regroup(before, NonEmpty(taken), [queue[0]]);
  }

  /** The logger object: each method is one critical section, and moves the state exactly as the step of its name. */
  class Logger {
    var queue: seq<string>
    var running: bool
    var sinkSet: bool
    var dropped: nat
    var worker: Worker
    ghost var control: Control
    ghost var accepted: seq<string>
    ghost var emitted: seq<string>
    ghost var refused: nat
    ghost var submitted: nat

    ghost function View(): LogState
      reads this
    {
      LogState(queue, running, sinkSet, dropped, worker, control, accepted, emitted, refused, submitted)
    }

    constructor ()
      ensures View() == Init()
    {
      queue, running, sinkSet, dropped, worker := [], false, false, 0, Absent;
      control, accepted, emitted, refused, submitted := Resting, [], [], 0, 0;
    }

    method Start()
      requires control == Resting
      modifies this
      ensures View() == Begin(old(View()))
    {
      if running {
        return;
      }
      sinkSet := true;
      running := true;
      worker := Waiting;
    }

    method Submit(jsonLine: string)
      modifies this
      ensures View() == SubmitLine(old(View()), jsonLine)
      ensures queue == old(queue) + (if old(running) && |old(queue)| < MAX_QUEUE then [jsonLine] else [])
      ensures accepted == old(accepted) + (if old(running) && |old(queue)| < MAX_QUEUE then [jsonLine] else [])
      ensures dropped == old(dropped) + (if |old(queue)| >= MAX_QUEUE then 1 else 0)
    {
      submitted := submitted + 1;
      if !running || |queue| >= MAX_QUEUE {
        if |queue| >= MAX_QUEUE {
          dropped := dropped + 1;
        } else {
          refused := refused + 1;
        }
        return;
      }
      queue := queue + [jsonLine];
      accepted := accepted + [jsonLine];
    }

    /** The worker's critical section; `done` tells it to return. */
    method TakeLine() returns (done: bool, line: string)
      requires worker == Waiting && (queue != [] || !running)
      modifies this
      ensures View() == Work(old(View()))
      ensures done <==> old(queue) == []
      ensures !done ==> worker == Holding(line)
    {
      if !running && queue == [] {
        worker := Finished;
        return true, "";
      }
      line := queue[0];
      queue := queue[1..];
      worker := Holding(line);
      done := false;
    }

    method EmitLine(line: string)
      requires worker == Holding(line)
      modifies this
      ensures View() == Work(old(View()))
    {
      if line != "" && sinkSet {
        emitted := emitted + [line];
      }
      worker := Waiting;
    }

    /** The worker's loop once the running flag is down: it empties the queue in order and ends. */
    method WorkerLoop()
      requires worker == Waiting && !running && sinkSet
      modifies this
      ensures worker == Finished && queue == [] && emitted == old(emitted) + NonEmpty(old(queue))
      ensures accepted == old(accepted) && dropped == old(dropped)
    {
      ghost var taken: seq<string> := [];
      assert NonEmpty(taken) == [];
      assert emitted == emitted + [] && taken + queue == queue;
      hide NonEmpty;
      while true
        invariant worker == Waiting && !running && sinkSet
        invariant taken + queue == old(queue) && emitted == old(emitted) + NonEmpty(taken)
        invariant accepted == old(accepted) && dropped == old(dropped)
        decreases |queue|
      {
        ghost var waiting, out := queue, emitted;
        var done, line := TakeLine();
        if done {
          assert taken + [] == taken;
          return;
        }
        EmitLine(line);
        TakenOneMore(taken, waiting, old(queue), old(emitted), out);
        taken := taken + [line];
      }
    }
  }
}
