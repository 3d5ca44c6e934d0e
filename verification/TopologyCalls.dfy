/** Which calls a topology version manager refuses, told from the calls made before, and that a commit goes through. */
module TopologyCalls {
  import opened Common
  import opened IdentityStore
  import opened TopologyCommit

  // ---- what the calls so far say -------------------------------------------------------------------

  /** The first real id named as the authority. */
  function AuthorityOf(ops: seq<Op>): Option<NodeId> {
    if ops == [] then None
    else
      var last, earlier := ops[|ops| - 1], AuthorityOf(ops[..|ops| - 1]);
      if earlier.None? && last.SetAuthority? && !last.id.IsNull() then Some(last.id) else earlier
  }

  /** The last id named as the local one. */
  function LocalOf(ops: seq<Op>): Option<NodeId> {
    if ops == [] then None
    else if ops[|ops| - 1].SetLocal? then Some(ops[|ops| - 1].id)
    else LocalOf(ops[..|ops| - 1])
  }

  /** No report that the coordinator is offline since the last that it is back. */
  predicate IsOnline(ops: seq<Op>) {
    ops == [] || ops[|ops| - 1] == Online || (ops[|ops| - 1] != Offline && IsOnline(ops[..|ops| - 1]))
  }

  /** This node is the authority, and the coordinator is online. */
  predicate MayCommit(ops: seq<Op>) {
    IsOnline(ops) && AuthorityOf(ops).Some? && LocalOf(ops) == AuthorityOf(ops)
  }

  /** How many of the five steps the commit in flight has made; 0 if there is none. */
  function Progress(trace: seq<Op>): nat {
    if trace == [] then 0
    else
      match trace[|trace| - 1]
      case Propose(_) => 1
      case Validate => 2
      case Prepare => 3
      case Authorize => 4
      case _ => 0
  }

  /** What the calls say about a manager is what it holds. */
  predicate Agrees(ops: seq<Op>, m: Manager) {
    && m.authority == AuthorityOf(ops) && m.local == LocalOf(ops) && m.online == IsOnline(ops)
    && Rank(m.state) == Progress(Trace(ops))
  }

  lemma ProgressStep(m: Manager, trace: seq<Op>, op: Op)
    requires Rank(m.state) == Progress(trace) && (m.pending.Some? <==> Rank(m.state) > 0)
    ensures Rank(Do(m, op).state) == Progress(if MovesCommit(op) && Accepts(m, op) then trace + [op] else trace)
  {
  }

  lemma DoNames(m: Manager, op: Op)
    requires m.authority.Some? ==> !m.authority.value.IsNull()
    ensures Do(m, op).authority == if m.authority.None? && op.SetAuthority? && !op.id.IsNull() then Some(op.id) else m.authority
    ensures Do(m, op).local == if op.SetLocal? then Some(op.id) else m.local
    ensures Do(m, op).online == (op == Online || (op != Offline && m.online))
  {
  }

  lemma NamesStep(ops: seq<Op>, op: Op)
    requires var m := After(ops); m.authority == AuthorityOf(ops) && m.local == LocalOf(ops) && m.online == IsOnline(ops)
    ensures var m := Do(After(ops), op);
      && m.authority == AuthorityOf(ops + [op]) && m.local == LocalOf(ops + [op]) && m.online == IsOnline(ops + [op])
  {
    hide After, Do;
    assert (ops + [op])[..|ops|] == ops;
    RealAuthority(ops);
    DoNames(After(ops), op);
  }

  lemma RealAuthority(ops: seq<Op>)
    ensures After(ops).authority.Some? ==> !After(ops).authority.value.IsNull()
  {
    RunKeepsInv(ops);
  }

  lemma InFlightIsPending(m: Manager, trace: seq<Op>)
    requires Inv(m, trace)
    ensures m.pending.Some? <==> Rank(m.state) > 0
  {
  }

  lemma {:induction false} CallsTellState(ops: seq<Op>)
    ensures Agrees(ops, After(ops))
  {
    if ops != [] {
      CallsTellState(ops[..|ops| - 1]);
      RunKeepsInv(ops[..|ops| - 1]);
      var m, op := After(ops[..|ops| - 1]), ops[|ops| - 1];
      InFlightIsPending(m, Trace(ops[..|ops| - 1]));
      ProgressStep(m, Trace(ops[..|ops| - 1]), op);
      NamesStep(ops[..|ops| - 1], op);
      assert ops == ops[..|ops| - 1] + [op];
      hide Do, Inv, Accepts, MovesCommit, AuthorityOf, LocalOf, IsOnline, Rank, Progress;
    }
  }

  /** The accepted calls end with the first `n` steps of some commit exactly if `n` is its progress. */
  lemma ProgressIff(ops: seq<Op>, n: nat)
    requires 1 <= n <= 4
    ensures Progress(Trace(ops)) == n <==> exists p :: EndsWithSteps(Trace(ops), p, n)
  {
    CallsTellState(ops);
    RunKeepsInv(ops);
    var trace := Trace(ops);
    if Progress(trace) == n {
      assert EndsWithSteps(trace, After(ops).pending.value, n);
    }
    if p :| EndsWithSteps(trace, p, n) {
      assert trace[|trace| - 1] == trace[|trace| - n..][n - 1] == Steps(p)[..n][n - 1];
    }
  }

  // ---- which calls are refused ---------------------------------------------------------------------

  /**
   Exactly when each call is refused, and why.  A proposal needs the authority itself, online, and
   no commit in flight; each later step needs exactly the one before it, and the authorization that
   this node still is the authority.
   */
  lemma RefusedIff(ops: seq<Op>)
    ensures var m, n := After(ops), Progress(Trace(ops));
      && (forall p :: RefusalOf(m, Propose(p)) ==
            if !MayCommit(ops) then Some(CommitFail) else if n > 0 then Some(ValidationFail) else None)
      && RefusalOf(m, Validate) == (if n == 1 then None else Some(ValidationFail))
      && RefusalOf(m, Prepare) == (if n == 2 then None else Some(ValidationFail))
      && RefusalOf(m, Authorize) == (if n == 3 && MayCommit(ops) then None else Some(CommitFail))
      && RefusalOf(m, Activate) == (if n == 4 then None else Some(CommitFail))
      && (forall id :: RefusalOf(m, SetAuthority(id)) ==
            if id.IsNull() then Some(NodeidForge)
            else if AuthorityOf(ops).Some? && AuthorityOf(ops) != Some(id) then Some(DuplicateClaim) else None)
      && (forall id :: RefusalOf(m, SetCoordinator(id)) ==
            if AuthorityOf(ops) == Some(id) then None else Some(DuplicateClaim))
      && Accepts(m, Abort) && Accepts(m, Offline) && Accepts(m, Online) && forall id :: Accepts(m, SetLocal(id))
  {
    CallsTellState(ops);
    RunKeepsInv(ops);
    hide After, Trace, Progress, EndsWithSteps, Committed, AuthorityOf, LocalOf, IsOnline;
  }

  // ---- a commit goes through -----------------------------------------------------------------------

  /** After the first `n` steps of committing `p`. */
  function Stepped(m: Manager, p: Proposal, n: nat): Manager
    requires n <= 5
  {
    if n == 0 then m else Do(Stepped(m, p, n - 1), Steps(p)[n - 1])
  }

  lemma {:induction false} SteppedIsAfter(ops: seq<Op>, p: Proposal, n: nat)
    requires n <= 5
    ensures After(ops + Steps(p)[..n]) == Stepped(After(ops), p, n)
  {
    if n == 0 {
      assert ops + [] == ops;
    } else {
      SteppedIsAfter(ops, p, n - 1);
      var all := ops + Steps(p)[..n];
      assert all[..|all| - 1] == ops + Steps(p)[..n - 1];
      assert all[|all| - 1] == Steps(p)[n - 1];
      hide Do;
    }
  }

  lemma FiveSteps(m: Manager, p: Proposal)
    requires m.online && m.authority.Some? && m.local == m.authority && m.state == Active && m.pending.None?
    ensures forall n | 0 <= n < 5 :: Accepts(Stepped(m, p, n), Steps(p)[n])
    ensures Stepped(m, p, 5) == m.(current := p.version.(commitState := Active))
  {
    assert Stepped(m, p, 0) == m && Steps(p)[0] == Propose(p) && Accepts(m, Propose(p));
    var m1 := Stepped(m, p, 1);
    assert m1 == m.(pending := Some(p), state := Proposed);
    var m2 := Stepped(m, p, 2);
    assert m2 == m1.(state := Validated);
    var m3 := Stepped(m, p, 3);
    assert m3 == m1.(state := Prepared);
    var m4 := Stepped(m, p, 4);
    assert m4 == m1.(state := ActivationAuthorized);
    assert Accepts(m1, Validate) && Accepts(m2, Prepare) && Accepts(m3, Authorize) && Accepts(m4, Activate);
  }

  /**
   On the authority itself, online and with no commit in flight, whatever was called before: the
   five steps are all accepted, the proposed version is then the current one, active, and nothing
   else has changed.
   */
  lemma CommitGoesThrough(ops: seq<Op>, p: Proposal)
    requires MayCommit(ops) && Progress(Trace(ops)) == 0
    ensures forall n | 0 <= n < 5 :: Accepts(After(ops + Steps(p)[..n]), Steps(p)[n])
    ensures After(ops + Steps(p)) == After(ops).(current := p.version.(commitState := Active))
    ensures After(ops).state == Active
  {
    CallsTellState(ops);
    RunKeepsInv(ops);
    hide After, Trace, Progress, EndsWithSteps, Committed, AuthorityOf, LocalOf, IsOnline, Do, Accepts;
    FiveSteps(After(ops), p);
    forall n | 0 <= n <= 5
      ensures After(ops + Steps(p)[..n]) == Stepped(After(ops), p, n)
    {
      SteppedIsAfter(ops, p, n);
    }
    assert Steps(p)[..5] == Steps(p);
  }

  /** After an abort, and after the coordinator was reported offline, no commit is in flight. */
  lemma BreakingOffFrees(ops: seq<Op>)
    ensures Progress(Trace(ops + [Abort])) == 0 && Progress(Trace(ops + [Offline])) == 0
  {
    hide *;
    TraceOf(ops, Abort);
    TraceOf(ops, Offline);
    BrokenOff(Trace(ops));
  }

  lemma BrokenOff(trace: seq<Op>)
    ensures Progress(trace + [Abort]) == 0 && Progress(trace + [Offline]) == 0
  {
  }

  lemma TraceOf(ops: seq<Op>, op: Op)
    requires op.Abort? || op.Offline?
    ensures Trace(ops + [op]) == Trace(ops) + [op]
  {
    hide After;
    assert (ops + [op])[..|ops|] == ops;
  }
}
