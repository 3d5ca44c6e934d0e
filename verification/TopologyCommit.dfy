/** Committing a new topology version: propose, validate, prepare, authorize, activate. */
module TopologyCommit {
  import opened Common
  import opened IdentityStore

  datatype CommitState =
    | Active | Proposed | Validated | Prepared | ActivationAuthorized | Committing | RolledBack | Locked

  datatype Version = Version(value: Word, topologyId: string, lastCommitAt: Word, commitState: CommitState)

  /** `members` stands for the membership entries a proposal carries. */
  datatype Proposal = Proposal(version: Version, members: seq<NodeId>, proposedBy: NodeId, proposedAt: Word)

  datatype Refusal = NodeidForge | DuplicateClaim | CommitFail | ValidationFail

  datatype Manager = Manager(
    current: Version, state: CommitState, pending: Option<Proposal>,
    coordinator: Option<NodeId>, local: Option<NodeId>, authority: Option<NodeId>, online: bool)
  {
    predicate IsCoordinator() {
      online && authority.Some? && local == authority
    }

    predicate IsCommitLocked() {
      authority.None? || !online || state == Locked
    }
  }

  datatype Op =
    | SetLocal(id: NodeId) | SetAuthority(id: NodeId) | SetCoordinator(id: NodeId)
    | Propose(proposal: Proposal) | Validate | Prepare | Authorize | Activate | Abort
    | Offline | Online

  const FIRST_VERSION := Version(0, "", 0, Active)

  function Init(): Manager {
    Manager(FIRST_VERSION, Active, None, None, None, None, true)
  }

  /** Why a call is refused, if it is. */
  function RefusalOf(m: Manager, op: Op): Option<Refusal> {
    match op
    case SetLocal(_) => None
    case SetAuthority(id) =>
      if id.IsNull() then Some(NodeidForge)
      else if m.authority.Some? && m.authority.value != id then Some(DuplicateClaim) else None
    case SetCoordinator(id) => if m.authority != Some(id) then Some(DuplicateClaim) else None
    case Propose(_) =>
      if m.IsCommitLocked() || !m.IsCoordinator() then Some(CommitFail)
      else if m.state != Active then Some(ValidationFail) else None
    case Validate => if m.state != Proposed || m.pending.None? then Some(ValidationFail) else None
    case Prepare => if m.state != Validated then Some(ValidationFail) else None
    case Authorize => if m.state != Prepared || !m.IsCoordinator() then Some(CommitFail) else None
    case Activate => if m.state != ActivationAuthorized then Some(CommitFail) else None
    case Abort => None
    case Offline => None
    case Online => None
  }

  predicate Accepts(m: Manager, op: Op) {
    RefusalOf(m, op).None?
  }

  /** What a call that is not refused does. */
  function Effect(m: Manager, op: Op): Manager {
    match op
    case SetLocal(id) => m.(local := Some(id))
    case SetAuthority(id) => m.(authority := Some(id), coordinator := Some(id))
    case SetCoordinator(id) => m.(coordinator := Some(id))
    case Propose(p) => m.(pending := Some(p), state := Proposed)
    case Validate => m.(state := Validated)
    case Prepare => m.(state := Prepared)
    case Authorize => m.(state := ActivationAuthorized)
    case Activate =>
      if m.pending.Some? then m.(current := m.pending.value.version.(commitState := Active), pending := None, state := Active)
      else m.(state := Active)
    case Abort => if m.state == Active then m else m.(pending := None, state := Active)
    case Offline =>
      if m.state == Active then m.(online := false) else m.(online := false, pending := None, state := Locked)
    case Online => m.(online := true, state := if m.state == Locked then Active else m.state)
  }

  function Do(m: Manager, op: Op): Manager {
    if Accepts(m, op) then Effect(m, op) else m
  }

  /** The state after a whole run. */
  function After(ops: seq<Op>): Manager {
    if ops == [] then Init() else Do(After(ops[..|ops| - 1]), ops[|ops| - 1])
  }

  // ---- the history of a commit -------------------------------------------------------------------

  /** The calls that move a commit forward or break it off. */
  predicate MovesCommit(op: Op) {
    op.Propose? || op.Validate? || op.Prepare? || op.Authorize? || op.Activate? || op.Abort? || op.Offline?
  }

  /** The accepted ones among them, in order. */
  function Trace(ops: seq<Op>): (r: seq<Op>)
    ensures forall op :: op in r ==> MovesCommit(op) && op in ops
  {
    if ops == [] then []
    else
      var last := ops[|ops| - 1];
      var earlier := Trace(ops[..|ops| - 1]);
      if MovesCommit(last) && Accepts(After(ops[..|ops| - 1]), last) then earlier + [last] else earlier
  }

  function Steps(p: Proposal): seq<Op> {
    [Propose(p), Validate, Prepare, Authorize, Activate]
  }

  /** The trace ends with the first `n` steps of committing `p`. */
  predicate EndsWithSteps(trace: seq<Op>, p: Proposal, n: nat)
    requires n <= 5
  {
    |trace| >= n && trace[|trace| - n..] == Steps(p)[..n]
  }

  function Rank(s: CommitState): nat {
    match s
    case Proposed => 1
    case Validated => 2
    case Prepared => 3
    case ActivationAuthorized => 4
    case _ => 0
  }

  lemma EndsWithOneMore(trace: seq<Op>, p: Proposal, n: nat)
    requires n < 5 && EndsWithSteps(trace, p, n)
    ensures EndsWithSteps(trace + [Steps(p)[n]], p, n + 1)
  {
    var longer := trace + [Steps(p)[n]];
    assert longer[|longer| - (n + 1)..] == trace[|trace| - n..] + [Steps(p)[n]];
    assert Steps(p)[..n + 1] == Steps(p)[..n] + [Steps(p)[n]];
  }

  /** The version of the last uninterrupted block of all five steps; the first version if there is none. */
  function Committed(trace: seq<Op>): Version {
    if trace == [] then FIRST_VERSION
    else if |trace| >= 5 && trace[|trace| - 5].Propose? && EndsWithSteps(trace, trace[|trace| - 5].proposal, 5) then
      trace[|trace| - 5].proposal.version.(commitState := Active)
    else Committed(trace[..|trace| - 1])
  }

  /** What holds in every reachable state of one manager. */
  ghost predicate Inv(m: Manager, trace: seq<Op>) {
    && (m.pending.Some? <==> Rank(m.state) > 0)
    && (m.pending.Some? ==> EndsWithSteps(trace, m.pending.value, Rank(m.state)))
    && m.current == Committed(trace)
    && m.coordinator == m.authority
    && (m.authority.Some? ==> !m.authority.value.IsNull())
    && (m.state == Locked ==> !m.online)
    && (!m.online ==> m.pending.None?)
    && !m.state.Committing? && !m.state.RolledBack?
  }

  lemma CommittedUnfolds(trace: seq<Op>, op: Op)
    ensures var longer := trace + [op];
      Committed(longer)
      == if |longer| >= 5 && longer[|longer| - 5].Propose? && EndsWithSteps(longer, longer[|longer| - 5].proposal, 5)
         then longer[|longer| - 5].proposal.version.(commitState := Active) else Committed(trace)
  {
    assert (trace + [op])[..|trace|] == trace;
  }

  lemma FifthIsActivate(trace: seq<Op>, op: Op, p: Proposal)
    requires EndsWithSteps(trace + [op], p, 5)
    ensures op == Activate
  {
    var longer := trace + [op];
    assert op == longer[|longer| - 5..][4] == Steps(p)[..5][4] == Activate;
  }

  lemma OtherStepKeepsVersion(trace: seq<Op>, op: Op)
    requires !op.Activate?
    ensures Committed(trace + [op]) == Committed(trace)
  {
    var longer := trace + [op];
    CommittedUnfolds(trace, op);
    hide Committed, EndsWithSteps;
    if |longer| >= 5 && longer[|longer| - 5].Propose? {
      if EndsWithSteps(longer, longer[|longer| - 5].proposal, 5) {
        FifthIsActivate(trace, op, longer[|longer| - 5].proposal);
      }
    }
  }

  lemma LastStepCommits(trace: seq<Op>, p: Proposal)
    requires EndsWithSteps(trace, p, 4)
    ensures Committed(trace + [Activate]) == p.version.(commitState := Active)
  {
    EndsWithOneMore(trace, p, 4);
    var longer := trace + [Activate];
    assert longer[|longer| - 5] == longer[|longer| - 5..][0] == Steps(p)[..5][0] == Propose(p);
  }

  lemma ProposeKeepsInv(m: Manager, p: Proposal, trace: seq<Op>)
    requires Inv(m, trace) && Accepts(m, Propose(p))
    ensures Inv(Effect(m, Propose(p)), trace + [Propose(p)])
  {
    NoStepsYet(trace, p);
    EndsWithOneMore(trace, p, 0);
    OtherStepKeepsVersion(trace, Propose(p));
    hide Committed, EndsWithSteps;
  }

  lemma ActivateKeepsInv(m: Manager, trace: seq<Op>)
    requires Inv(m, trace) && Accepts(m, Activate)
    ensures Inv(Effect(m, Activate), trace + [Activate])
  {
    hide Committed, EndsWithSteps;
    LastStepCommits(trace, m.pending.value);
  }

  lemma MiddleKeepsInv(m: Manager, op: Op, trace: seq<Op>)
    requires Inv(m, trace) && Accepts(m, op) && (op.Validate? || op.Prepare? || op.Authorize?)
    ensures Inv(Effect(m, op), trace + [op])
  {
    hide Committed, EndsWithSteps;
    EndsWithOneMore(trace, m.pending.value, Rank(m.state));
    OtherStepKeepsVersion(trace, op);
  }

  lemma BreakKeepsInv(m: Manager, op: Op, trace: seq<Op>)
    requires Inv(m, trace) && (op.Abort? || op.Offline?)
    ensures Inv(Effect(m, op), trace + [op])
  {
    hide Committed, EndsWithSteps;
    OtherStepKeepsVersion(trace, op);
  }

  lemma SideStepKeepsInv(m: Manager, op: Op, trace: seq<Op>)
    requires Inv(m, trace) && Accepts(m, op) && !MovesCommit(op)
    ensures Inv(Effect(m, op), trace)
  {
    hide Committed, EndsWithSteps;
  }

  lemma StepKeepsInv(m: Manager, op: Op, trace: seq<Op>)
    requires Inv(m, trace) && Accepts(m, op)
    ensures Inv(Effect(m, op), if MovesCommit(op) then trace + [op] else trace)
  {
    hide Inv, Accepts, Effect;
    match op
    case Propose(p) => ProposeKeepsInv(m, p, trace);
    case Activate => ActivateKeepsInv(m, trace);
    case Validate => MiddleKeepsInv(m, op, trace);
    case Prepare => MiddleKeepsInv(m, op, trace);
    case Authorize => MiddleKeepsInv(m, op, trace);
    case Abort => BreakKeepsInv(m, op, trace);
    case Offline => BreakKeepsInv(m, op, trace);
    case _ => SideStepKeepsInv(m, op, trace);
  }

  lemma NoStepsYet(trace: seq<Op>, p: Proposal)
    ensures EndsWithSteps(trace, p, 0)
  {
  }

  lemma {:induction false} RunKeepsInv(ops: seq<Op>)
    ensures Inv(After(ops), Trace(ops))
  {
    if ops != [] {
      RunKeepsInv(ops[..|ops| - 1]);
      if Accepts(After(ops[..|ops| - 1]), ops[|ops| - 1]) {
        StepKeepsInv(After(ops[..|ops| - 1]), ops[|ops| - 1], Trace(ops[..|ops| - 1]));
      }
    }
  }

  /**
   The current version is that of the last proposal that was proposed, validated, prepared,
   authorized and activated with no other proposal, abort or coordinator loss in between.
   */
  lemma VersionIsLastFullCommit(ops: seq<Op>)
    ensures After(ops).current == Committed(Trace(ops))
  {
    RunKeepsInv(ops);
  }

  /** The version changes in one kind of call only: the activation that completes all five steps. */
  lemma VersionChangesOnlyOnFullCommit(ops: seq<Op>, op: Op)
    requires After(ops + [op]).current != After(ops).current
    ensures op == Activate
    ensures exists p :: EndsWithSteps(Trace(ops + [op]), p, 5) && After(ops + [op]).current == p.version.(commitState := Active)
  {
    assert (ops + [op])[..|ops|] == ops;
    RunKeepsInv(ops);
    var p := After(ops).pending.value;
    EndsWithOneMore(Trace(ops), p, 4);
    assert EndsWithSteps(Trace(ops + [op]), p, 5);
  }

  /** A proposal is pending exactly in the four states between proposing and activating. */
  lemma PendingExactlyInFlight(ops: seq<Op>)
    ensures var m := After(ops);
      && (m.pending.Some? <==> m.state in {Proposed, Validated, Prepared, ActivationAuthorized})
      && (m.pending.None? <==> m.state in {Active, Locked})
      && (m.state == Locked ==> !m.online)
      && m.coordinator == m.authority
  {
    RunKeepsInv(ops);
  }

  /** While the coordinator is offline no call but its return moves a commit, and the version stands still. */
  lemma {:induction false} OfflineStandsStill(ops: seq<Op>, more: seq<Op>)
    requires !After(ops).online && Online !in more
    ensures var m := After(ops + more);
      && !m.online && m.pending.None? && m.current == After(ops).current
      && forall op :: MovesCommit(op) && Accepts(m, op) ==> op.Abort? || op.Offline?
  {
    if more == [] {
      RunKeepsInv(ops);
      assert ops + more == ops;
      OfflineStep(After(ops), Offline);
    } else {
      var before := ops + more[..|more| - 1];
      OfflineStandsStill(ops, more[..|more| - 1]);
      assert (ops + more)[..|ops + more| - 1] == before;
      RunKeepsInv(before);
      hide Committed, EndsWithSteps, Accepts, Effect;
      OfflineStep(After(before), more[|more| - 1]);
    }
  }

  lemma OfflineStep(m: Manager, op: Op)
    requires !m.online && m.pending.None? && Rank(m.state) == 0 && op != Online
    ensures var t := Do(m, op);
      && !t.online && t.pending.None? && t.current == m.current
      && forall o :: MovesCommit(o) && (Accepts(t, o) || Accepts(m, o)) ==> o.Abort? || o.Offline?
  {
  }

  // ---- one authority -----------------------------------------------------------------------------

  /** Once set, the authority never changes, whatever is called afterwards. */
  lemma {:induction false} AuthorityIsWriteOnce(ops: seq<Op>, more: seq<Op>)
    requires After(ops).authority.Some?
    ensures After(ops + more).authority == After(ops).authority
  {
    if more == [] {
      assert ops + more == ops;
    } else {
      AuthorityIsWriteOnce(ops, more[..|more| - 1]);
      assert (ops + more)[..|ops + more| - 1] == ops + more[..|more| - 1];
    }
  }

  /** The node keeps one id: every call that names the local node names `id`. */
  predicate RunsAs(ops: seq<Op>, id: NodeId) {
    forall i :: 0 <= i < |ops| && ops[i].SetLocal? ==> ops[i].id == id
  }

  predicate HasProposal(trace: seq<Op>) {
    exists i :: 0 <= i < |trace| && trace[i].Propose?
  }

  /** A node can get a proposal in only if it is the authority it was told about. */
  lemma {:induction false} ProposerIsAuthority(ops: seq<Op>, id: NodeId)
    requires RunsAs(ops, id)
    ensures After(ops).local.Some? ==> After(ops).local == Some(id)
    ensures HasProposal(Trace(ops)) ==> After(ops).authority == Some(id)
  {
    if ops != [] {
      ProposerIsAuthority(ops[..|ops| - 1], id);
      var earlier := Trace(ops[..|ops| - 1]);
      if HasProposal(Trace(ops)) && !HasProposal(earlier) {
        assert Trace(ops)[..|earlier|] == earlier;
        assert forall i :: 0 <= i < |earlier| ==> Trace(ops)[i] == earlier[i];
        assert ops[|ops| - 1].Propose?;
      }
    }
  }

  lemma {:induction false} FirstVersionWithoutProposal(trace: seq<Op>)
    requires !HasProposal(trace)
    ensures Committed(trace) == FIRST_VERSION
  {
    if trace != [] {
      FirstVersionWithoutProposal(trace[..|trace| - 1]);
    }
  }

  /** A node that is not the authority keeps its first version for ever. */
  lemma OthersKeepFirstVersion(ops: seq<Op>, id: NodeId)
    requires RunsAs(ops, id) && After(ops).authority != Some(id)
    ensures After(ops).current == FIRST_VERSION
  {
    ProposerIsAuthority(ops, id);
    FirstVersionWithoutProposal(Trace(ops));
    VersionIsLastFullCommit(ops);
  }

  /** Of two nodes that agree on the authority and have different ids, at most one ever changes its version. */
  lemma OneCommitter(ops1: seq<Op>, id1: NodeId, ops2: seq<Op>, id2: NodeId)
    requires RunsAs(ops1, id1) && RunsAs(ops2, id2) && id1 != id2
    requires After(ops1).authority == After(ops2).authority
    ensures After(ops1).current == FIRST_VERSION || After(ops2).current == FIRST_VERSION
  {
    if After(ops1).authority == Some(id1) {
      OthersKeepFirstVersion(ops2, id2);
    } else {
      OthersKeepFirstVersion(ops1, id1);
    }
  }

  // ---- the object --------------------------------------------------------------------------------

  class TopologyVersionManager {
    var current: Version
    var state: CommitState
    var pendingProposal: Option<Proposal>
    var coordinatorId: Option<NodeId>
    var localNodeId: Option<NodeId>
    var authorityNodeId: Option<NodeId>
    var coordinatorOnline: bool

    function View(): Manager
      reads this
    {
      Manager(current, state, pendingProposal, coordinatorId, localNodeId, authorityNodeId, coordinatorOnline)
    }

    constructor ()
      ensures View() == Init()
    {
      current := FIRST_VERSION;
      state := Active;
      pendingProposal, coordinatorId, localNodeId, authorityNodeId := None, None, None, None;
      coordinatorOnline := true;
    }

    predicate IsCoordinator()
      reads this
      ensures IsCoordinator() <==> View().IsCoordinator()
    {
      if !coordinatorOnline then false
      else authorityNodeId.Some? && localNodeId.Some? && authorityNodeId.value == localNodeId.value
    }

    predicate IsCommitLocked()
      reads this
      ensures IsCommitLocked() <==> View().IsCommitLocked()
    {
      if authorityNodeId.None? then true
      else if !coordinatorOnline then true
      else state == Locked
    }

    method SetLocalNodeId(id: NodeId)
      modifies this
      ensures View() == Do(old(View()), SetLocal(id))
    {
      localNodeId := Some(id);
    }

    method SetTopologyAuthority(id: NodeId) returns (error: Option<Refusal>)
      modifies this
      ensures View() == Do(old(View()), SetAuthority(id)) && error == RefusalOf(old(View()), SetAuthority(id))
    {
      if id.IsNull() {
        return Some(NodeidForge);
      }
      if authorityNodeId.Some? && authorityNodeId.value != id {
        return Some(DuplicateClaim);
      }
      authorityNodeId := Some(id);
      coordinatorId := Some(id);
      return None;
    }

    method SetTopologyCoordinator(id: NodeId) returns (error: Option<Refusal>)
      modifies this
      ensures View() == Do(old(View()), SetCoordinator(id)) && error == RefusalOf(old(View()), SetCoordinator(id))
    {
      if authorityNodeId.None? {
        return Some(DuplicateClaim);
      }
      if authorityNodeId.value != id {
        return Some(DuplicateClaim);
      }
      coordinatorId := Some(id);
      return None;
    }

    method ProposeChange(p: Proposal) returns (error: Option<Refusal>)
      modifies this
      ensures View() == Do(old(View()), Propose(p)) && error == RefusalOf(old(View()), Propose(p))
    {
      if IsCommitLocked() {
        return Some(CommitFail);
      }
      if !IsCoordinator() {
        return Some(CommitFail);
      }
      if state != Active {
        return Some(ValidationFail);
      }
      pendingProposal := Some(p);
      state := Proposed;
      return None;
    }

    method ValidateProposal() returns (error: Option<Refusal>)
      modifies this
      ensures View() == Do(old(View()), Validate) && error == RefusalOf(old(View()), Validate)
    {
      if state != Proposed || pendingProposal.None? {
        return Some(ValidationFail);
      }
      state := Validated;
      return None;
    }

    method PrepareCommit() returns (error: Option<Refusal>)
      modifies this
      ensures View() == Do(old(View()), Prepare) && error == RefusalOf(old(View()), Prepare)
    {
      if state != Validated {
        return Some(ValidationFail);
      }
      state := Prepared;
      return None;
    }

    method AuthorizeActivation() returns (error: Option<Refusal>)
      modifies this
      ensures View() == Do(old(View()), Authorize) && error == RefusalOf(old(View()), Authorize)
    {
      if state != Prepared {
        return Some(CommitFail);
      }
      if !IsCoordinator() {
        return Some(CommitFail);
      }
      state := ActivationAuthorized;
      return None;
    }

    method ActivateVersion() returns (error: Option<Refusal>)
      modifies this
      ensures View() == Do(old(View()), Activate) && error == RefusalOf(old(View()), Activate)
    {
      if state != ActivationAuthorized {
        return Some(CommitFail);
      }
      if pendingProposal.Some? {
        current := pendingProposal.value.version;
        current := current.(commitState := Active);
        pendingProposal := None;
      }
      state := Active;
      return None;
    }

    method AbortCommit()
      modifies this
      ensures View() == Do(old(View()), Abort)
    {
      if state == Active {
        return;
      }
      pendingProposal := None;
      state := Active;
    }

    method MarkCoordinatorOffline()
      modifies this
      ensures View() == Do(old(View()), Offline)
    {
      coordinatorOnline := false;
      if state != Active {
        pendingProposal := None;
        state := Locked;
      }
    }

    method MarkCoordinatorOnline()
      modifies this
      ensures View() == Do(old(View()), Online)
    {
      coordinatorOnline := true;
      if state == Locked {
        state := Active;
      }
    }
  }
}
