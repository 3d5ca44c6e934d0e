/** Pairing with a peer and the handshake that makes it a member. */
module Handshakes {
  import opened Common
  import opened IdentityStore
  import opened TrustedStore

  datatype PairingState =
    | Discovered | Untrusted | Pairing | Trusted | Registering | Registered | Member | Rejected | Rollback

  datatype Refusal = CodeMismatch | Unpaired | IllegalTransition | Undiscovered

  datatype Peer = Peer(state: PairingState, code: string)
  datatype Flags = Flags(pairingDone: bool, registrationDone: bool)

  // ---- the pairing state machine -----------------------------------------------------------------

  predicate IsTransitionValid(from: PairingState, to: PairingState) {
    from == to ||
    match from
    case Discovered => to.Untrusted? || to.Rejected?
    case Untrusted => to.Pairing? || to.Rejected?
    case Pairing => to.Trusted? || to.Rejected? || to.Rollback?
    case Trusted => to.Registering? || to.Rollback?
    case Registering => to.Registered? || to.Rollback?
    case Registered => to.Member? || to.Rollback?
    case Member => to.Rollback?
    case Rejected => to.Discovered?
    case Rollback => to.Discovered? || to.Untrusted?
  }

  /** The seven states of a pairing that goes through, in order; the other two are off this ladder. */
  function Rung(s: PairingState): Option<nat> {
    match s
    case Discovered => Some(0)
    case Untrusted => Some(1)
    case Pairing => Some(2)
    case Trusted => Some(3)
    case Registering => Some(4)
    case Registered => Some(5)
    case Member => Some(6)
    case _ => None
  }

  /**
   A pairing stays, climbs one rung, is rejected up to `Pairing`, rolled back from `Pairing` on, or
   comes back to the foot of the ladder from off it.
   */
  lemma TransitionsClimb(from: PairingState, to: PairingState)
    ensures IsTransitionValid(from, to) <==>
      || from == to
      || (Rung(from).Some? && Rung(to).Some? && Rung(to).value == Rung(from).value + 1)
      || (to.Rejected? && Rung(from).Some? && Rung(from).value <= 2)
      || (to.Rollback? && Rung(from).Some? && Rung(from).value >= 2)
      || (to.Discovered? && Rung(from).None?)
      || (from.Rollback? && to.Untrusted?)
  {
  }

  type Peers = map<NodeId, Peer>

  /** Unknown peers count as discovered. */
  function StateOf(peers: Peers, id: NodeId): PairingState {
    if id in peers then peers[id].state else Discovered
  }

  function PeerOf(peers: Peers, id: NodeId): Option<Peer> {
    if id in peers then Some(peers[id]) else None
  }

  datatype Outcome<S> = Outcome(state: S, refusal: Option<Refusal>)

  function InitiatePairing(peers: Peers, id: NodeId, code: string): Outcome<Peers> {
    if code == "" then Outcome(peers, Some(CodeMismatch))
    else
      var peer := if id in peers then peers[id] else Peer(Discovered, "");
      var started := if peer.state.Discovered? then peer.(state := Untrusted) else peer;
      if !IsTransitionValid(started.state, Pairing) then Outcome(peers[id := started], Some(IllegalTransition))
      else Outcome(peers[id := Peer(Pairing, code)], None)
  }

  function PairingRequested(peers: Peers, id: NodeId, code: string): Outcome<Peers> {
    if code == "" then Outcome(peers, Some(CodeMismatch))
    else Outcome(peers[id := Peer(Trusted, if id in peers then peers[id].code else "")], None)
  }

  function PairingAnswered(peers: Peers, id: NodeId, accepted: bool): Outcome<Peers> {
    if id !in peers then Outcome(peers, Some(Unpaired))
    else if !accepted then Outcome(peers[id := peers[id].(state := Rejected)], None)
    else if !IsTransitionValid(peers[id].state, Trusted) then Outcome(peers, Some(IllegalTransition))
    else Outcome(peers[id := peers[id].(state := Trusted)], None)
  }

  function Force(peers: Peers, id: NodeId, to: PairingState): Outcome<Peers> {
    if id !in peers then Outcome(peers, Some(Unpaired))
    else if !IsTransitionValid(peers[id].state, to) then Outcome(peers, Some(IllegalTransition))
    else Outcome(peers[id := peers[id].(state := to)], None)
  }

  class PairingFsm {
    var peers: Peers

    constructor ()
      ensures peers == map[]
    {
      peers := map[];
    }

    method StartPairing(id: NodeId, code: string) returns (refusal: Option<Refusal>)
      modifies this
      ensures Outcome(peers, refusal) == InitiatePairing(old(peers), id, code)
    {
      if code == "" {
        return Some(CodeMismatch);
      }
      if id !in peers {
        peers := peers[id := Peer(Discovered, "")];
      }
      if peers[id].state == Discovered {
        peers := peers[id := peers[id].(state := Untrusted)];
      }
      if !IsTransitionValid(peers[id].state, Pairing) {
        assert peers == old(peers)[id := peers[id]];
        return Some(IllegalTransition);
      }
      peers := peers[id := peers[id].(state := Pairing)];
      peers := peers[id := peers[id].(code := code)];
      assert peers == old(peers)[id := Peer(Pairing, code)];
      return None;
    }

    method HandlePairingRequest(id: NodeId, code: string) returns (refusal: Option<Refusal>)
      modifies this
      ensures Outcome(peers, refusal) == PairingRequested(old(peers), id, code)
    {
      if code == "" {
        return Some(CodeMismatch);
      }
      if id !in peers {
        peers := peers[id := Peer(Untrusted, "")];
      }
      peers := peers[id := peers[id].(state := Trusted)];
      assert peers == old(peers)[id := Peer(Trusted, peers[id].code)];
      return None;
    }

    method HandlePairingResponse(id: NodeId, accepted: bool) returns (refusal: Option<Refusal>)
      modifies this
      ensures Outcome(peers, refusal) == PairingAnswered(old(peers), id, accepted)
    {
      if id !in peers {
        return Some(Unpaired);
      }
      if !accepted {
        peers := peers[id := peers[id].(state := Rejected)];
        return None;
      }
      if !IsTransitionValid(peers[id].state, Trusted) {
        return Some(IllegalTransition);
      }
      peers := peers[id := peers[id].(state := Trusted)];
      return None;
    }

    method ForceTransition(id: NodeId, to: PairingState) returns (refusal: Option<Refusal>)
      modifies this
      ensures Outcome(peers, refusal) == Force(old(peers), id, to)
    {
      if id !in peers {
        return Some(Unpaired);
      }
      if !IsTransitionValid(peers[id].state, to) {
        return Some(IllegalTransition);
      }
      peers := peers[id := peers[id].(state := to)];
      return None;
    }
  }

  // ---- the orchestrator --------------------------------------------------------------------------

  datatype Session = Session(peers: Peers, flags: map<NodeId, Flags>, trusted: seq<Entry>)

  datatype Op =
    | Initiate(id: NodeId, code: string)
    | PairingRequest(id: NodeId, code: string)
    | PairingResponse(id: NodeId, accepted: bool, now: Word, epoch: Word)
    | RegistrationResponse(id: NodeId, accepted: bool)
    | Complete(id: NodeId)
    | RollBack(id: NodeId)

  function RolledBack(s: Session, id: NodeId): Session {
    var flags := if id in s.flags then s.flags[id := Flags(false, false)] else s.flags;
    var state := StateOf(s.peers, id);
    var peers :=
      if state.Discovered? || state.Rejected? then s.peers
      else Force(Force(s.peers, id, Rollback).state, id, Discovered).state;
    Session(peers, flags, Remove(s.trusted, id))
  }

  function Completed(s: Session, id: NodeId): Outcome<Session> {
    if id !in s.flags || !s.flags[id].pairingDone then Outcome(s, Some(Unpaired))
    else if !s.flags[id].registrationDone then Outcome(s, Some(Undiscovered))
    else
      var registering := Force(s.peers, id, Registering);
      if registering.refusal.Some? then Outcome(s.(peers := registering.state), registering.refusal)
      else
        var registered := Force(registering.state, id, Registered);
        if registered.refusal.Some? then Outcome(s.(peers := registered.state), registered.refusal)
        else
          var member := Force(registered.state, id, Member);
          Outcome(s.(peers := member.state), member.refusal)
  }

  function Answered(s: Session, id: NodeId, accepted: bool, now: Word, epoch: Word): Outcome<Session> {
    var paired := PairingAnswered(s.peers, id, accepted);
    if paired.refusal.Some? then Outcome(s.(peers := paired.state), paired.refusal)
    else
      var flags := if id in s.flags then s.flags[id := s.flags[id].(pairingDone := true)] else s.flags;
      var trusted :=
        if StateOf(paired.state, id).Trusted? then Add(s.trusted, Entry(id, now, epoch)) else s.trusted;
      Outcome(Session(paired.state, flags, trusted), None)
  }

  function Step(s: Session, op: Op): Outcome<Session> {
    match op
    case Initiate(id, code) =>
      var r := InitiatePairing(s.peers, id, code);
      if r.refusal.Some? then Outcome(s.(peers := r.state), r.refusal)
      else Outcome(s.(peers := r.state, flags := if id in s.flags then s.flags else s.flags[id := Flags(false, false)]), None)
    case PairingRequest(id, code) =>
      var r := PairingRequested(s.peers, id, code);
      Outcome(s.(peers := r.state), r.refusal)
    case PairingResponse(id, accepted, now, epoch) => Answered(s, id, accepted, now, epoch)
    case RegistrationResponse(id, accepted) =>
      if !accepted then Outcome(RolledBack(s, id), None)
      else Outcome(s.(flags := if id in s.flags then s.flags[id := s.flags[id].(registrationDone := true)] else s.flags), None)
    case Complete(id) => Completed(s, id)
    case RollBack(id) => Outcome(RolledBack(s, id), None)
  }

  const EMPTY := Session(map[], map[], [])

  /** The state after the first `n` calls of a run. */
  function After(ops: seq<Op>, n: nat): Session
    requires n <= |ops|
  {
    if n == 0 then EMPTY else Step(After(ops, n - 1), ops[n - 1]).state
  }

  predicate IsHandshakeComplete(s: Session, id: NodeId) {
    id in s.flags && s.flags[id].pairingDone && s.flags[id].registrationDone
  }

  // ---- invariants --------------------------------------------------------------------------------

  predicate Resting(state: PairingState) {
    state.Discovered? || state.Pairing? || state.Trusted? || state.Member? || state.Rejected?
  }

  predicate Inv(s: Session, id: NodeId) {
    && Resting(StateOf(s.peers, id))
    && (id in s.flags ==> id in s.peers)
    && (StateOf(s.peers, id).Member? ==> IsHandshakeComplete(s, id))
    && (IsTrusted(s.trusted, id) ==> id in s.peers)
  }

  /** What the program holds about one peer. */
  datatype Record = Record(peer: Option<Peer>, flags: Option<Flags>, entry: Option<Entry>)

  function About(s: Session, id: NodeId): Record {
    Record(
      PeerOf(s.peers, id),
      if id in s.flags then Some(s.flags[id]) else None,
      Find(s.trusted, id))
  }

  lemma ForceLeavesOthers(peers: Peers, id: NodeId, to: PairingState, other: NodeId)
    requires other != id
    ensures PeerOf(Force(peers, id, to).state, other) == PeerOf(peers, other)
  {
  }

  lemma CompleteLeavesOthers(s: Session, id: NodeId, other: NodeId)
    requires other != id
    ensures About(Completed(s, id).state, other) == About(s, other)
  {
    hide Force, PeerOf;
    var registering := Force(s.peers, id, Registering).state;
    var registered := Force(registering, id, Registered).state;
    ForceLeavesOthers(s.peers, id, Registering, other);
    ForceLeavesOthers(registering, id, Registered, other);
    ForceLeavesOthers(registered, id, Member, other);
  }

  lemma RollbackLeavesOthers(s: Session, id: NodeId, other: NodeId)
    requires other != id
    ensures About(RolledBack(s, id), other) == About(s, other)
  {
    hide Force, PeerOf, Find, Remove;
    FindAfterRemove(s.trusted, id, other);
    ForceLeavesOthers(s.peers, id, Rollback, other);
    ForceLeavesOthers(Force(s.peers, id, Rollback).state, id, Discovered, other);
  }

  lemma AnswerLeavesOthers(s: Session, id: NodeId, accepted: bool, now: Word, epoch: Word, other: NodeId)
    requires other != id
    ensures About(Answered(s, id, accepted, now, epoch).state, other) == About(s, other)
  {
    hide Find, Add, IsTransitionValid;
    FindAfterAdd(s.trusted, Entry(id, now, epoch), other);
  }

  /** Handshakes with different peers do not interfere. */
  lemma OtherPeersUntouched(s: Session, op: Op, id: NodeId)
    requires op.id != id
    ensures About(Step(s, op).state, id) == About(s, id)
  {
    hide Completed, RolledBack, Answered, Find, IsTransitionValid;
    match op
    case Complete(other) => CompleteLeavesOthers(s, other, id);
    case RollBack(other) => RollbackLeavesOthers(s, other, id);
    case RegistrationResponse(other, _) => RollbackLeavesOthers(s, other, id);
    case PairingResponse(other, accepted, now, epoch) => AnswerLeavesOthers(s, other, accepted, now, epoch, id);
    case _ =>
  }

  /** The invariant speaks about one peer only. */
  lemma InvOf(s: Session, t: Session, id: NodeId)
    requires Inv(s, id) && About(s, id) == About(t, id)
    ensures Inv(t, id)
  {
  }

  lemma OwnStepKeepsInv(s: Session, op: Op)
    requires Inv(s, op.id)
    ensures Inv(Step(s, op).state, op.id)
  {
    hide Find, Add, Remove;
    FindAfterRemove(s.trusted, op.id, op.id);
    if op.PairingResponse? {
      FindAfterAdd(s.trusted, Entry(op.id, op.now, op.epoch), op.id);
    }
  }

  lemma StepKeepsInv(s: Session, op: Op, id: NodeId)
    requires Inv(s, id)
    ensures Inv(Step(s, op).state, id)
  {
    hide Inv, Step, About;
    if op.id != id {
      OtherPeersUntouched(s, op, id);
      InvOf(s, Step(s, op).state, id);
    } else {
      OwnStepKeepsInv(s, op);
    }
  }

  lemma {:induction false} RunKeepsInv(ops: seq<Op>, n: nat, id: NodeId)
    requires n <= |ops|
    ensures Inv(After(ops, n), id)
  {
    if n > 0 {
      RunKeepsInv(ops, n - 1, id);
      StepKeepsInv(After(ops, n - 1), ops[n - 1], id);
    }
  }

  /** Between calls a peer is only ever in one of five states, and a member has both halves done. */
  lemma PeersRest(ops: seq<Op>, n: nat, id: NodeId)
    requires n <= |ops|
    ensures var s := After(ops, n); var state := StateOf(s.peers, id);
      && state in {Discovered, Pairing, Trusted, Member, Rejected}
      && (state.Member? ==> IsHandshakeComplete(s, id))
  {
    RunKeepsInv(ops, n, id);
  }

  lemma CompletedPeer(s: Session, id: NodeId)
    requires Inv(s, id)
    ensures var r := Completed(s, id);
      && (r.refusal.None? <==> IsHandshakeComplete(s, id) && StateOf(s.peers, id).Trusted?)
      && (r.refusal.None? ==> StateOf(r.state.peers, id).Member?)
      && (r.refusal.Some? ==> r.state == s)
  {
    hide Find;
  }

  /** Completing makes a member of a trusted peer with both halves done, and otherwise changes nothing. */
  lemma CompleteIsAllOrNothing(ops: seq<Op>, n: nat, id: NodeId)
    requires n <= |ops|
    ensures var s := After(ops, n); var r := Step(s, Complete(id));
      && (r.refusal.None? <==> IsHandshakeComplete(s, id) && StateOf(s.peers, id).Trusted?)
      && (r.refusal.None? ==> StateOf(r.state.peers, id).Member?)
      && (r.refusal.Some? ==> r.state == s)
  {
    RunKeepsInv(ops, n, id);
    CompletedPeer(After(ops, n), id);
    hide *;
  }

  lemma RolledBackPeer(s: Session, id: NodeId)
    requires Inv(s, id)
    ensures StateOf(RolledBack(s, id).peers, id) == if StateOf(s.peers, id).Rejected? then Rejected else Discovered
    ensures !IsHandshakeComplete(RolledBack(s, id), id)
  {
    hide Find, Remove;
  }

  /** After a rollback nothing of the handshake is left. */
  lemma RollbackLeavesNothing(ops: seq<Op>, n: nat, id: NodeId)
    requires n <= |ops|
    ensures var s := RolledBack(After(ops, n), id);
      && (StateOf(s.peers, id).Discovered? || StateOf(s.peers, id).Rejected?)
      && (StateOf(s.peers, id).Rejected? <==> StateOf(After(ops, n).peers, id).Rejected?)
      && !IsTrusted(s.trusted, id)
      && !IsHandshakeComplete(s, id)
  {
    RunKeepsInv(ops, n, id);
    FindAfterRemove(After(ops, n).trusted, id, id);
    RolledBackPeer(After(ops, n), id);
    hide After, Find, Remove, Force, StateOf;
  }

  // ---- what a state says about the calls that led to it --------------------------------------------

  /**
   What can be seen of a peer: being in the trusted list, one of the states other than discovered,
   being known to the pairing, and having a handshake with either half of it done.
   */
  datatype Mark =
    | Listed | IsPairing | IsTrustedState | IsMember | IsRejected
    | IsKnown | HasHandshake | PairingHalf | RegistrationHalf
  {
    predicate OfState() {
      IsPairing? || IsTrustedState? || IsMember? || IsRejected?
    }
  }

  predicate Shows(m: Mark, s: Session, id: NodeId) {
    match m
    case Listed => IsTrusted(s.trusted, id)
    case IsPairing => StateOf(s.peers, id).Pairing?
    case IsTrustedState => StateOf(s.peers, id).Trusted?
    case IsMember => StateOf(s.peers, id).Member?
    case IsRejected => StateOf(s.peers, id).Rejected?
    case IsKnown => id in s.peers
    case HasHandshake => id in s.flags
    case PairingHalf => id in s.flags && s.flags[id].pairingDone
    case RegistrationHalf => id in s.flags && s.flags[id].registrationDone
  }

  predicate Undoes(op: Op, id: NodeId) {
    op == RollBack(id) || op == RegistrationResponse(id, false)
  }

  /** The peer asks for pairing, with a code. */
  predicate Asks(op: Op, id: NodeId) {
    op.PairingRequest? && op.id == id && op.code != ""
  }

  predicate Answers(op: Op, id: NodeId, yes: bool) {
    op.PairingResponse? && op.id == id && op.accepted == yes
  }

  predicate Succeeds(s: Session, op: Op) {
    Step(s, op).refusal.None?
  }

  /** The calls that give a mark. */
  predicate Gives(m: Mark, s: Session, op: Op, id: NodeId) {
    Succeeds(s, op) &&
    match m
    case Listed => Answers(op, id, true)
    case IsPairing => op.Initiate? && op.id == id
    case IsTrustedState => Asks(op, id) || Answers(op, id, true)
    case IsMember => op == Complete(id)
    case IsRejected => Answers(op, id, false)
    case IsKnown => (op.Initiate? && op.id == id) || Asks(op, id)
    case HasHandshake => op.Initiate? && op.id == id
    case PairingHalf => (Answers(op, id, true) || Answers(op, id, false)) && Shows(HasHandshake, s, id)
    case RegistrationHalf => op == RegistrationResponse(id, true) && Shows(HasHandshake, s, id)
  }

  /** The calls that take it away. */
  predicate Takes(m: Mark, s: Session, op: Op, id: NodeId) {
    match m
    case Listed => Undoes(op, id)
    case IsPairing => Undoes(op, id) || Asks(op, id) || Answers(op, id, true) || Answers(op, id, false)
    case IsTrustedState => Undoes(op, id) || Answers(op, id, false) || (op == Complete(id) && Succeeds(s, op))
    case IsMember => Undoes(op, id) || Asks(op, id) || Answers(op, id, false)
    case IsRejected => Asks(op, id)
    case IsKnown => false
    case HasHandshake => false
    case PairingHalf => Undoes(op, id)
    case RegistrationHalf => Undoes(op, id)
  }

  lemma ListedAfterStep(s: Session, op: Op, id: NodeId)
    ensures Shows(Listed, Step(s, op).state, id)
            <==> Gives(Listed, s, op, id) || (Shows(Listed, s, id) && !Takes(Listed, s, op, id))
  {
    FindAfterRemove(s.trusted, op.id, id);
    if op.PairingResponse? {
      FindAfterAdd(s.trusted, Entry(op.id, op.now, op.epoch), id);
    }
  }

  lemma StateAfterUndo(m: Mark, s: Session, op: Op)
    requires Inv(s, op.id) && m.OfState() && (op.RollBack? || op.RegistrationResponse?)
    ensures Shows(m, Step(s, op).state, op.id)
            <==> Gives(m, s, op, op.id) || (Shows(m, s, op.id) && !Takes(m, s, op, op.id))
  {
    RolledBackPeer(s, op.id);
    hide Inv, Find, Remove, RolledBack;
  }

  lemma StateAfterComplete(m: Mark, s: Session, op: Op)
    requires Inv(s, op.id) && m.OfState() && op.Complete?
    ensures Shows(m, Step(s, op).state, op.id)
            <==> Gives(m, s, op, op.id) || (Shows(m, s, op.id) && !Takes(m, s, op, op.id))
  {
    CompletedPeer(s, op.id);
    hide Inv, Find, Completed;
  }

  lemma StateAfterPairing(m: Mark, s: Session, op: Op)
    requires Inv(s, op.id) && m.OfState() && (op.Initiate? || op.PairingRequest? || op.PairingResponse?)
    ensures Shows(m, Step(s, op).state, op.id)
            <==> Gives(m, s, op, op.id) || (Shows(m, s, op.id) && !Takes(m, s, op, op.id))
  {
    hide Find, Add;
  }

  lemma StateAfterStep(m: Mark, s: Session, op: Op)
    requires Inv(s, op.id) && m.OfState()
    ensures Shows(m, Step(s, op).state, op.id)
            <==> Gives(m, s, op, op.id) || (Shows(m, s, op.id) && !Takes(m, s, op, op.id))
  {
    hide *;
    match op
    case Complete(_) => StateAfterComplete(m, s, op);
    case RollBack(_) => StateAfterUndo(m, s, op);
    case RegistrationResponse(_, _) => StateAfterUndo(m, s, op);
    case _ => StateAfterPairing(m, s, op);
  }

  lemma FlagAfterUndo(m: Mark, s: Session, op: Op)
    requires Inv(s, op.id) && m != Listed && !m.OfState() && (op.RollBack? || op.RegistrationResponse? || op.Complete?)
    ensures Shows(m, Step(s, op).state, op.id)
            <==> Gives(m, s, op, op.id) || (Shows(m, s, op.id) && !Takes(m, s, op, op.id))
  {
    RolledBackFlags(s, op.id);
    CompletedFlags(s, op.id);
    hide Inv, Find, Remove, RolledBack, Completed;
  }

  lemma RolledBackFlags(s: Session, id: NodeId)
    ensures var t := RolledBack(s, id);
      && (id in t.peers <==> id in s.peers)
      && t.flags == if id in s.flags then s.flags[id := Flags(false, false)] else s.flags
  {
    hide IsTransitionValid, Remove;
  }

  lemma CompletedFlags(s: Session, id: NodeId)
    ensures var t := Completed(s, id).state; (id in t.peers <==> id in s.peers) && t.flags == s.flags
  {
    hide IsTransitionValid;
  }

  lemma FlagAfterPairing(m: Mark, s: Session, op: Op)
    requires Inv(s, op.id) && m != Listed && !m.OfState() && (op.Initiate? || op.PairingRequest? || op.PairingResponse?)
    ensures Shows(m, Step(s, op).state, op.id)
            <==> Gives(m, s, op, op.id) || (Shows(m, s, op.id) && !Takes(m, s, op, op.id))
  {
    hide Find, Add;
  }

  lemma FlagAfterStep(m: Mark, s: Session, op: Op)
    requires Inv(s, op.id) && m != Listed && !m.OfState()
    ensures Shows(m, Step(s, op).state, op.id)
            <==> Gives(m, s, op, op.id) || (Shows(m, s, op.id) && !Takes(m, s, op, op.id))
  {
    hide *;
    match op
    case Complete(_) => FlagAfterUndo(m, s, op);
    case RollBack(_) => FlagAfterUndo(m, s, op);
    case RegistrationResponse(_, _) => FlagAfterUndo(m, s, op);
    case _ => FlagAfterPairing(m, s, op);
  }

  lemma MarkAfterStep(m: Mark, s: Session, op: Op, id: NodeId)
    requires Inv(s, id)
    ensures Shows(m, Step(s, op).state, id) <==> Gives(m, s, op, id) || (Shows(m, s, id) && !Takes(m, s, op, id))
  {
    if m == Listed {
      ListedAfterStep(s, op, id);
    } else if op.id != id {
      OtherPeersUntouched(s, op, id);
      hide Step;
      assert PeerOf(Step(s, op).state.peers, id) == PeerOf(s.peers, id);
    } else if m.OfState() {
      StateAfterStep(m, s, op);
    } else {
      FlagAfterStep(m, s, op);
    }
  }

  /** Call `i` gave the mark, and nothing took it away after that up to call `n`. */
  ghost predicate LastGift(m: Mark, ops: seq<Op>, n: nat, i: nat, id: NodeId)
    requires i < n <= |ops|
  {
    Gives(m, After(ops, i), ops[i], id) && forall j: nat :: i < j < n ==> !Takes(m, After(ops, j), ops[j], id)
  }

  ghost predicate GivenAndKept(m: Mark, ops: seq<Op>, n: nat, id: NodeId)
    requires n <= |ops|
  {
    exists i: nat :: i < n && LastGift(m, ops, n, i, id)
  }

  /**
   Every mark is history: it is there exactly when some call gave it and none has taken it away
   since.  So a peer is in the trusted list exactly when it has answered a pairing with yes and no
   rollback came after, a member exactly when a completion succeeded and no rollback, new request
   or negative answer came after, the pairing half is done exactly when it answered, yes or no,
   after a handshake was begun and no rollback came since, and so on.
   */
  lemma {:induction false} MarkIffGivenAndKept(m: Mark, ops: seq<Op>, n: nat, id: NodeId)
    requires n <= |ops|
    ensures Shows(m, After(ops, n), id) <==> GivenAndKept(m, ops, n, id)
  {
    hide *;
    if n == 0 {
      NothingAtFirst(m, ops, id);
    } else {
      MarkIffGivenAndKept(m, ops, n - 1, id);
      RunKeepsInv(ops, n - 1, id);
      MarkAfterStep(m, After(ops, n - 1), ops[n - 1], id);
      AfterUnfolds(ops, n);
      GivenAndKeptStep(m, ops, n, id);
    }
  }

  lemma AfterUnfolds(ops: seq<Op>, n: nat)
    requires 0 < n <= |ops|
    ensures After(ops, n) == Step(After(ops, n - 1), ops[n - 1]).state
  {
  }

  lemma NothingAtFirst(m: Mark, ops: seq<Op>, id: NodeId)
    ensures !Shows(m, After(ops, 0), id) && !GivenAndKept(m, ops, 0, id)
  {
  }

  lemma GivenAndKeptStep(m: Mark, ops: seq<Op>, n: nat, id: NodeId)
    requires 0 < n <= |ops|
    ensures var s, op := After(ops, n - 1), ops[n - 1];
      GivenAndKept(m, ops, n, id) <==> Gives(m, s, op, id) || (GivenAndKept(m, ops, n - 1, id) && !Takes(m, s, op, id))
  {
    hide Gives, Takes, After;
    if GivenAndKept(m, ops, n, id) {
      var i: nat :| i < n && LastGift(m, ops, n, i, id);
      if i < n - 1 {
        assert LastGift(m, ops, n - 1, i, id);
      }
    }
    if Gives(m, After(ops, n - 1), ops[n - 1], id) {
      assert LastGift(m, ops, n, n - 1, id);
    } else if GivenAndKept(m, ops, n - 1, id) && !Takes(m, After(ops, n - 1), ops[n - 1], id) {
      var i: nat :| i < n - 1 && LastGift(m, ops, n - 1, i, id);
      assert LastGift(m, ops, n, i, id);
    }
  }

  /** A negative answer after a positive one leaves the rejected peer in the trusted list. */
  lemma RejectedStillListed(id: NodeId)
    ensures exists ops: seq<Op> ::
      StateOf(After(ops, |ops|).peers, id).Rejected? && IsTrusted(After(ops, |ops|).trusted, id)
  {
    var ops := [Initiate(id, "1"), PairingResponse(id, true, 1, 1), PairingResponse(id, false, 0, 0)];
    var s1 := Step(EMPTY, ops[0]).state;
    var s2 := Step(s1, ops[1]).state;
    var s3 := Step(s2, ops[2]).state;
    assert StateOf(s1.peers, id) == Pairing;
    assert StateOf(s2.peers, id) == Trusted && s2.trusted == [Entry(id, 1, 1)];
    assert StateOf(s3.peers, id) == Rejected && s3.trusted == s2.trusted;
    assert IsTrusted(s3.trusted, id);
    AfterThree(ops);
    hide Step, After, StateOf, IsTrusted;
    assert StateOf(After(ops, |ops|).peers, id).Rejected?;
  }

  lemma AfterThree(ops: seq<Op>)
    requires |ops| == 3
    ensures After(ops, 3) == Step(Step(Step(EMPTY, ops[0]).state, ops[1]).state, ops[2]).state
  {
    hide Step;
    assert After(ops, 1) == Step(After(ops, 0), ops[0]).state;
    assert After(ops, 2) == Step(After(ops, 1), ops[1]).state;
  }

  lemma AfterFive(ops: seq<Op>)
    requires |ops| == 5
    ensures After(ops, 5)
            == Step(Step(Step(Step(Step(EMPTY, ops[0]).state, ops[1]).state, ops[2]).state, ops[3]).state, ops[4]).state
  {
    hide Step;
    assert After(ops, 1) == Step(After(ops, 0), ops[0]).state;
    assert After(ops, 2) == Step(After(ops, 1), ops[1]).state;
    assert After(ops, 3) == Step(After(ops, 2), ops[2]).state;
    assert After(ops, 4) == Step(After(ops, 3), ops[3]).state;
  }

  /** One peer in one state, with nothing in the trusted list. */
  function Alone(id: NodeId, state: PairingState, pairingDone: bool, registrationDone: bool): Session {
    Session(map[id := Peer(state, "1")], map[id := Flags(pairingDone, registrationDone)], [])
  }

  lemma AloneSteps(id: NodeId)
    ensures Step(EMPTY, Initiate(id, "1")).state == Alone(id, Pairing, false, false)
    ensures Step(Alone(id, Pairing, false, false), PairingResponse(id, false, 0, 0)).state == Alone(id, Rejected, true, false)
    ensures Step(Alone(id, Rejected, true, false), PairingRequest(id, "1")).state == Alone(id, Trusted, true, false)
    ensures Step(Alone(id, Trusted, true, false), RegistrationResponse(id, true)).state == Alone(id, Trusted, true, true)
  {
    hide Completed;
  }

  lemma ForceAlone(id: NodeId, from: PairingState, to: PairingState)
    requires IsTransitionValid(from, to)
    ensures Force(map[id := Peer(from, "1")], id, to) == Outcome(map[id := Peer(to, "1")], None)
  {
    assert map[id := Peer(from, "1")][id := Peer(to, "1")] == map[id := Peer(to, "1")];
  }

  lemma AloneCompletes(id: NodeId)
    ensures Step(Alone(id, Trusted, true, true), Complete(id)).state == Alone(id, Member, true, true)
  {
    ForceAlone(id, Trusted, Registering);
    ForceAlone(id, Registering, Registered);
    ForceAlone(id, Registered, Member);
    hide Force;
  }

  /** A rejected answer counts as the pairing half, so a peer can become a member without being in the trusted list. */
  lemma MemberNeedNotBeTrusted(id: NodeId)
    ensures exists ops: seq<Op> ::
      StateOf(After(ops, |ops|).peers, id).Member? && !IsTrusted(After(ops, |ops|).trusted, id)
  {
    var ops := [Initiate(id, "1"), PairingResponse(id, false, 0, 0), PairingRequest(id, "1"),
                RegistrationResponse(id, true), Complete(id)];
    assert After(ops, |ops|) == Alone(id, Member, true, true) by {
      AloneSteps(id);
      AloneCompletes(id);
      hide *;
      AfterFive(ops);
    }
    assert StateOf(After(ops, |ops|).peers, id).Member? && !IsTrusted(After(ops, |ops|).trusted, id) by {
      hide After;
    }
  }

  // ---- the object --------------------------------------------------------------------------------

  class HandshakeOrchestrator {
    const pairing: PairingFsm
    const trusted: TrustedNodeList
    var activeHandshakes: map<NodeId, Flags>

    function View(): Session
      reads this, pairing, trusted
    {
      Session(pairing.peers, activeHandshakes, trusted.entries)
    }

    constructor (pairing: PairingFsm, trusted: TrustedNodeList)
      ensures this.pairing == pairing && this.trusted == trusted
      ensures activeHandshakes == map[]
    {
      this.pairing, this.trusted := pairing, trusted;
      activeHandshakes := map[];
    }

    method InitiateHandshake(id: NodeId, code: string) returns (refusal: Option<Refusal>)
      modifies this, pairing
      ensures Outcome(View(), refusal) == Step(old(View()), Initiate(id, code))
    {
      var r := pairing.StartPairing(id, code);
      if r.Some? {
        return r;
      }
      if id !in activeHandshakes {
        activeHandshakes := activeHandshakes[id := Flags(false, false)];
      }
      return None;
    }

    method HandlePairingRequest(id: NodeId, code: string) returns (refusal: Option<Refusal>)
      modifies pairing
      ensures Outcome(View(), refusal) == Step(old(View()), PairingRequest(id, code))
    {
      refusal := pairing.HandlePairingRequest(id, code);
    }

    /** `now` and `epoch` stand for the clock and for the epoch of the local identity. */
    method HandlePairingResponse(id: NodeId, accepted: bool, now: Word, epoch: Word) returns (refusal: Option<Refusal>)
      modifies this, pairing, trusted
      ensures Outcome(View(), refusal) == Step(old(View()), PairingResponse(id, accepted, now, epoch))
    {
      var r := pairing.HandlePairingResponse(id, accepted);
      if r.Some? {
        return r;
      }
      if id in activeHandshakes {
        activeHandshakes := activeHandshakes[id := activeHandshakes[id].(pairingDone := true)];
      }
      if StateOf(pairing.peers, id) == Trusted {
        trusted.AddEntry(Entry(id, now, epoch));
      }
      return None;
    }

    method HandleRegistrationResponse(id: NodeId, accepted: bool) returns (refusal: Option<Refusal>)
      modifies this, pairing, trusted
      ensures Outcome(View(), refusal) == Step(old(View()), RegistrationResponse(id, accepted))
    {
      if !accepted {
        RollbackHandshake(id);
        return None;
      }
      if id in activeHandshakes {
        activeHandshakes := activeHandshakes[id := activeHandshakes[id].(registrationDone := true)];
      }
      return None;
    }

    method CompleteHandshake(id: NodeId) returns (refusal: Option<Refusal>)
      modifies pairing
      ensures Outcome(View(), refusal) == Step(old(View()), Complete(id))
    {
      if id !in activeHandshakes {
        return Some(Unpaired);
      }
      if !activeHandshakes[id].pairingDone {
        return Some(Unpaired);
      }
      if !activeHandshakes[id].registrationDone {
        return Some(Undiscovered);
      }
      var r := pairing.ForceTransition(id, Registering);
      if r.Some? {
        return r;
      }
      r := pairing.ForceTransition(id, Registered);
      if r.Some? {
        return r;
      }
      refusal := pairing.ForceTransition(id, Member);
    }

    method RollbackHandshake(id: NodeId)
      modifies this, pairing, trusted
      ensures View() == RolledBack(old(View()), id)
    {
      if id in activeHandshakes {
        activeHandshakes := activeHandshakes[id := activeHandshakes[id].(pairingDone := false, registrationDone := false)];
      }
      var state := StateOf(pairing.peers, id);
      if state != Discovered && state != Rejected {
        var _ := pairing.ForceTransition(id, Rollback);
        var _ := pairing.ForceTransition(id, Discovered);
      }
      trusted.RemoveEntry(id);
    }
  }
}
