/** Which calls of a handshake are refused, told from the marks of the peer, and that an ordinary handshake succeeds. */
module HandshakeCalls {
  import opened Common
  import opened IdentityStore
  import opened TrustedStore
  import opened Handshakes

  /** The peer answered, is a member, or was rejected, and none of it was taken back. */
  predicate Advanced(s: Session, id: NodeId) {
    Shows(IsTrustedState, s, id) || Shows(IsMember, s, id) || Shows(IsRejected, s, id)
  }

  lemma RefusedOf(s: Session, id: NodeId, code: string, now: Word, epoch: Word)
    requires Inv(s, id)
    ensures Step(s, Initiate(id, code)).refusal ==
      if code == "" then Some(CodeMismatch) else if Advanced(s, id) then Some(IllegalTransition) else None
    ensures Step(s, PairingRequest(id, code)).refusal == if code == "" then Some(CodeMismatch) else None
    ensures Step(s, PairingResponse(id, true, now, epoch)).refusal ==
      if !Shows(IsKnown, s, id) then Some(Unpaired)
      else if Shows(IsPairing, s, id) || Shows(IsTrustedState, s, id) then None else Some(IllegalTransition)
    ensures Step(s, PairingResponse(id, false, now, epoch)).refusal ==
      if !Shows(IsKnown, s, id) then Some(Unpaired) else None
    ensures forall yes :: Step(s, RegistrationResponse(id, yes)).refusal == None
    ensures Step(s, RollBack(id)).refusal == None
  {
    hide Find, Add, Remove, Completed, RolledBack;
  }

  lemma CompleteRefusedOf(s: Session, id: NodeId)
    requires Inv(s, id)
    ensures Step(s, Complete(id)).refusal ==
      if !Shows(PairingHalf, s, id) then Some(Unpaired)
      else if !Shows(RegistrationHalf, s, id) then Some(Undiscovered)
      else if Shows(IsTrustedState, s, id) then None else Some(IllegalTransition)
  {
    hide Find;
  }

  /**
   In every run, exactly when each call is refused and why, in terms of the marks that
   `MarkIffGivenAndKept` traces back to the calls made before.
   */
  lemma RefusedIff(ops: seq<Op>, n: nat, id: NodeId, code: string, now: Word, epoch: Word)
    requires n <= |ops|
    ensures var s := After(ops, n);
      && Step(s, Initiate(id, code)).refusal ==
           (if code == "" then Some(CodeMismatch) else if Advanced(s, id) then Some(IllegalTransition) else None)
      && Step(s, PairingRequest(id, code)).refusal == (if code == "" then Some(CodeMismatch) else None)
      && Step(s, PairingResponse(id, true, now, epoch)).refusal ==
           (if !Shows(IsKnown, s, id) then Some(Unpaired)
            else if Shows(IsPairing, s, id) || Shows(IsTrustedState, s, id) then None else Some(IllegalTransition))
      && Step(s, PairingResponse(id, false, now, epoch)).refusal ==
           (if !Shows(IsKnown, s, id) then Some(Unpaired) else None)
      && (forall yes :: Step(s, RegistrationResponse(id, yes)).refusal == None)
      && Step(s, RollBack(id)).refusal == None
      && Step(s, Complete(id)).refusal ==
           (if !Shows(PairingHalf, s, id) then Some(Unpaired)
            else if !Shows(RegistrationHalf, s, id) then Some(Undiscovered)
            else if Shows(IsTrustedState, s, id) then None else Some(IllegalTransition))
  {
    RunKeepsInv(ops, n, id);
    var s := After(ops, n);
    hide *;
    RefusedOf(s, id, code, now, epoch);
    CompleteRefusedOf(s, id);
  }

  // ---- the ordinary handshake ----------------------------------------------------------------------

  /** One side of a handshake in which everything is answered with yes. */
  function Ordinary(id: NodeId, code: string, now: Word, epoch: Word): (ops: seq<Op>)
    ensures |ops| == 4
  {
    [Initiate(id, code), PairingResponse(id, true, now, epoch), RegistrationResponse(id, true), Complete(id)]
  }

  /** The state of a peer, its two halves, and its entry in the trusted list. */
  predicate Stands(s: Session, id: NodeId, state: PairingState, flags: Flags, entry: Option<Entry>) {
    StateOf(s.peers, id) == state && id in s.peers && id in s.flags && s.flags[id] == flags && Find(s.trusted, id) == entry
  }

  lemma Initiated(s: Session, id: NodeId, code: string)
    requires Inv(s, id) && !Advanced(s, id) && code != ""
    ensures var r := Step(s, Initiate(id, code));
      && r.refusal.None? && id in r.state.flags
      && Stands(r.state, id, Pairing, r.state.flags[id], Find(s.trusted, id))
  {
    hide Find;
  }

  lemma AnsweredYes(s: Session, id: NodeId, flags: Flags, entry: Option<Entry>, now: Word, epoch: Word)
    requires Stands(s, id, Pairing, flags, entry)
    ensures var r := Step(s, PairingResponse(id, true, now, epoch));
      r.refusal.None? && Stands(r.state, id, Trusted, flags.(pairingDone := true), Some(Entry(id, now, epoch)))
  {
    FindAfterAdd(s.trusted, Entry(id, now, epoch), id);
    hide Find, Add;
  }

  lemma Registered(s: Session, id: NodeId, flags: Flags, entry: Option<Entry>)
    requires Stands(s, id, Trusted, flags, entry)
    ensures var r := Step(s, RegistrationResponse(id, true));
      r.refusal.None? && Stands(r.state, id, Trusted, flags.(registrationDone := true), entry)
  {
    hide Find;
  }

  lemma MadeMember(s: Session, id: NodeId, entry: Option<Entry>)
    requires Stands(s, id, Trusted, Flags(true, true), entry)
    ensures var r := Step(s, Complete(id));
      r.refusal.None? && Stands(r.state, id, Member, Flags(true, true), entry)
  {
    hide Find;
  }

  lemma {:induction false} AfterPrefix(ops: seq<Op>, more: seq<Op>, n: nat)
    requires n <= |ops|
    ensures After(ops + more, n) == After(ops, n)
  {
    hide Step;
    if n > 0 {
      AfterPrefix(ops, more, n - 1);
    }
  }

  /** The state after the first `k` calls of `more`, from `s`. */
  function Onward(s: Session, more: seq<Op>, k: nat): Session
    requires k <= |more|
  {
    if k == 0 then s else Step(Onward(s, more, k - 1), more[k - 1]).state
  }

  lemma {:induction false} OnwardIsAfter(ops: seq<Op>, more: seq<Op>, k: nat)
    requires k <= |more|
    ensures After(ops + more, |ops| + k) == Onward(After(ops, |ops|), more, k)
  {
    hide Step;
    if k == 0 {
      AfterPrefix(ops, more, |ops|);
    } else {
      OnwardIsAfter(ops, more, k - 1);
      assert (ops + more)[|ops| + k - 1] == more[k - 1];
    }
  }

  lemma FourCalls(s: Session, id: NodeId, code: string, now: Word, epoch: Word)
    requires Inv(s, id) && !Advanced(s, id) && code != ""
    ensures var more := Ordinary(id, code, now, epoch);
      && (forall k | 0 <= k < 4 :: Step(Onward(s, more, k), more[k]).refusal.None?)
      && Stands(Onward(s, more, 4), id, Member, Flags(true, true), Some(Entry(id, now, epoch)))
  {
    var more := Ordinary(id, code, now, epoch);
    hide Step, Inv, Advanced, Find, Stands;
    Initiated(s, id, code);
    assert Onward(s, more, 0) == s;
    var s1 := Onward(s, more, 1);
    var flags, entry := s1.flags[id], Some(Entry(id, now, epoch));
    AnsweredYes(s1, id, flags, Find(s.trusted, id), now, epoch);
    var s2 := Onward(s, more, 2);
    Registered(s2, id, flags.(pairingDone := true), entry);
    var s3 := Onward(s, more, 3);
    MadeMember(s3, id, entry);
  }

  /**
   Whatever was called before: for a peer that is not trusted, a member or rejected, the four calls
   of an ordinary handshake all succeed, and the peer then is a member and in the trusted list, with
   the time and epoch of its answer.
   */
  lemma OrdinaryHandshakeSucceeds(ops: seq<Op>, id: NodeId, code: string, now: Word, epoch: Word)
    requires code != "" && !Advanced(After(ops, |ops|), id)
    ensures var more := Ordinary(id, code, now, epoch);
      var all := ops + more;
      && (forall k | 0 <= k < 4 :: Step(After(all, |ops| + k), more[k]).refusal.None?)
      && StateOf(After(all, |all|).peers, id).Member?
      && Find(After(all, |all|).trusted, id) == Some(Entry(id, now, epoch))
  {
    var more := Ordinary(id, code, now, epoch);
    RunKeepsInv(ops, |ops|, id);
    FourCalls(After(ops, |ops|), id, code, now, epoch);
    forall k | 0 <= k <= 4
      ensures After(ops + more, |ops| + k) == Onward(After(ops, |ops|), more, k)
    {
      OnwardIsAfter(ops, more, k);
    }
    StandsShows(After(ops + more, |ops| + 4), id, Member, Flags(true, true), Some(Entry(id, now, epoch)));
    hide *;
  }

  lemma StandsShows(s: Session, id: NodeId, state: PairingState, flags: Flags, entry: Option<Entry>)
    requires Stands(s, id, state, flags, entry)
    ensures StateOf(s.peers, id) == state && Find(s.trusted, id) == entry
  {
  }

  lemma NothingAdvancedAtFirst(id: NodeId)
    ensures !Advanced(After([], 0), id)
  {
  }

  /** In particular from the start, for every peer. */
  lemma FirstHandshakeSucceeds(id: NodeId, code: string, now: Word, epoch: Word)
    requires code != ""
    ensures var ops := Ordinary(id, code, now, epoch);
      StateOf(After(ops, 4).peers, id).Member? && Find(After(ops, 4).trusted, id) == Some(Entry(id, now, epoch))
  {
    NothingAdvancedAtFirst(id);
    OrdinaryHandshakeSucceeds([], id, code, now, epoch);
    assert [] + Ordinary(id, code, now, epoch) == Ordinary(id, code, now, epoch);
  }
}
