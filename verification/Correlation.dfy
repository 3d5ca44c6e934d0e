/** Matching captured events with injected ones, over everything that was recorded. */
module EvidenceCorrelation {
  import opened Common

  datatype Kind = Capture | Receive | Injection | Correlation | Disconnect | Reconnect

  datatype Evidence = Evidence(kind: Kind, timestampUs: Word, eventId: Word, payload: string)

  datatype Verdict = Verdict(
    pass: bool, matched: nat, unmatchedCapture: nat, unmatchedInjection: nat, payloadMismatch: nat,
    nonMonotonic: nat, missing: nat, failureReason: string)

  // ---- what was recorded -------------------------------------------------------------------------

  /** The last record of one kind, per event id. */
  function Latest(records: seq<Evidence>, kind: Kind): (r: map<Word, Evidence>) {
    if records == [] then map[]
    else
      var earlier := Latest(records[..|records| - 1], kind);
      var last := records[|records| - 1];
      if last.kind == kind then earlier[last.eventId := last] else earlier
  }

  predicate Matches(e: Evidence, kind: Kind, id: Word) {
    e.kind == kind && e.eventId == id
  }

  /** Record `i` is the last one of its kind for event `id`. */
  ghost predicate IsLast(records: seq<Evidence>, kind: Kind, id: Word, i: nat) {
    && i < |records| && Matches(records[i], kind, id)
    && forall j :: i < j < |records| ==> !Matches(records[j], kind, id)
  }

  /** The map holds the last record of every event of the kind... */
  lemma {:induction false} LastIsLatest(records: seq<Evidence>, kind: Kind, id: Word, i: nat)
    requires IsLast(records, kind, id, i)
    ensures id in Latest(records, kind) && Latest(records, kind)[id] == records[i]
  {
    if i < |records| - 1 {
      assert !Matches(records[|records| - 1], kind, id);
      LastIsLatest(records[..|records| - 1], kind, id, i);
    }
  }

  /** ... and nothing else. */
  lemma {:induction false} LatestIsLast(records: seq<Evidence>, kind: Kind, id: Word)
    requires id in Latest(records, kind)
    ensures exists i: nat :: IsLast(records, kind, id, i)
  {
    var n := |records| - 1;
    if Matches(records[n], kind, id) {
      assert IsLast(records, kind, id, n);
    } else {
      LatestIsLast(records[..n], kind, id);
      var i: nat :| IsLast(records[..n], kind, id, i);
      assert IsLast(records, kind, id, i);
    }
  }

  // ---- counting ----------------------------------------------------------------------------------

  type Ids = set<Word>

  ghost predicate IsLeast(ids: Ids, lo: Word) {
    lo in ids && forall x :: x in ids ==> lo <= x
  }

  ghost predicate IsGreatest(ids: Ids, hi: Word) {
    hi in ids && forall x :: x in ids ==> x <= hi
  }

  lemma {:induction false} HasBounds(ids: Ids)
    requires ids != {}
    ensures exists lo :: IsLeast(ids, lo)
    ensures exists hi :: IsGreatest(ids, hi)
    decreases |ids|
  {
    var x :| x in ids;
    var rest := ids - {x};
    if rest == {} {
      assert ids == {x};
      assert IsLeast(ids, x) && IsGreatest(ids, x);
    } else {
      HasBounds(rest);
      var lo :| IsLeast(rest, lo);
      var hi :| IsGreatest(rest, hi);
      assert forall y :: y in ids ==> y == x || y in rest;
      assert IsLeast(ids, if x < lo then x else lo);
      assert IsGreatest(ids, if x > hi then x else hi);
    }
  }

  function Least(ids: Ids): (r: Word)
    requires ids != {}
    ensures IsLeast(ids, r)
  {
    HasBounds(ids);
    assert forall lo: Word :: IsLeast(ids, lo) <==> lo in ids && forall x :: x in ids ==> lo <= x;
    var lo :| lo in ids && forall x :: x in ids ==> lo <= x;
    lo
  }

  function Greatest(ids: Ids): (r: Word)
    requires ids != {}
    ensures IsGreatest(ids, r)
  {
    HasBounds(ids);
    assert forall hi: Word :: IsGreatest(ids, hi) <==> hi in ids && forall x :: x in ids ==> x <= hi;
    var hi :| hi in ids && forall x :: x in ids ==> x <= hi;
    hi
  }

  /** The ids from `lo` up to but not including `hi`. */
  ghost function Range(lo: nat, hi: nat): (r: Ids)
    requires lo <= hi <= U64_SIZE
    ensures forall x: Word :: x in r <==> lo <= x < hi
    ensures |r| == hi - lo
    decreases hi
  {
    if lo == hi then {} else Range(lo, hi - 1) + {hi - 1}
  }

  ghost function Mismatched(captures: map<Word, Evidence>, injections: map<Word, Evidence>): Ids {
    set id | id in captures && id in injections && captures[id].payload != injections[id].payload
  }

  ghost function NotLater(captures: map<Word, Evidence>, injections: map<Word, Evidence>): Ids {
    set id | id in captures && id in injections && injections[id].timestampUs <= captures[id].timestampUs
  }

  /** The verdict as counts of sets of ids. */
  ghost function Judge(records: seq<Evidence>): Verdict {
    var captures, injections := Latest(records, Capture), Latest(records, Injection);
    var ids := captures.Keys + injections.Keys;
    var unmatchedCapture := |captures.Keys - injections.Keys|;
    var unmatchedInjection := |injections.Keys - captures.Keys|;
    var payloadMismatch := |Mismatched(captures, injections)|;
    var nonMonotonic := |NotLater(captures, injections)|;
    var missing :=
      if captures.Keys == {} || injections.Keys == {} then 0 else |Range(Least(ids), Greatest(ids) + 1) - ids|;
    var pass := unmatchedCapture == 0 && unmatchedInjection == 0 && payloadMismatch == 0 && nonMonotonic == 0 && missing == 0;
    var reason :=
      if pass then ""
      else if payloadMismatch > 0 then "payload mismatch detected"
      else if nonMonotonic > 0 then "timestamp non-monotonic"
      else if unmatchedCapture > 0 || unmatchedInjection > 0 then "unmatched evidence records"
      else "missing eventId in sequence";
    Verdict(pass, |captures.Keys * injections.Keys|, unmatchedCapture, unmatchedInjection,
            payloadMismatch, nonMonotonic, missing, reason)
  }

  // ---- what the verdict means --------------------------------------------------------------------

  predicate GapFree(ids: Ids) {
    ids == {} || forall x :: Least(ids) <= x <= Greatest(ids) ==> x in ids
  }

  /** For every event, the last captured and the last injected record agree, and the injection is later. */
  ghost predicate PairsAgree(records: seq<Evidence>) {
    forall id: Word, i: nat, j: nat ::
      IsLast(records, Capture, id, i) && IsLast(records, Injection, id, j) ==> Agree(records[i], records[j])
  }

  predicate Agree(captured: Evidence, injected: Evidence) {
    captured.payload == injected.payload && captured.timestampUs < injected.timestampUs
  }

  lemma AgreeMeansNoneCounted(records: seq<Evidence>)
    ensures var c, i := Latest(records, Capture), Latest(records, Injection);
      PairsAgree(records) <==> Mismatched(c, i) == {} && NotLater(c, i) == {}
  {
    var c, i := Latest(records, Capture), Latest(records, Injection);
    hide Latest, Matches;
    if PairsAgree(records) {
      forall id | id in c && id in i
        ensures Agree(c[id], i[id])
      {
        LatestIsLast(records, Capture, id);
        LatestIsLast(records, Injection, id);
        var m: nat :| IsLast(records, Capture, id, m);
        var n: nat :| IsLast(records, Injection, id, n);
        LastIsLatest(records, Capture, id, m);
        LastIsLatest(records, Injection, id, n);
      }
    } else {
      var id: Word, m: nat, n: nat :|
        IsLast(records, Capture, id, m) && IsLast(records, Injection, id, n) && !Agree(records[m], records[n]);
      LastIsLatest(records, Capture, id, m);
      LastIsLatest(records, Injection, id, n);
      assert id in Mismatched(c, i) + NotLater(c, i);
    }
  }

  /**
   The check passes exactly when the same events were captured and injected, without a gap in
   their ids, and the last records of each event agree and are in the right order.
   */
  lemma PassIff(records: seq<Evidence>)
    ensures var c, i := Latest(records, Capture).Keys, Latest(records, Injection).Keys;
      Judge(records).pass <==> c == i && GapFree(c) && PairsAgree(records)
  {
    var captures, injections := Latest(records, Capture), Latest(records, Injection);
    var c, i := captures.Keys, injections.Keys;
    AgreeMeansNoneCounted(records);
    assert c == i <==> c - i == {} && i - c == {};
    if c == i {
      assert c + i == c;
      if c != {} {
        var unseen := Range(Least(c), Greatest(c) + 1) - c;
        if !GapFree(c) {
          var x: Word :| Least(c) <= x <= Greatest(c) && x !in c;
          assert x in unseen;
        }
      }
    }
  }

  /** Every distinct id on either side is counted once, and the gap count is what the range leaves. */
  lemma CountsAddUp(records: seq<Evidence>)
    ensures var c, i, v := Latest(records, Capture).Keys, Latest(records, Injection).Keys, Judge(records);
      && v.matched + v.unmatchedCapture == |c|
      && v.matched + v.unmatchedInjection == |i|
      && (c != {} && i != {} ==> v.missing == Greatest(c + i) - Least(c + i) + 1 - |c + i|)
      && v.missing + |c + i| <= U64_SIZE
  {
    var c, i := Latest(records, Capture).Keys, Latest(records, Injection).Keys;
    assert c == (c * i) + (c - i) && (c * i) !! (c - i);
    assert i == (c * i) + (i - c) && (c * i) !! (i - c);
    var ids := c + i;
    if c != {} && i != {} {
      UnseenSize(ids);
    } else if ids != {} {
      UnseenSize(ids);
    }
  }

  lemma UnseenSize(ids: Ids)
    requires ids != {}
    ensures |Range(Least(ids), Greatest(ids) + 1) - ids| == Greatest(ids) - Least(ids) + 1 - |ids|
  {
    var all := Range(Least(ids), Greatest(ids) + 1);
    assert all == (all - ids) + ids && (all - ids) !! ids;
  }

  /** Some record of that kind has that id. */
  predicate Recorded(records: seq<Evidence>, kind: Kind, id: Word) {
    exists n :: 0 <= n < |records| && Matches(records[n], kind, id)
  }

  /** The last captured and the last injected record of the event differ in what they carry. */
  ghost predicate Differs(records: seq<Evidence>, id: Word) {
    exists i: nat, j: nat ::
      IsLast(records, Capture, id, i) && IsLast(records, Injection, id, j) && records[i].payload != records[j].payload
  }

  /** The last injected record of the event is not later than the last captured one. */
  ghost predicate OutOfOrder(records: seq<Evidence>, id: Word) {
    exists i: nat, j: nat ::
      && IsLast(records, Capture, id, i) && IsLast(records, Injection, id, j)
      && records[j].timestampUs <= records[i].timestampUs
  }

  lemma {:induction false} RecordedIsLatest(records: seq<Evidence>, kind: Kind, id: Word)
    ensures Recorded(records, kind, id) <==> id in Latest(records, kind)
  {
    if id in Latest(records, kind) {
      LatestIsLast(records, kind, id);
    } else if Recorded(records, kind, id) {
      var n := |records| - 1;
      var m :| 0 <= m < |records| && Matches(records[m], kind, id);
      assert m < n && Matches(records[..n][m], kind, id);
      RecordedIsLatest(records[..n], kind, id);
    }
  }

  lemma PairOf(records: seq<Evidence>, id: Word)
    ensures var c, i := Latest(records, Capture), Latest(records, Injection);
      && (Differs(records, id) <==> id in Mismatched(c, i))
      && (OutOfOrder(records, id) <==> id in NotLater(c, i))
  {
    var c, i := Latest(records, Capture), Latest(records, Injection);
    hide Latest, Matches;
    if id in c && id in i {
      LatestIsLast(records, Capture, id);
      LatestIsLast(records, Injection, id);
      var m: nat :| IsLast(records, Capture, id, m);
      var n: nat :| IsLast(records, Injection, id, n);
      LastIsLatest(records, Capture, id, m);
      LastIsLatest(records, Injection, id, n);
    }
    forall m: nat, n: nat | IsLast(records, Capture, id, m) && IsLast(records, Injection, id, n)
      ensures id in c && c[id] == records[m] && id in i && i[id] == records[n]
    {
      LastIsLatest(records, Capture, id, m);
      LastIsLatest(records, Injection, id, n);
    }
  }

  /** The ids recorded, those differing, and those out of order, each as one set. */
  ghost predicate Sorted(records: seq<Evidence>, captured: Ids, injected: Ids, differing: Ids, late: Ids) {
    forall id: Word ::
      && (id in captured <==> Recorded(records, Capture, id))
      && (id in injected <==> Recorded(records, Injection, id))
      && (id in differing <==> Differs(records, id))
      && (id in late <==> OutOfOrder(records, id))
  }

  /** What each count of the verdict counts, in terms of the records. */
  lemma CountsAreOfRecords(records: seq<Evidence>, captured: Ids, injected: Ids, differing: Ids, late: Ids)
    requires Sorted(records, captured, injected, differing, late)
    ensures var v := Judge(records);
      && v.matched == |captured * injected|
      && v.unmatchedCapture == |captured - injected| && v.unmatchedInjection == |injected - captured|
      && v.payloadMismatch == |differing| && v.nonMonotonic == |late|
  {
    var c, i := Latest(records, Capture), Latest(records, Injection);
    forall id: Word
      ensures id in captured <==> id in c.Keys
      ensures id in injected <==> id in i.Keys
      ensures id in differing <==> id in Mismatched(c, i)
      ensures id in late <==> id in NotLater(c, i)
    {
      RecordedIsLatest(records, Capture, id);
      RecordedIsLatest(records, Injection, id);
      PairOf(records, id);
    }
    assert captured == c.Keys && injected == i.Keys && differing == Mismatched(c, i) && late == NotLater(c, i);
  }

  /** Only the first defect in this order is named. */
  lemma ReasonNamesFirstDefect(records: seq<Evidence>)
    ensures var c, i, v := Latest(records, Capture), Latest(records, Injection), Judge(records);
      && (v.failureReason == "" <==> v.pass)
      && (v.failureReason == "payload mismatch detected" <==> exists id :: Differs(records, id))
      && (v.failureReason == "timestamp non-monotonic" <==>
            (exists id :: OutOfOrder(records, id)) && !exists id :: Differs(records, id))
      && (v.failureReason == "missing eventId in sequence" <==> c.Keys == i.Keys && PairsAgree(records) && !GapFree(c.Keys))
      && (v.failureReason == "unmatched evidence records" <==> PairsAgree(records) && c.Keys != i.Keys)
  {
    var c, i := Latest(records, Capture).Keys, Latest(records, Injection).Keys;
    assert c == i <==> c - i == {} && i - c == {};
    PassIff(records);
    AgreeMeansNoneCounted(records);
    SomePairIff(records);
    hide Latest, Mismatched, NotLater, PairsAgree, GapFree, Differs, OutOfOrder, Range, Least, Greatest;
  }

  lemma SomePairIff(records: seq<Evidence>)
    ensures var c, i := Latest(records, Capture), Latest(records, Injection);
      && ((exists id :: Differs(records, id)) <==> Mismatched(c, i) != {})
      && ((exists id :: OutOfOrder(records, id)) <==> NotLater(c, i) != {})
  {
    var c, i := Latest(records, Capture), Latest(records, Injection);
    forall id: Word
      ensures Differs(records, id) <==> id in Mismatched(c, i)
      ensures OutOfOrder(records, id) <==> id in NotLater(c, i)
    {
      PairOf(records, id);
    }
    hide *;
    if x: Word :| x in Mismatched(c, i) {
      assert Differs(records, x);
    }
    if x: Word :| x in NotLater(c, i) {
      assert OutOfOrder(records, x);
    }
  }

  // ---- the gap loop in 64-bit arithmetic -----------------------------------------------------------

  /** The loop variable after `k` increments, wrapping around. */
  function IdAfter(first: Word, k: nat): Word {
    if k == 0 then first else (IdAfter(first, k - 1) + 1) % U64_SIZE
  }

  lemma NextWraps(x: nat)
    ensures (x % U64_SIZE + 1) % U64_SIZE == (x + 1) % U64_SIZE
  {
  }

  lemma {:induction false} IdAfterIs(first: Word, k: nat)
    ensures IdAfter(first, k) == (first + k) % U64_SIZE
  {
    if k > 0 {
      IdAfterIs(first, k - 1);
      NextWraps(first + k - 1);
    }
  }

  /** The loop over the ids up to `last` ends if and only if `last` is not the largest 64-bit number. */
  lemma GapLoopEndsIff(first: Word, last: Word)
    requires first <= last
    ensures (exists k: nat :: IdAfter(first, k) > last) <==> last < U64_SIZE - 1
  {
    if last < U64_SIZE - 1 {
      IdAfterIs(first, last + 1 - first);
      assert IdAfter(first, last + 1 - first) > last;
    }
  }

  // ---- the loops ---------------------------------------------------------------------------------

  lemma RangeGrows(ids: Ids, lo: nat, hi: nat)
    requires lo <= hi < U64_SIZE
    ensures |Range(lo, hi + 1) - ids| == |Range(lo, hi) - ids| + (if hi in ids then 0 else 1)
  {
    OneMore(Range(lo, hi), ids, hi);
  }

  lemma OneMore(range: Ids, ids: Ids, x: Word)
    requires x !in range
    ensures |range + {x} - ids| == |range - ids| + (if x in ids then 0 else 1)
  {
    if x in ids {
      assert range + {x} - ids == range - ids;
    } else {
      assert range + {x} - ids == (range - ids) + {x};
    }
  }

  lemma TakeOut(todo: Ids, id: Word, all: Ids)
    requires id in todo && todo <= all
    ensures todo - {id} < todo && todo - {id} <= all && id in all
  {
  }

  lemma OneLess(s: Ids, todo: Ids, id: Word)
    requires id in todo
    ensures |s - (todo - {id})| == |s - todo| + (if id in s then 1 else 0)
  {
    assert s - (todo - {id}) == if id in s then (s - todo) + {id} else s - todo;
  }

  /** How many ids of `s` have been visited when `todo` is still to be visited. */
  ghost function Visited(s: Ids, todo: Ids): nat {
    |s - todo|
  }

  /** Visiting a captured event moves each of the four counts by what that event contributes. */
  lemma CountOne(captures: map<Word, Evidence>, injections: map<Word, Evidence>, todo: Ids, id: Word)
    requires id in todo && todo <= captures.Keys
    ensures Visited(captures.Keys * injections.Keys, todo - {id})
            == Visited(captures.Keys * injections.Keys, todo) + if id in injections then 1 else 0
    ensures Visited(captures.Keys - injections.Keys, todo - {id})
            == Visited(captures.Keys - injections.Keys, todo) + if id in injections then 0 else 1
    ensures Visited(Mismatched(captures, injections), todo - {id})
            == Visited(Mismatched(captures, injections), todo)
             + if id in injections && captures[id].payload != injections[id].payload then 1 else 0
    ensures Visited(NotLater(captures, injections), todo - {id})
            == Visited(NotLater(captures, injections), todo)
             + if id in injections && injections[id].timestampUs <= captures[id].timestampUs then 1 else 0
  {
    OneLess(captures.Keys * injections.Keys, todo, id);
    OneLess(captures.Keys - injections.Keys, todo, id);
    OneLess(Mismatched(captures, injections), todo, id);
    OneLess(NotLater(captures, injections), todo, id);
  }

  lemma NoneLeft(s: Ids, all: Ids)
    requires s <= all
    ensures Visited(s, all) == 0 && Visited(s, {}) == |s|
  {
    assert s - all == {};
    assert s - {} == s;
  }

  // ---- the object --------------------------------------------------------------------------------

  class E2EEvidenceCollector {
    var records: seq<Evidence>

    constructor ()
      ensures records == []
    {
      records := [];
    }

    method AddRecord(record: Evidence)
      modifies this
      ensures records == old(records) + [record]
    {
      records := records + [record];
    }

    method CollectLatest() returns (captures: map<Word, Evidence>, injections: map<Word, Evidence>)
      ensures captures == Latest(records, Capture) && injections == Latest(records, Injection)
    {
      captures, injections := map[], map[];
      var n := 0;
      while n < |records|
        invariant 0 <= n <= |records|
        invariant captures == Latest(records[..n], Capture) && injections == Latest(records[..n], Injection)
      {
        assert records[..n + 1][..n] == records[..n];
        var rec := records[n];
        if rec.kind == Capture {
          captures := captures[rec.eventId := rec];
        } else if rec.kind == Injection {
          injections := injections[rec.eventId := rec];
        }
        n := n + 1;
      }
      assert records[..n] == records;
    }

    /** The loop ends because the largest id leaves room for one more: see `GapLoopEndsIff`. */
    static method CountMissing(ids: Ids) returns (missing: nat)
      requires ids != {} && Greatest(ids) < U64_SIZE - 1
      ensures missing == |Range(Least(ids), Greatest(ids) + 1) - ids|
    {
      hide Least, Greatest, Range;
      missing := 0;
      var minId, maxId := Least(ids), Greatest(ids);
      var id: Word := minId;
      assert Range(minId, id) == {};
      while id <= maxId
        invariant minId <= id <= maxId + 1
        invariant missing == |Range(minId, id) - ids|
        decreases maxId + 1 - id
      {
        RangeGrows(ids, minId, id);
        if id !in ids {
          missing := missing + 1;
        }
        id := (id + 1) % U64_SIZE;
      }
    }

    static method CountCaptures(captures: map<Word, Evidence>, injections: map<Word, Evidence>)
      returns (matched: nat, unmatched: nat, payloadMismatch: nat, nonMonotonic: nat)
      ensures matched == |captures.Keys * injections.Keys| && unmatched == |captures.Keys - injections.Keys|
      ensures payloadMismatch == |Mismatched(captures, injections)| && nonMonotonic == |NotLater(captures, injections)|
    {
      matched, unmatched, payloadMismatch, nonMonotonic := 0, 0, 0, 0;
      var todo := captures.Keys;
      ghost var both, only := captures.Keys * injections.Keys, captures.Keys - injections.Keys;
      ghost var mismatched, notLater := Mismatched(captures, injections), NotLater(captures, injections);
      NoneLeft(both, todo);
      NoneLeft(only, todo);
      NoneLeft(mismatched, todo);
      NoneLeft(notLater, todo);
      hide *;
      while todo != {}
        invariant todo <= captures.Keys
        invariant matched == Visited(both, todo) && unmatched == Visited(only, todo)
        invariant payloadMismatch == Visited(mismatched, todo) && nonMonotonic == Visited(notLater, todo)
        decreases todo
      {
        var id :| id in todo;
        CountOne(captures, injections, todo, id);
        TakeOut(todo, id, captures.Keys);
        todo := todo - {id};
        if id !in injections {
          unmatched := unmatched + 1;
        } else {
          matched := matched + 1;
          if captures[id].payload != injections[id].payload {
            payloadMismatch := payloadMismatch + 1;
          }
          if injections[id].timestampUs <= captures[id].timestampUs {
            nonMonotonic := nonMonotonic + 1;
          }
        }
      }
    }

    static method CountInjections(captures: map<Word, Evidence>, injections: map<Word, Evidence>) returns (unmatched: nat)
      ensures unmatched == |injections.Keys - captures.Keys|
    {
      unmatched := 0;
      ghost var only := injections.Keys - captures.Keys;
      var todo := injections.Keys;
      assert only - todo == {};
      while todo != {}
        invariant todo <= injections.Keys
        invariant unmatched == |only - todo|
        decreases |todo|
      {
        var id :| id in todo;
        OneLess(only, todo, id);
        todo := todo - {id};
        if id !in captures {
          unmatched := unmatched + 1;
        }
      }
      assert only - todo == only;
    }

    method VerifyCorrelation() returns (v: Verdict)
      requires var c, i := Latest(records, Capture).Keys, Latest(records, Injection).Keys;
        c != {} && i != {} ==> Greatest(c + i) < U64_SIZE - 1
      ensures v == Judge(records)
    {
      hide Latest, Mismatched, NotLater, Range, Least, Greatest;
      var captures, injections := CollectLatest();
      var matched, unmatchedCapture, payloadMismatch, nonMonotonic := CountCaptures(captures, injections);
      var unmatchedInjection := CountInjections(captures, injections);
      var missing := 0;
      if captures.Keys != {} && injections.Keys != {} {
        missing := CountMissing(captures.Keys + injections.Keys);
      }
      var pass := unmatchedCapture == 0 && unmatchedInjection == 0 && payloadMismatch == 0 && nonMonotonic == 0 && missing == 0;
      var reason := "";
      if !pass {
        if payloadMismatch > 0 {
          reason := "payload mismatch detected";
        } else if nonMonotonic > 0 {
          reason := "timestamp non-monotonic";
        } else if unmatchedCapture > 0 || unmatchedInjection > 0 {
          reason := "unmatched evidence records";
        } else if missing > 0 {
          reason := "missing eventId in sequence";
        }
      }
      v := Verdict(pass, matched, unmatchedCapture, unmatchedInjection, payloadMismatch, nonMonotonic, missing, reason);
    }
  }
}
