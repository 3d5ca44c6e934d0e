/** What a push or a pop achieves when the other thread pauses. */
module SpscProgress {
  import opened Common
  import opened AtomicPayloads
  import opened SpscProtocol
  import opened SpscSafety
  import opened SpscTheorems

  /** `n` steps of one thread in a row. */
  function Steps(s: Ring, a: Action, n: nat): (s': Ring)
    requires Shape(s)
    ensures Shape(s')
    decreases n
  {
    if n == 0 then s else Steps(Do(s, a), a, n - 1)
  }

  function Repeat(a: Action, n: nat): (schedule: seq<Action>)
    ensures |schedule| == n && forall k :: 0 <= k < n ==> schedule[k] == a
  {
    if n == 0 then [] else [a] + Repeat(a, n - 1)
  }

  lemma {:induction false} RunConcat(s: Ring, first: seq<Action>, second: seq<Action>)
    requires Shape(s)
    ensures Run(s, first + second) == Run(Run(s, first), second)
    decreases |second|
  {
    hide Do;
    if second == [] {
      assert first + second == first;
    } else {
      var n := |second| - 1;
      var all := first + second;
      RunConcat(s, first, second[..n]);
      assert all[..|all| - 1] == first + second[..n];
      assert all[|all| - 1] == second[n];
    }
  }

  lemma RunOne(s: Ring, a: Action)
    requires Shape(s)
    ensures Run(s, [a]) == Do(s, a)
  {
    assert [a][..0] == [];
    assert Run(s, []) == s;
  }

  lemma {:induction false} StepsAreRun(s: Ring, a: Action, n: nat)
    requires Shape(s)
    ensures Steps(s, a, n) == Run(s, Repeat(a, n))
    decreases n
  {
    if n > 0 {
      StepsAreRun(Do(s, a), a, n - 1);
      RunConcat(s, [a], Repeat(a, n - 1));
      RunOne(s, a);
    }
  }

  // ---- an undisturbed pop -----------------------------------------------------------------------

  /** The producer is not inside the part of a push that touches a slot. */
  predicate ProducerQuiet(s: Ring) {
    !Writing(s.p) && s.p.pc != PPublishHead
  }

  /** A pop, just starting or under way, all of whose observations still hold. */
  predicate OnTrack(s: Ring)
    requires Shape(s)
  {
    && ProducerQuiet(s)
    && s.tail < s.head
    && s.c.pc != CSkip
    && (s.c.pc == CStoreBoundary ==> s.c.h == s.head)
    && (s.c.pc in {CLoadSequence, CLoadWord, CReloadSequence, CReloadVersion} ==>
          s.c.v1 == s.slots[SlotIndex(s, s.c.ct)].version)
    && (s.c.pc !in {CIdle, CLoadTail, CLoadHead, CStoreBoundary} ==> Oldest(s.head, s.capacity) <= s.tail)
  }

  function PopRank(s: Ring): nat {
    match s.c.pc
    case CIdle => 9
    case CLoadTail => 8
    case CLoadHead => 7
    case CStoreBoundary => 6
    case CLoadVersion => 5
    case CLoadSequence => 4
    case CLoadWord => 3
    case CReloadSequence => 2
    case CReloadVersion => 1
    case _ => 0
  }

  /** The index a pop on track will deliver. */
  function NextLive(s: Ring): nat {
    Max(s.tail, Oldest(s.head, s.capacity))
  }

  lemma LiveSequenceShows(s: Ring)
    requires Inv(s) && OnTrack(s) && s.c.pc == CLoadSequence
    ensures s.slots[SlotIndex(s, s.c.ct)].sequence == s.c.ct + 1
  {
    PublishedSequence(s, s.c.ct);
  }

  lemma OnTrackStep(s: Ring)
    requires Shape(s) && ConsumerInv(s) && OnTrack(s) && s.c.pc != CCommit
    requires s.c.pc == CLoadSequence ==> s.slots[SlotIndex(s, s.c.ct)].sequence == s.c.ct + 1
    requires s.c.pc == CLoadVersion ==> s.slots[SlotIndex(s, s.c.ct)].version % 2 == 0
    ensures var s' := ConsumerStep(s);
      && OnTrack(s') && NextLive(s') == NextLive(s) && s'.popped == s.popped && SameProducerSide(s, s')
      && (PopRank(s') < PopRank(s)
          || (PopRank(s') == PopRank(s) && |s'.c.words| == |s.c.words| + 1 && s.c.pc == CLoadWord))
  {
  }

  /** `s'` differs from `s` at most in the consumer, the tail and the deliveries. */
  predicate SameProducerSide(s: Ring, s': Ring) {
    && s'.capacity == s.capacity && s'.size == s.size && s'.slots == s.slots && s'.head == s.head
    && s'.drops == s.drops && s'.p == s.p && s'.log == s.log && s'.lossy == s.lossy
  }

  lemma FinalStep(s: Ring)
    requires Inv(s) && OnTrack(s) && s.c.pc == CCommit
    ensures var s' := ConsumerStep(s);
      && NextLive(s) == s.tail < |s.log|
      && SameProducerSide(s, s') && s'.c.pc == CIdle && s'.tail == s.tail + 1
      && s'.popped == s.popped + [Delivery(s.tail, s.log[s.tail])]
  {
    ConsumerSkipsOnlyOverwritten(s);
  }

  lemma OnTrackAdvance(s: Ring)
    requires Inv(s) && OnTrack(s) && s.c.pc != CCommit
    ensures var s' := ConsumerStep(s);
      && Inv(s') && OnTrack(s') && NextLive(s') == NextLive(s) && s'.popped == s.popped && SameProducerSide(s, s')
      && (PopRank(s') < PopRank(s)
          || (PopRank(s') == PopRank(s) && |s'.c.words| == |s.c.words| + 1 && s.c.pc == CLoadWord))
  {
    hide ConsumerStep, SlotsInv, ConsumerInv, DeliveriesInv, LossInv, RetryInv;
    ConsumeKeepsInv(s);
    EvenUnlessWriting(s, SlotIndex(s, s.c.ct));
    if s.c.pc == CLoadSequence {
      LiveSequenceShows(s);
    }
    OnTrackStep(s);
  }

  lemma {:induction false} ReachCommit(s: Ring) returns (n: nat)
    requires Inv(s) && OnTrack(s)
    ensures var s' := Steps(s, Consume, n);
      && Inv(s') && OnTrack(s') && s'.c.pc == CCommit && NextLive(s') == NextLive(s)
      && SameProducerSide(s, s') && s'.popped == s.popped
    decreases PopRank(s), WordCount(s.size) - |s.c.words|
  {
    hide ConsumerStep, OnTrack, NextLive, ProducerInv, ConsumerInv, DeliveriesInv, LossInv, RetryInv;
    var s1 := ConsumerStep(s);
    assert Do(s, Consume) == s1;
    if s.c.pc == CCommit {
      n := 0;
    } else {
      OnTrackAdvance(s);
      var m := ReachCommit(s1);
      n := m + 1;
    }
  }

  lemma {:induction false} OneStepMore(s: Ring, a: Action, n: nat)
    requires Shape(s)
    ensures Steps(s, a, n + 1) == Do(Steps(s, a, n), a)
    decreases n
  {
    hide Do;
    if n > 0 {
      OneStepMore(Do(s, a), a, n - 1);
    }
  }

  /** The last access of a pop on its way since `s`. */
  lemma CommitFinishes(s: Ring, t: Ring)
    requires Shape(s) && Inv(t) && OnTrack(t) && t.c.pc == CCommit && NextLive(t) == NextLive(s)
    requires SameProducerSide(s, t) && t.popped == s.popped
    ensures var u := Do(t, Consume);
      && NextLive(s) < |s.log|
      && Inv(u) && SameProducerSide(s, u) && u.c.pc == CIdle && u.tail == NextLive(s) + 1
      && u.popped == s.popped + [Delivery(NextLive(s), s.log[NextLive(s)])]
  {
    ConsumeKeepsInv(t);
    FinalStep(t);
    assert Do(t, Consume) == ConsumerStep(t);
    hide ConsumerStep, Inv, OnTrack, NextLive, Do;
  }

  lemma FinishPop(s: Ring) returns (n: nat)
    requires Inv(s) && OnTrack(s)
    ensures var s' := Steps(s, Consume, n);
      && NextLive(s) < |s.log|
      && Inv(s') && SameProducerSide(s, s') && s'.c.pc == CIdle && s'.tail == NextLive(s) + 1
      && s'.popped == s.popped + [Delivery(NextLive(s), s.log[NextLive(s)])]
  {
    assert Shape(s);
    hide *;
    var m := ReachCommit(s);
    CommitFinishes(s, Steps(s, Consume, m));
    OneStepMore(s, Consume, m);
    n := m + 1;
  }

  /** `s'` is `s` after a pop that delivered the oldest live item and changed nothing else. */
  predicate DeliveredOldestLive(s: Ring, s': Ring) {
    && NextLive(s) < |s.log|
    && s'.popped == s.popped + [Delivery(NextLive(s), s.log[NextLive(s)])]
    && s'.tail == NextLive(s) + 1
    && s'.c.pc == CIdle
    && SameProducerSide(s, s')
  }

  /**
   From any reachable state in which the producer is outside its writing phase and the ring is
   not empty, a pop that runs undisturbed delivers the oldest item still live.
   */
  lemma SoloPopDeliversOldestLive(s: Ring)
    requires Inv(s) && ProducerQuiet(s) && s.c.pc == CIdle && s.tail < s.head
    ensures exists schedule :: PopAlone(schedule) && DeliveredOldestLive(s, Run(s, schedule))
  {
    var n := FinishPop(s);
    StepsAreRun(s, Consume, n);
    var schedule := Repeat(Consume, n);
    assert PopAlone(schedule) && DeliveredOldestLive(s, Run(s, schedule));
  }

  // ---- a pop left alone ends ----------------------------------------------------------------------

  /** Where a pop under way stands: the higher, the further from its end, for a fixed tail. */
  function PopDistance(s: Ring): nat {
    match s.c.pc
    case CIdle => 0
    case CLoadTail => 9
    case CLoadHead => 8
    case CStoreBoundary => 7
    case CLoadVersion => 6
    case CLoadSequence => 5
    case CLoadWord => 4
    case CReloadSequence => 3
    case CReloadVersion => 2
    case _ => 1
  }

  lemma PopStepAdvances(s: Ring)
    requires Inv(s) && s.c.pc != CIdle
    ensures var s' := Do(s, Consume);
      && Inv(s') && SameProducerSide(s, s') && s.tail <= s'.tail <= s'.head
      && (s'.tail == s.tail ==>
            PopDistance(s') < PopDistance(s)
            || (PopDistance(s') == PopDistance(s) && |s'.c.words| == |s.c.words| + 1 <= WordCount(s.size)))
  {
    ConsumeKeepsInv(s);
    PopAdvances(s);
    InvBounds(Do(s, Consume));
    hide Inv, ConsumerStep, SlotsInv, ConsumerInv, DeliveriesInv, LossInv, RetryInv;
  }

  lemma PopAdvances(s: Ring)
    requires Shape(s) && ConsumerInv(s) && s.c.pc != CIdle
    ensures var s' := ConsumerStep(s);
      && SameProducerSide(s, s') && s.tail <= s'.tail
      && (s'.tail == s.tail ==>
            PopDistance(s') < PopDistance(s)
            || (PopDistance(s') == PopDistance(s) && |s'.c.words| == |s.c.words| + 1 <= WordCount(s.size)))
  {
  }

  /** How far a pop is from its end: items ahead of the tail, then steps, then words. */
  datatype Far = Far(items: nat, steps: nat, words: nat)

  function FarOf(s: Ring): Far {
    Far(Max(0, s.head - s.tail), PopDistance(s), Max(0, WordCount(s.size) - |s.c.words|))
  }

  lemma FarFalls(s: Ring)
    requires Inv(s) && s.c.pc != CIdle
    ensures Inv(Do(s, Consume)) && SameProducerSide(s, Do(s, Consume))
    ensures var a, b := FarOf(Do(s, Consume)), FarOf(s);
      a.items < b.items || (a.items == b.items && (a.steps < b.steps || (a.steps == b.steps && a.words < b.words)))
  {
    PopStepAdvances(s);
    hide Inv, Do, PopDistance;
  }

  lemma {:induction false} FinishAnyPop(s: Ring, far: Far) returns (n: nat)
    requires Shape(s) && Inv(s) && far == FarOf(s)
    ensures var s' := Steps(s, Consume, n);
      s'.c.pc == CIdle && SameProducerSide(s, s')
    decreases far.items, far.steps, far.words
  {
    hide *;
    if s.c.pc == CIdle {
      n := 0;
      StepsUnfold(s, Consume, 0);
    } else {
      FarFalls(s);
      var m := FinishAnyPop(Do(s, Consume), FarOf(Do(s, Consume)));
      n := m + 1;
      StepsUnfold(s, Consume, n);
      SameSideOn(s, Do(s, Consume), Steps(s, Consume, n));
    }
  }

  lemma StepsUnfold(s: Ring, a: Action, n: nat)
    requires Shape(s)
    ensures n == 0 ==> Steps(s, a, n) == s && SameProducerSide(s, s)
    ensures n > 0 ==> Steps(s, a, n) == Steps(Do(s, a), a, n - 1)
  {
  }

  lemma SameSideOn(s: Ring, t: Ring, u: Ring)
    requires SameProducerSide(s, t) && SameProducerSide(t, u)
    ensures SameProducerSide(s, u)
  {
  }

  lemma InvBounds(s: Ring)
    requires Inv(s)
    ensures Shape(s) && s.tail <= s.head
  {
  }

  lemma FirstAccess(s: Ring)
    requires Inv(s)
    ensures Inv(Do(s, Consume)) && SameProducerSide(s, Do(s, Consume))
  {
    ConsumeKeepsInv(s);
    hide Inv;
    OnlyConsumerSide(s);
  }

  lemma OnlyConsumerSide(s: Ring)
    requires Shape(s)
    ensures SameProducerSide(s, Do(s, Consume))
  {
  }

  /**
   A pop left alone ends, from any reachable state: whatever push is under way, whatever the slots
   show, and wherever the pop stands.
   */
  lemma SoloPopEnds(s: Ring)
    requires Inv(s)
    ensures exists schedule ::
      schedule != [] && PopAlone(schedule) && Run(s, schedule).c.pc == CIdle && SameProducerSide(s, Run(s, schedule))
  {
    InvBounds(s);
    FirstAccess(s);
    hide Inv, Do;
    var n := FinishAnyPop(Do(s, Consume), FarOf(Do(s, Consume)));
    StepsAreRun(s, Consume, n + 1);
    var schedule := Repeat(Consume, n + 1);
    assert schedule != [] && PopAlone(schedule) && Run(s, schedule).c.pc == CIdle && SameProducerSide(s, Run(s, schedule));
  }

  // ---- an undisturbed push ------------------------------------------------------------------------

  function PushRank(s: Ring): nat {
    match s.p.pc
    case PLoadHead => 6
    case PLoadTail => 5
    case PRaiseVersion => 4
    case PStoreWord => 3
    case PStoreSequence => 2
    case PLowerVersion => 1
    case _ => 0
  }

  /** `s'` differs from `s` at most in the producer, the slots, the head and the log. */
  predicate SameConsumerSide(s: Ring, s': Ring) {
    && s'.capacity == s.capacity && s'.size == s.size && s'.tail == s.tail && s'.drops == s.drops
    && s'.c == s.c && s'.popped == s.popped
  }

  /** A push finds the ring full if it is lossless and the head a capacity ahead, in 64-bit arithmetic. */
  predicate FindsFull(s: Ring, lossless: bool) {
    lossless && WrapSub(s.head, s.tail) == s.capacity
  }

  /** A push under way that is past its test for a full ring or will pass it. */
  predicate Pushing(s: Ring) {
    && (PushRank(s) > 0 || s.p.pc == PPublishHead)
    && (s.p.pc == PLoadTail ==> s.p.lossless)
    && (s.p.pc in {PLoadHead, PLoadTail} ==> !FindsFull(s, s.p.lossless))
  }

  lemma PushStep(s: Ring)
    requires Shape(s) && ProducerPlace(s) && Pushing(s)
    ensures var s' := ProducerStep(s);
      && SameConsumerSide(s, s') && s'.p.item == s.p.item && s'.p.lossless == s.p.lossless
      && (if s.p.pc == PPublishHead
          then && s'.p.pc == (if s.p.lossless then PIdle else PSampleTail) && s'.p.h == s.head
               && s'.head == s.head + 1 && s'.log == s.log[..s.head] + [s.p.item]
          else && Pushing(s')
               && s'.head == s.head && s.head <= |s.log| <= |s'.log| && s'.log[..s.head] == s.log[..s.head]
               && (PushRank(s') < PushRank(s) || (PushRank(s') == PushRank(s) && s'.p.k == s.p.k + 1 <= WordCount(s.size))))
  {
  }

  lemma {:induction false} FinishPush(s: Ring) returns (n: nat)
    requires Inv(s) && Pushing(s)
    ensures var s' := Steps(s, Produce, n);
      && Inv(s') && SameConsumerSide(s, s') && s'.p.pc == (if s.p.lossless then PIdle else PSampleTail)
      && s'.p.h == s.head && s'.head == s.head + 1 && s'.log == s.log[..s.head] + [s.p.item]
    decreases PushRank(s), WordCount(s.size) - s.p.k
  {
    hide ProducerStep, SlotsInv, ConsumerInv, DeliveriesInv, LossInv, RetryInv;
    var s1 := ProducerStep(s);
    assert Do(s, Produce) == s1;
    ProduceKeepsInv(s);
    PushStep(s);
    if s.p.pc == PPublishHead {
      n := 1;
      assert Steps(s1, Produce, 0) == s1;
    } else {
      hide Pushing;
      var m := FinishPush(s1);
      n := m + 1;
    }
  }

  /** One push, with none but the producer taking steps. */
  predicate PushAlone(schedule: seq<Action>, item: Item, lossless: bool) {
    schedule != [] && schedule[0] == Push(item, lossless) && forall k :: 0 < k < |schedule| ==> schedule[k] == Produce
  }

  predicate PopAlone(schedule: seq<Action>) {
    forall k :: 0 <= k < |schedule| ==> schedule[k] == Consume
  }

  /** The item is in the log and the head past it. */
  predicate OneMore(s: Ring, s': Ring, item: Item) {
    s'.log == s.log + [item] && s'.head == s.head + 1 == |s'.log|
  }

  /** `s'` is `s` after an overwriting push published `item` and is about to sample the tail. */
  predicate Published(s: Ring, s': Ring, item: Item) {
    OneMore(s, s', item) && s'.p.pc == PSampleTail && SameConsumerSide(s, s')
  }

  /** A push, begun at `s` and not refused, alone up to the publication. */
  lemma PushUntilPublished(s: Ring, item: Item, lossless: bool) returns (n: nat)
    requires Inv(s) && s.p.pc == PIdle && |item| == s.size && !FindsFull(s, lossless)
    ensures var s' := Steps(Do(s, Push(item, lossless)), Produce, n);
      && Inv(s') && OneMore(s, s', item) && SameConsumerSide(s, s')
      && s'.p.pc == (if lossless then PIdle else PSampleTail) && s'.p.h == s.head
  {
    hide ProducerStep, ConsumerStep, SlotsInv, ConsumerInv, DeliveriesInv, LossInv, RetryInv, Steps;
    var s1 := Do(s, Push(item, lossless));
    PushKeepsInv(s, item, lossless);
    n := FinishPush(s1);
    assert s.log[..s.head] == s.log;
  }

  /** The schedule of a push alone leads where its steps lead. */
  lemma PushSchedule(s: Ring, item: Item, lossless: bool, n: nat) returns (schedule: seq<Action>)
    requires Shape(s)
    ensures schedule == [Push(item, lossless)] + Repeat(Produce, n) && PushAlone(schedule, item, lossless)
    ensures Run(s, schedule) == Steps(Do(s, Push(item, lossless)), Produce, n)
  {
    hide Do, Run, Steps;
    StepsAreRun(Do(s, Push(item, lossless)), Produce, n);
    RunOne(s, Push(item, lossless));
    RunConcat(s, [Push(item, lossless)], Repeat(Produce, n));
    schedule := [Push(item, lossless)] + Repeat(Produce, n);
  }

  /** An overwriting push gets its item published by its own steps alone, whatever the consumer is doing. */
  lemma SoloPushPublishes(s: Ring, item: Item)
    requires Inv(s) && s.p.pc == PIdle && |item| == s.size
    ensures exists schedule :: PushAlone(schedule, item, false) && Published(s, Run(s, schedule), item)
  {
    InvBounds(s);
    hide Inv, Do, Run, Steps;
    var n := PushUntilPublished(s, item, false);
    var schedule := PushSchedule(s, item, false, n);
    assert PushAlone(schedule, item, false) && Published(s, Run(s, schedule), item);
  }

  /**
   `s'` is `s` after a whole push of `item`: published, with one drop counted if the push was an
   overwriting one and found the tail a capacity or more behind, and nothing else changed.
   */
  predicate PushDone(s: Ring, s': Ring, item: Item, lossless: bool) {
    && OneMore(s, s', item) && s'.p.pc == PIdle
    && s'.capacity == s.capacity && s'.size == s.size && s'.tail == s.tail
    && s'.c == s.c && s'.popped == s.popped
    && s'.drops == s.drops + if !lossless && WrapSub(s.head, s.tail) >= s.capacity then 1 else 0
  }

  /** `s'` is `s` after a refused push: nothing but the producer's own variables is different. */
  predicate PushTurnedAway(s: Ring, s': Ring) {
    s'.p.pc == PIdle && s' == s.(p := s'.p)
  }

  lemma SampleEnds(s: Ring) returns (n: nat)
    requires Shape(s) && s.p.pc == PSampleTail
    ensures var counted := WrapSub(s.p.h, s.tail) >= s.capacity;
      Steps(s, Produce, n) == s.(drops := s.drops + (if counted then 1 else 0), p := s.p.(pc := PIdle))
  {
    var s1 := Do(s, Produce);
    assert Steps(s, Produce, 1) == s1 by {
      assert Steps(s1, Produce, 0) == s1;
    }
    n := 1;
    if s1.p.pc == PCountDrop {
      OneStepMore(s, Produce, 1);
      n := 2;
    }
  }

  lemma {:induction false} StepsConcat(s: Ring, a: Action, m: nat, n: nat)
    requires Shape(s)
    ensures Steps(s, a, m + n) == Steps(Steps(s, a, m), a, n)
    decreases m
  {
    hide Do;
    if m > 0 {
      StepsConcat(Do(s, a), a, m - 1, n);
    }
  }

  lemma WholePush(s: Ring, item: Item, lossless: bool) returns (n: nat)
    requires Inv(s) && s.p.pc == PIdle && |item| == s.size && !FindsFull(s, lossless)
    ensures PushDone(s, Steps(Do(s, Push(item, lossless)), Produce, n), item, lossless)
  {
    hide Do, Steps;
    var s1 := Do(s, Push(item, lossless));
    n := PushUntilPublished(s, item, lossless);
    hide Inv;
    if !lossless {
      var t := Steps(s1, Produce, n);
      var more := SampleEnds(t);
      StepsConcat(s1, Produce, n, more);
      n := n + more;
    }
  }

  /** The two loads of a push that finds the ring full. */
  lemma RefusedPush(s: Ring, item: Item)
    requires Inv(s) && s.p.pc == PIdle && |item| == s.size && FindsFull(s, true)
    ensures var schedule := [Push(item, true)] + Repeat(Produce, 2);
      && PushAlone(schedule, item, true) && PushTurnedAway(s, Run(s, schedule))
      && |Trace(s, schedule)| == 3 && Trace(s, schedule)[2] == PushRefused
  {
    var s1 := Do(s, Push(item, true));
    var s2 := Do(s1, Produce);
    assert s2.p.pc == PLoadTail && EventOf(s2, Produce) == PushRefused;
    assert PushTurnedAway(s, Do(s2, Produce)) by {
      PushKeepsLossless(s, item);
    }
    hide Inv, Do, EventOf, PushTurnedAway;
    assert Repeat(Produce, 1) == [Produce] && Repeat(Produce, 2) == [Produce, Produce];
    var schedule := [Push(item, true)] + Repeat(Produce, 2);
    assert schedule == [Push(item, true), Produce, Produce];
    assert schedule[..2] == [Push(item, true), Produce] && schedule[..2][..1] == [Push(item, true)];
    RunOne(s, Push(item, true));
    assert Run(s, schedule[..2]) == s2;
    TraceLength(s, schedule);
    TraceLength(s, schedule[..2]);
  }

  lemma PushKeepsLossless(s: Ring, item: Item)
    requires Shape(s) && s.p.pc == PIdle && |item| == s.size
    ensures Do(s, Push(item, true)).lossy == s.lossy
  {
  }

  /**
   A push left alone ends, whatever the consumer is in the middle of.  It publishes its item unless
   it is lossless and finds the head exactly a capacity ahead, and then it is refused.
   */
  lemma SoloPushEnds(s: Ring, item: Item, lossless: bool)
    requires Inv(s) && s.p.pc == PIdle && |item| == s.size
    ensures FindsFull(s, lossless) ==>
      exists schedule :: PushAlone(schedule, item, lossless) && PushTurnedAway(s, Run(s, schedule)) && PushRefusedLast(s, schedule)
    ensures !FindsFull(s, lossless) ==>
      exists schedule :: PushAlone(schedule, item, lossless) && PushDone(s, Run(s, schedule), item, lossless)
  {
    InvBounds(s);
    hide Inv, Do, Run, Steps, Trace, PushDone, PushTurnedAway;
    if FindsFull(s, lossless) {
      RefusedPush(s, item);
      var schedule := [Push(item, true)] + Repeat(Produce, 2);
      assert PushAlone(schedule, item, lossless) && PushTurnedAway(s, Run(s, schedule)) && PushRefusedLast(s, schedule);
    } else {
      var n := WholePush(s, item, lossless);
      var schedule := PushSchedule(s, item, lossless, n);
      assert PushAlone(schedule, item, lossless) && PushDone(s, Run(s, schedule), item, lossless);
    }
  }

  predicate PushRefusedLast(s: Ring, schedule: seq<Action>)
    requires Shape(s)
  {
    var trace := Trace(s, schedule);
    trace != [] && trace[|trace| - 1] == PushRefused
  }

  /** So a lossless push left alone publishes into a ring with room, and is refused by one that is just full. */
  lemma SoloLosslessPush(s: Ring, item: Item)
    requires Inv(s) && s.p.pc == PIdle && |item| == s.size
    ensures s.head - s.tail < s.capacity ==>
      exists schedule :: PushAlone(schedule, item, true) && PushDone(s, Run(s, schedule), item, true)
    ensures s.head - s.tail == s.capacity ==>
      exists schedule :: PushAlone(schedule, item, true) && PushTurnedAway(s, Run(s, schedule)) && PushRefusedLast(s, schedule)
  {
    InvBounds(s);
    assert s.head - s.tail <= s.capacity ==> WrapSub(s.head, s.tail) == s.head - s.tail;
    SoloPushEnds(s, item, true);
  }

  // ---- how many accesses a call takes --------------------------------------------------------------

  /** How many accesses a push under way still makes at most. */
  function PushWork(p: Producer, words: nat): nat {
    match p.pc
    case PIdle => 0
    case PCountDrop => 1
    case PSampleTail => 2
    case PPublishHead => 3
    case PLowerVersion => 4
    case PStoreSequence => 5
    case PStoreWord => if p.k < words then 5 + words - p.k else 5
    case PRaiseVersion => words + 6
    case PLoadTail => words + 7
    case PLoadHead => words + 8
  }

  /** How many accesses a pop under way still makes at most, while nothing is overwritten. */
  function PopWork(c: Consumer, words: nat): nat {
    match c.pc
    case CIdle => 0
    case CCommit => 1
    case CReloadVersion => 2
    case CReloadSequence => 3
    case CLoadWord => if |c.words| < words then 3 + words - |c.words| else 3
    case CLoadSequence => words + 4
    case CLoadVersion => words + 5
    case CLoadHead => words + 6
    case CLoadTail => words + 7
    case _ => 1
  }

  function PushLeft(s: Ring): nat {
    PushWork(s.p, WordCount(s.size))
  }

  function PopLeft(s: Ring): nat {
    PopWork(s.c, WordCount(s.size))
  }

  /**
   Pushes of both kinds are wait-free: whatever the consumer does in between, each access of the
   producer brings the end of its push nearer, and it is at most the words of an item and eight away.
   */
  lemma PushIsWaitFree(s: Ring, a: Action)
    requires Inv(s)
    ensures PushLeft(s) <= WordCount(s.size) + 8 && (PushLeft(s) == 0 <==> s.p.pc == PIdle)
    ensures a == Produce && s.p.pc != PIdle ==> PushLeft(Do(s, a)) < PushLeft(s)
    ensures a == Consume ==> PushLeft(Do(s, a)) == PushLeft(s)
  {
    hide Inv, SlotsInv, ConsumerInv, DeliveriesInv, LossInv, RetryInv;
    InvBounds(s);
  }

  lemma PopWorkFalls(s: Ring)
    requires Shape(s) && s.c.pc !in {CIdle, CSkip, CStoreBoundary}
    ensures PopLeft(ConsumerStep(s)) < PopLeft(s)
  {
  }

  lemma ProducerLeavesPopWork(s: Ring, a: Action)
    requires Shape(s) && a != Consume
    ensures PopLeft(Do(s, a)) == PopLeft(s)
  {
    hide PopWork;
  }

  /** With lossless pushes only, so are pops. */
  lemma PopIsWaitFree(s: Ring, a: Action)
    requires Inv(s) && LosslessInv(s)
    ensures PopLeft(s) <= WordCount(s.size) + 7 && (PopLeft(s) == 0 <==> s.c.pc == CIdle)
    ensures a == Consume && s.c.pc != CIdle ==> PopLeft(Do(s, a)) < PopLeft(s)
    ensures a != Consume ==> PopLeft(Do(s, a)) == PopLeft(s)
  {
    ChecksNeverFail(s);
    InvBounds(s);
    hide Inv, LosslessInv, ConsumerStep;
    if a != Consume {
      ProducerLeavesPopWork(s, a);
    } else if s.c.pc != CIdle {
      PopWorkFalls(s);
    }
  }
}
