/** What the drop counter of an overwriting push counts, and which items are really lost. */
module SpscDrops {
  import opened Common
  import opened AtomicPayloads
  import opened SpscProtocol
  import opened SpscSafety
  import opened SpscTheorems
  import opened SpscProgress

  // ---- which items are lost ------------------------------------------------------------------------

  /** Whatever happens from `s` on, index `j` is never delivered. */
  ghost predicate Lost(s: Ring, j: nat)
    requires Shape(s)
  {
    forall schedule: seq<Action> :: !Delivered(Run(s, schedule), j)
  }

  /** A whole capacity below the head, not delivered, and not just about to be. */
  predicate Displaced(s: Ring, j: nat) {
    j + s.capacity < s.head && !Delivered(s, j) && !(s.c.pc == CCommit && s.tail == j)
  }

  lemma ConsumerLeavesDisplaced(s: Ring, j: nat)
    requires Inv(s) && Displaced(s, j)
    ensures Displaced(ConsumerStep(s), j)
  {
    var t := ConsumerStep(s);
    OldIsOverwritten(s, j);
    hide ProducerInv, DeliveriesInv, LossInv, RetryInv, Unpack, Pack;
    if s.c.pc == CCommit {
      OneMoreDelivered(s, t, Delivery(s.c.ct, Unpack(s.c.words, s.size)), j);
    } else {
      SameDeliveries(s, t, j);
    }
    hide Delivered;
  }

  lemma OneMoreDelivered(s: Ring, t: Ring, d: Delivery, j: nat)
    requires t.popped == s.popped + [d]
    ensures Delivered(t, j) <==> Delivered(s, j) || d.index == j
  {
    var n := |s.popped|;
    assert t.popped[n] == d;
    if Delivered(s, j) {
      var k :| 0 <= k < n && s.popped[k].index == j;
      assert t.popped[k].index == j;
    }
    if Delivered(t, j) {
      var k :| 0 <= k <= n && t.popped[k].index == j;
      assert k < n ==> s.popped[k] == t.popped[k];
    }
  }

  lemma ProducerLeavesDisplaced(s: Ring, j: nat)
    requires Inv(s) && Displaced(s, j)
    ensures Displaced(ProducerStep(s), j)
  {
    hide SlotsInv, ConsumerInv, DeliveriesInv, LossInv, RetryInv, Delivered;
    var t := ProducerStep(s);
    assert t.popped == s.popped && t.c == s.c && t.tail == s.tail && t.head >= s.head && t.capacity == s.capacity;
    SameDeliveries(s, t, j);
  }

  lemma SameDeliveries(s: Ring, t: Ring, j: nat)
    requires t.popped == s.popped
    ensures Delivered(t, j) <==> Delivered(s, j)
  {
  }

  lemma {:induction false} StaysDisplaced(s: Ring, schedule: seq<Action>, j: nat)
    requires Inv(s) && Displaced(s, j)
    ensures Inv(Run(s, schedule)) && Displaced(Run(s, schedule), j)
  {
    RunKeepsInv(s, schedule);
    if schedule != [] {
      var n := |schedule| - 1;
      StaysDisplaced(s, schedule[..n], j);
      var t := Run(s, schedule[..n]);
      ProducerLeavesDisplaced(t, j);
      ConsumerLeavesDisplaced(t, j);
      hide Inv, ProducerStep, ConsumerStep, Delivered;
      if schedule[n].Push? {
        SameDeliveries(t, Do(t, schedule[n]), j);
      }
    }
  }

  /**
   An item a whole capacity below the head is lost for good if and only if it has not been
   delivered and no pop has passed all its checks on it.
   */
  lemma LostIff(s: Ring, j: nat)
    requires Inv(s) && j + s.capacity < s.head
    ensures Lost(s, j) <==> !Delivered(s, j) && !(s.c.pc == CCommit && s.tail == j)
  {
    if Displaced(s, j) {
      forall schedule: seq<Action>
        ensures !Delivered(Run(s, schedule), j)
      {
        StaysDisplaced(s, schedule, j);
      }
    } else if Delivered(s, j) {
      assert Run(s, []) == s;
    } else {
      RunOne(s, Consume);
      var t := Run(s, [Consume]);
      assert s.c.ct == j;
      assert t.popped[|s.popped|].index == j;
      assert Delivered(t, j);
    }
  }

  // ---- when the counter moves, and when it is right --------------------------------------------------

  /**
   An overwriting push counts a drop in exactly two cases: the consumer is over a capacity behind,
   or it has already taken the very item just published, which makes the subtraction wrap.
   Neither case is the same as a loss: see `CountRightIff`.
   */
  lemma DropCountedIff(s: Ring)
    requires Inv(s) && s.p.pc == PSampleTail && s.head <= U64_SIZE
    ensures ProducerStep(s).p.pc == PCountDrop <==> s.tail + s.capacity < s.head || s.tail == s.head
  {
    if s.tail == s.head {
      assert WrapSub(s.p.h, s.tail) == U64_SIZE - 1;
    } else {
      assert WrapSub(s.p.h, s.tail) == s.p.h - s.tail;
    }
  }

  /** The push counts a drop exactly if the item whose slot it took is lost. */
  ghost predicate CountRight(s: Ring)
    requires Shape(s)
  {
    ProducerStep(s).p.pc == PCountDrop <==> s.head > s.capacity && Lost(s, s.head - 1 - s.capacity)
  }

  /**
   Exactly when the count of one overwriting push is right, from where the consumer stands at the
   moment the push samples the tail: no slot was taken and the new item is still there; or the
   consumer is still below the item displaced, or on it without having passed its checks; or it is
   beyond that item and has delivered it; or it has taken the new item and not the one displaced.
   */
  lemma CountRightIff(s: Ring)
    requires Inv(s) && s.p.pc == PSampleTail && s.head <= U64_SIZE
    ensures CountRight(s) <==>
      if s.head <= s.capacity then s.tail < s.head
      else
        var j := s.head - 1 - s.capacity;
        if s.tail <= j then !(s.c.pc == CCommit && s.tail == j)
        else if s.tail < s.head then Delivered(s, j)
        else !Delivered(s, j)
  {
    DropCountedIff(s);
    hide ProducerStep, ProducerInv, LossInv, RetryInv, Lost;
    if s.head > s.capacity {
      var j := s.head - 1 - s.capacity;
      LostIff(s, j);
    }
  }

  // ---- runs in which the count is wrong ----------------------------------------------------------------

  /** Sampling the tail after the item was taken counts a drop. */
  lemma CountsAfterTaken(s: Ring)
    requires Inv(s) && s.p.pc == PSampleTail && s.tail == s.head <= U64_SIZE
    ensures var s' := Run(s, [Produce, Produce]);
      s'.drops == s.drops + 1 && s'.log == s.log && s'.popped == s.popped && s'.tail == s'.head == s.head
  {
    DropCountedIff(s);
    RunConcat(s, [Produce], [Produce]);
    assert [Produce] + [Produce] == [Produce, Produce];
    RunOne(s, Produce);
    RunOne(Do(s, Produce), Produce);
  }

  /** One item pushed, that item delivered, nothing left, and yet a drop on the counter. */
  predicate SpuriousDrop(s: Ring, item: Item) {
    s.drops == 1 && s.log == [item] && s.popped == [Delivery(0, item)] && s.head == s.tail == 1
  }

  /** The pop took the item and the push has not sampled the tail yet. */
  predicate TakenEarly(s: Ring, item: Item) {
    && s.drops == 0 && s.log == [item] && s.popped == [Delivery(0, item)] && s.head == s.tail == 1
    && s.p.pc == PSampleTail
  }

  lemma PopAfterPublish(s0: Ring, s1: Ring, item: Item)
    requires Inv(s1) && Published(s0, s1, item)
    requires s0.log == [] && s0.head == s0.tail == s0.drops == 0 && s0.popped == [] && s0.c.pc == CIdle
    ensures exists schedule :: TakenEarly(Run(s1, schedule), item)
  {
    SoloPopDeliversOldestLive(s1);
    hide Inv, Run;
    var schedule :| PopAlone(schedule) && DeliveredOldestLive(s1, Run(s1, schedule));
    assert TakenEarly(Run(s1, schedule), item);
  }

  lemma ItemCanBeTakenEarly(capacity: nat, item: Item)
    requires 0 < capacity < U64_SIZE && 0 < |item|
    ensures exists schedule :: TakenEarly(Run(Init(capacity, |item|), schedule), item)
  {
    hide Inv, Run, TakenEarly, Published, PushAlone;
    var s0 := Init(capacity, |item|);
    InitInv(capacity, |item|);
    SoloPushPublishes(s0, item);
    var push :| PushAlone(push, item, false) && Published(s0, Run(s0, push), item);
    RunKeepsInv(s0, push);
    PopAfterPublish(s0, Run(s0, push), item);
    var pop :| TakenEarly(Run(Run(s0, push), pop), item);
    RunConcat(s0, push, pop);
  }

  /**
   The drop counter is not exact under concurrency: for every capacity and item there is a run in
   which the pop takes the item between its publication and the sampling of the tail.
   */
  lemma SpuriousDropExists(capacity: nat, item: Item)
    requires 0 < capacity < U64_SIZE && 0 < |item|
    ensures exists schedule :: SpuriousDrop(Run(Init(capacity, |item|), schedule), item)
  {
    ItemCanBeTakenEarly(capacity, item);
    InitInv(capacity, |item|);
    hide *;
    var s0 := Init(capacity, |item|);
    var schedule :| TakenEarly(Run(s0, schedule), item);
    RunKeepsInv(s0, schedule);
    TakenIsCounted(Run(s0, schedule), item);
    RunConcat(s0, schedule, [Produce, Produce]);
    assert SpuriousDrop(Run(s0, schedule + [Produce, Produce]), item);
  }

  lemma TakenIsCounted(s: Ring, item: Item)
    requires Inv(s) && TakenEarly(s, item)
    ensures SpuriousDrop(Run(s, [Produce, Produce]), item)
  {
    CountsAfterTaken(s);
    hide Run, Inv;
  }

  /** The push has sampled the tail without counting, and is finished. */
  lemma SampleWithoutCount(s: Ring)
    requires Inv(s) && s.p.pc == PSampleTail && s.head <= U64_SIZE
    requires s.head - s.capacity <= s.tail < s.head
    ensures var t := Run(s, [Produce]);
      && Inv(t) && t.p.pc == PIdle && t.head == s.head && t.log == s.log && SameConsumerSide(s, t)
  {
    DropCountedIff(s);
    RunOne(s, Produce);
    ProduceKeepsInv(s);
    assert Do(s, Produce) == ProducerStep(s);
    hide Inv;
  }

  /** A run from `s` to a state with a certain property, as a schedule. */
  ghost predicate Reaches(s: Ring, t: Ring)
    requires Shape(s)
  {
    exists schedule :: Run(s, schedule) == t
  }

  lemma ReachesOnward(s: Ring, t: Ring, schedule: seq<Action>)
    requires Shape(s) && Reaches(s, t) && Shape(t)
    ensures Reaches(s, Run(t, schedule))
  {
    hide Run;
    var first :| Run(s, first) == t;
    RunConcat(s, first, schedule);
    assert Run(s, first + schedule) == Run(t, schedule);
  }

  /** A ring of one slot with one item pushed and nothing popped or counted; the consumer may be under way. */
  predicate One(s: Ring, a: Item) {
    && Inv(s) && s.capacity == 1 && s.size == |a| && s.log == [a] && s.head == 1 && s.tail == s.drops == 0
    && s.popped == [] && s.p.pc == PIdle
  }

  /** The same with a second push on top, about to sample the tail. */
  predicate Two(s: Ring, a: Item, b: Item) {
    && Inv(s) && s.capacity == 1 && s.log == [a, b] && s.head == 2 && s.tail == s.drops == 0
    && s.popped == [] && s.p.pc == PSampleTail
  }

  /** The first push alone, from the start. */
  lemma FirstPushed(a: Item)
    requires 0 < |a|
    ensures exists s: Ring :: One(s, a) && s.c.pc == CIdle && Reaches(Init(1, |a|), s)
  {
    var s0 := Init(1, |a|);
    InitInv(1, |a|);
    SoloPushPublishes(s0, a);
    hide Inv, Run, PushAlone;
    var push :| PushAlone(push, a, false) && Published(s0, Run(s0, push), a);
    RunKeepsInv(s0, push);
    var s1 := Run(s0, push);
    assert Reaches(s0, s1);
    CapacityKept(s0, push);
    SampleWithoutCount(s1);
    CapacityKept(s1, [Produce]);
    ReachesOnward(s0, s1, [Produce]);
    var s2 := Run(s1, [Produce]);
    assert s2.log == [a];
    assert One(s2, a) && s2.c.pc == CIdle && Reaches(s0, s2);
  }

  /** The second push alone, with the consumer wherever it was. */
  lemma SecondPushed(s: Ring, a: Item, b: Item)
    requires One(s, a) && |b| == |a|
    ensures exists t: Ring :: Two(t, a, b) && t.c == s.c && Reaches(s, t)
  {
    SoloPushPublishes(s, b);
    hide Inv, Run, PushAlone;
    var push :| PushAlone(push, b, false) && Published(s, Run(s, push), b);
    RunKeepsInv(s, push);
    var t := Run(s, push);
    assert t.log == [a, b];
    assert Two(t, a, b) && t.c == s.c && Reaches(s, t);
  }

  /** Two pushes finished, the first item lost, and no drop on the counter. */
  ghost predicate UncountedLoss(s: Ring, a: Item, b: Item) {
    Shape(s) && s.log == [a, b] && s.head == 2 && s.p.pc == PIdle && s.drops == 0 && s.popped == [] && Lost(s, 0)
  }

  /** The consumer's first four accesses on a ring it is over a capacity behind: the tail jumps. */
  lemma JumpsToBoundary(s: Ring)
    requires Inv(s) && s.c.pc == CIdle && s.tail + s.capacity < s.head
    ensures var t := Run(s, [Consume, Consume] + [Consume, Consume]);
      && Inv(t) && SameProducerSide(s, t) && t.popped == s.popped && t.tail == s.head - s.capacity && t.c.pc != CCommit
  {
    var s2 := ConsumerStep(ConsumerStep(s));
    FirstTwo(s);
    NextTwo(s2);
    TwoConsumes(s);
    TwoConsumes(s2);
    hide ConsumerStep, Run, Inv;
    RunKeepsInv(s, [Consume, Consume] + [Consume, Consume]);
    RunConcat(s, [Consume, Consume], [Consume, Consume]);
  }

  lemma FirstTwo(s: Ring)
    requires Shape(s) && s.c.pc == CIdle
    ensures var t := ConsumerStep(ConsumerStep(s));
      t.c.pc == CLoadHead && t.c.ct == s.tail && SameProducerSide(s, t) && t.tail == s.tail && t.popped == s.popped
  {
    assert ConsumerStep(s) == s.(c := s.c.(retries := 0, firstHead := None, pc := CLoadTail));
  }

  lemma NextTwo(s: Ring)
    requires Shape(s) && s.c.pc == CLoadHead && s.c.ct == s.tail && s.tail + s.capacity < s.head
    ensures var t := ConsumerStep(ConsumerStep(s));
      SameProducerSide(s, t) && t.tail == s.head - s.capacity && t.popped == s.popped && t.c.pc == CLoadVersion
  {
    var s1 := ConsumerStep(s);
    assert s1.c.pc == CStoreBoundary && s1.c.h == s.head && SameProducerSide(s, s1) && s1.popped == s.popped;
  }

  lemma TwoConsumes(s: Ring)
    requires Shape(s)
    ensures Run(s, [Consume, Consume]) == ConsumerStep(ConsumerStep(s))
  {
    RunConcat(s, [Consume], [Consume]);
    assert [Consume] + [Consume] == [Consume, Consume];
    RunOne(s, Consume);
    RunOne(Do(s, Consume), Consume);
    assert Do(s, Consume) == ConsumerStep(s);
    assert Do(ConsumerStep(s), Consume) == ConsumerStep(ConsumerStep(s));
    hide Run, ConsumerStep, Do;
  }

  /** The consumer skips what the second push displaced before that push samples the tail. */
  lemma SkippedUncounted(s: Ring, a: Item, b: Item)
    requires Two(s, a, b) && s.c.pc == CIdle
    ensures exists t: Ring :: UncountedLoss(t, a, b) && Reaches(s, t)
  {
    hide Inv, Run, Reaches, Lost;
    JumpsToBoundary(s);
    var s1 := Run(s, [Consume, Consume] + [Consume, Consume]);
    SampleWithoutCount(s1);
    var s2 := Run(s1, [Produce]);
    LostIff(s2, 0);
    assert UncountedLoss(s2, a, b);
    ReachesSelf(s);
    ReachesOnward(s, s, [Consume, Consume] + [Consume, Consume]);
    ReachesOnward(s, s1, [Produce]);
  }

  lemma ReachesSelf(s: Ring)
    requires Shape(s)
    ensures Reaches(s, s)
  {
    assert Run(s, []) == s;
  }

  /**
   A loss can go uncounted: on a ring of one slot, for any two items, the consumer skips the first
   between the publication of the second and the sampling of the tail.
   */
  lemma UncountedLossExists(a: Item, b: Item)
    requires 0 < |a| == |b|
    ensures exists schedule :: UncountedLoss(Run(Init(1, |a|), schedule), a, b)
  {
    FirstPushed(a);
    hide *;
    var s0 := Init(1, |a|);
    var s1: Ring :| One(s1, a) && s1.c.pc == CIdle && Reaches(s0, s1);
    SecondPushed(s1, a, b);
    var s2: Ring :| Two(s2, a, b) && s2.c == s1.c && Reaches(s1, s2);
    SkippedUncounted(s2, a, b);
    var s3: Ring :| UncountedLoss(s3, a, b) && Reaches(s2, s3);
    HaveShape(s1, s2, a, b);
    ReachesTransitive(s0, s1, s2);
    ReachesTransitive(s0, s2, s3);
    ReachedBySchedule(s0, s3);
  }

  lemma HaveShape(s1: Ring, s2: Ring, a: Item, b: Item)
    requires One(s1, a) && Two(s2, a, b)
    ensures Shape(s1) && Shape(s2)
  {
  }

  lemma ReachesTransitive(s: Ring, t: Ring, u: Ring)
    requires Shape(s) && Shape(t) && Reaches(s, t) && Reaches(t, u)
    ensures Reaches(s, u)
  {
    hide Run;
    var schedule :| Run(t, schedule) == u;
    ReachesOnward(s, t, schedule);
  }

  lemma ReachedBySchedule(s: Ring, t: Ring)
    requires Shape(s) && Reaches(s, t)
    ensures exists schedule :: Run(s, schedule) == t
  {
  }

  /** Two pushes finished, the first item delivered, the second still live, and yet a drop on the counter. */
  predicate CountedWithoutLoss(s: Ring, a: Item, b: Item) {
    && s.log == [a, b] && s.head == 2 && s.p.pc == PIdle && s.drops == 1
    && s.popped == [Delivery(0, a)] && s.tail == 1
  }

  /** A pop stopped just before its last access, on the only item of the ring. */
  lemma ReadyToCommit(s: Ring, a: Item)
    requires One(s, a) && s.c.pc == CIdle
    ensures exists t: Ring :: One(t, a) && t.c.pc == CCommit && Reaches(s, t)
  {
    assert OnTrack(s);
    var n := ReachCommit(s);
    StepsAreRun(s, Consume, n);
    var t := Steps(s, Consume, n);
    FinalStep(t);
    hide Inv, Run, Steps, OnTrack, ConsumerStep;
    assert One(t, a) && t.c.pc == CCommit && Reaches(s, t);
  }

  lemma CountsDrop(s: Ring)
    requires Inv(s) && s.p.pc == PSampleTail && s.tail + s.capacity < s.head <= U64_SIZE
    ensures var t := Run(s, [Produce, Produce]);
      && Inv(t) && t.drops == s.drops + 1 && t.log == s.log && t.head == s.head && t.p.pc == PIdle
      && t.tail == s.tail && t.c == s.c && t.popped == s.popped
  {
    DropCountedIff(s);
    RunKeepsInv(s, [Produce, Produce]);
    RunConcat(s, [Produce], [Produce]);
    assert [Produce] + [Produce] == [Produce, Produce];
    RunOne(s, Produce);
    RunOne(Do(s, Produce), Produce);
    hide Inv, Run;
  }

  lemma CommitAlone(s: Ring)
    requires Inv(s) && s.c.pc == CCommit
    ensures var t := Run(s, [Consume]);
      && s.tail < |s.log| && SameProducerSide(s, t) && t.tail == s.tail + 1
      && t.popped == s.popped + [Delivery(s.tail, s.log[s.tail])]
  {
    RunOne(s, Consume);
    hide SlotsInv, DeliveriesInv, LossInv, RetryInv, Run, Pack, Unpack;
    UnpackPack(s.log[s.tail]);
  }

  /** The producer counts, and then the consumer delivers the item it had already read. */
  lemma CountThenCommit(s: Ring)
    requires Inv(s) && s.p.pc == PSampleTail && s.c.pc == CCommit && s.tail + s.capacity < s.head <= U64_SIZE
    ensures var t := Run(s, [Produce, Produce] + [Consume]);
      && s.tail < |s.log|
      && t.drops == s.drops + 1 && t.log == s.log && t.head == s.head && t.p.pc == PIdle && t.tail == s.tail + 1
      && t.popped == s.popped + [Delivery(s.tail, s.log[s.tail])]
  {
    CountsDrop(s);
    hide Inv, Run;
    CommitAlone(Run(s, [Produce, Produce]));
    RunConcat(s, [Produce, Produce], [Consume]);
  }

  lemma CommittedCounted(s: Ring, a: Item, b: Item)
    requires Two(s, a, b) && s.c.pc == CCommit
    ensures exists t: Ring :: CountedWithoutLoss(t, a, b) && Reaches(s, t)
  {
    CountThenCommit(s);
    hide Inv, Run;
    ReachesSelf(s);
    ReachesOnward(s, s, [Produce, Produce] + [Consume]);
    var t := Run(s, [Produce, Produce] + [Consume]);
    assert CountedWithoutLoss(t, a, b) && Reaches(s, t);
  }

  /**
   And a drop can be counted although the consumer is a capacity behind and nothing is lost: for
   any two items, the pop has read the first before the second push begins and delivers it after.
   */
  lemma CountedWithoutLossExists(a: Item, b: Item)
    requires 0 < |a| == |b|
    ensures exists schedule :: CountedWithoutLoss(Run(Init(1, |a|), schedule), a, b)
  {
    FirstPushed(a);
    hide *;
    var s0 := Init(1, |a|);
    var s1: Ring :| One(s1, a) && s1.c.pc == CIdle && Reaches(s0, s1);
    ReadyToCommit(s1, a);
    var s2: Ring :| One(s2, a) && s2.c.pc == CCommit && Reaches(s1, s2);
    SecondPushed(s2, a, b);
    var s3: Ring :| Two(s3, a, b) && s3.c == s2.c && Reaches(s2, s3);
    CommittedCounted(s3, a, b);
    var s4: Ring :| CountedWithoutLoss(s4, a, b) && Reaches(s3, s4);
    HaveShape(s1, s3, a, b);
    HaveShape(s2, s3, a, b);
    ReachesTransitive(s0, s1, s2);
    ReachesTransitive(s0, s2, s3);
    ReachesTransitive(s0, s3, s4);
    ReachedBySchedule(s0, s4);
  }
}
