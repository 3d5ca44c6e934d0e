/** What every interleaving of the ring protocol keeps, whichever push operations are mixed. */
module SpscSafety {
  import opened Common
  import opened AtomicPayloads
  import opened SpscProtocol

  // ---- which push last wrote a slot --------------------------------------------------------

  /** The last of the first `n` pushes that goes to slot `i`, or -1. */
  function LastWrite(i: nat, n: nat, capacity: nat): (w: int)
    requires i < capacity
    ensures -1 <= w < n
    ensures w >= 0 ==> w % capacity == i
  {
    if n == 0 then -1
    else if (n - 1) % capacity == i then n - 1
    else LastWrite(i, n - 1, capacity)
  }

  /** Two different indices of the same slot are at least a capacity apart. */
  lemma SameSlotApart(a: nat, b: nat, capacity: nat)
    requires 0 < capacity && a < b && a % capacity == b % capacity
    ensures a + capacity <= b
  {
    var q := b / capacity - a / capacity;
    assert b - a == capacity * q;
    MultipleAtLeast(capacity, q);
  }

  lemma ShiftedSlot(a: nat, capacity: nat)
    requires 0 < capacity
    ensures (a + capacity) % capacity == a % capacity
  {
    var n := a + capacity;
    var k := n / capacity - a / capacity - 1;
    assert capacity * k == a % capacity - n % capacity;
    MultipleAtLeast(capacity, k);
    MultipleAtLeast(capacity, -k);
  }

  lemma MultipleAtLeast(d: nat, k: int)
    ensures k >= 1 ==> d * k >= d
    ensures k <= 0 ==> d * k <= 0
    ensures d * -k == -(d * k)
  {
  }

  lemma {:induction false} LastWriteCovers(j: nat, n: nat, capacity: nat)
    requires 0 < capacity && j < n
    ensures LastWrite(j % capacity, n, capacity) >= j
  {
    if (n - 1) % capacity != j % capacity {
      LastWriteCovers(j, n - 1, capacity);
    }
  }

  /** Before push `h`, its slot holds item `h - capacity` (or nothing yet). */
  lemma LastWriteBefore(h: nat, capacity: nat)
    requires 0 < capacity
    ensures LastWrite(h % capacity, h, capacity) == if h >= capacity then h - capacity else -1
  {
    var w := LastWrite(h % capacity, h, capacity);
    if w >= 0 {
      SameSlotApart(w, h, capacity);
    }
    if h >= capacity {
      ShiftedSlot(h - capacity, capacity);
      LastWriteCovers(h - capacity, h, capacity);
    }
  }

  // ---- the invariant -----------------------------------------------------------------------

  predicate Writing(p: Producer) {
    p.pc in {PStoreWord, PStoreSequence, PLowerVersion}
  }

  /** A slot nobody is writing holds the complete item of the last push that went there. */
  predicate SlotSettled(s: Ring, i: nat)
    requires Shape(s) && i < s.capacity
  {
    var w := LastWrite(i, |s.log|, s.capacity);
    && s.slots[i].version % 2 == 0
    && (w < 0 ==> s.slots[i].sequence == i)
    && (w >= 0 ==> s.slots[i].sequence == w + 1 && |s.log[w]| == s.size && s.slots[i].words == Pack(s.log[w]))
  }

  /** The slot being written: odd version, the words stored so far, and the sequence number of the moment. */
  predicate SlotInFlight(s: Ring)
    requires Shape(s)
  {
    var h := s.p.h;
    var slot := s.slots[SlotIndex(s, h)];
    var stored := if s.p.pc == PStoreWord then s.p.k else WordCount(s.size);
    && slot.version % 2 == 1
    && slot.words[..stored] == Pack(s.p.item)[..stored]
    && slot.sequence ==
       if s.p.pc == PLowerVersion then h + 1
       else if h >= s.capacity then h - s.capacity + 1 else h
  }

  predicate ProducerInv(s: Ring)
    requires Shape(s)
  {
    ProducerPlace(s) && SlotsInv(s)
  }

  /** Where the producer stands: its index, and how far the log is ahead of the head. */
  predicate ProducerPlace(s: Ring) {
    && |s.log| == s.head + (if Writing(s.p) || s.p.pc == PPublishHead then 1 else 0)
    && (s.p.pc in {PLoadTail, PRaiseVersion} ==> s.p.h == s.head)
    && (Writing(s.p) || s.p.pc == PPublishHead ==> s.p.h == s.head && s.log[s.head] == s.p.item)
    && (s.p.pc in {PSampleTail, PCountDrop} ==> s.p.h + 1 == s.head)
    && (forall j :: 0 <= j < |s.log| ==> |s.log[j]| == s.size)
  }

  predicate SlotsInv(s: Ring)
    requires Shape(s)
  {
    && (Writing(s.p) ==> SlotInFlight(s))
    && (forall i: nat :: i < s.capacity && !(Writing(s.p) && i == SlotIndex(s, s.p.h)) ==> SlotSettled(s, i))
  }

  predicate ConsumerInv(s: Ring)
    requires Shape(s)
  {
    var c := s.c;
    var slot := s.slots[SlotIndex(s, c.ct)];
    && s.tail <= s.head
    && (c.pc !in {CIdle, CLoadTail} ==> c.ct == s.tail)
    && (c.pc !in {CIdle, CLoadTail, CLoadHead} ==> c.h <= s.head)
    && (c.pc == CStoreBoundary ==> c.ct < Oldest(c.h, s.capacity))
    && (c.pc !in {CIdle, CLoadTail, CLoadHead, CStoreBoundary} ==> Oldest(c.h, s.capacity) <= c.ct < c.h)
    && (c.pc in {CLoadSequence, CLoadWord, CReloadSequence, CReloadVersion} ==>
          && c.v1 % 2 == 0 && c.v1 <= slot.version
          && (c.v1 != slot.version ==> c.ct + s.capacity < |s.log|))
    && (c.pc == CSkip ==> slot.sequence > c.ct + 1)
    && (c.pc in {CLoadWord, CReloadSequence, CReloadVersion} ==>
          && c.s1 == c.ct + 1
          && (c.v1 == slot.version ==>
                slot.sequence == c.s1 && c.words == slot.words[..|c.words|]))
    && (c.pc == CReloadVersion && c.v1 == slot.version ==> c.s2 == c.s1)
    && (c.pc == CCommit ==> c.ct < |s.log| && c.words == Pack(s.log[c.ct]))
  }

  /** The slot of index `j` has since been given to a later push, whose sequence number is already there. */
  predicate Overwritten(s: Ring, j: nat)
    requires Shape(s)
  {
    s.slots[SlotIndex(s, j)].sequence > j + 1
  }

  predicate Delivered(s: Ring, j: nat) {
    exists d :: 0 <= d < |s.popped| && s.popped[d].index == j
  }

  /** Deliveries carry exactly the item pushed at their index, in increasing index order. */
  predicate DeliveriesInv(s: Ring)
    requires Shape(s)
  {
    && (forall d :: 0 <= d < |s.popped| ==>
          s.popped[d].index < s.tail && s.popped[d].index < |s.log| && s.popped[d].item == s.log[s.popped[d].index])
    && (forall d, e :: 0 <= d < e < |s.popped| ==> s.popped[d].index < s.popped[e].index)
  }

  predicate LossInv(s: Ring)
    requires Shape(s)
  {
    forall j: nat :: j < s.tail ==> Delivered(s, j) || Overwritten(s, j)
  }

  /** Every retry of the running pop is paid for by a push at or above the head it first saw. */
  predicate RetryInv(s: Ring) {
    && (s.c.retries > 0 && s.c.pc != CIdle ==> s.c.firstHead.Some?)
    && (s.c.firstHead.Some? ==>
          && s.c.firstHead.value <= s.head
          && (s.c.pc !in {CIdle, CLoadTail, CLoadHead} ==> s.c.firstHead.value <= s.c.h)
          && (s.c.retries > 0 ==>
                && s.c.firstHead.value + s.c.retries <= s.tail + s.capacity
                && s.c.firstHead.value + s.c.retries <= |s.log|))
    && (s.c.firstHead.None? ==> s.c.retries == 0)
    && (s.c.pc !in {CIdle, CLoadTail, CLoadHead} ==> s.c.firstHead.Some?)
  }

  predicate Inv(s: Ring) {
    && Shape(s)
    && ProducerInv(s)
    && ConsumerInv(s)
    && DeliveriesInv(s)
    && LossInv(s)
    && RetryInv(s)
  }

  // ---- facts the invariant gives -----------------------------------------------------------

  /** The slot of a published index shows that index's sequence number or a later one. */
  lemma PublishedSequence(s: Ring, j: nat)
    requires Shape(s) && ProducerInv(s) && j < s.head
    ensures s.slots[SlotIndex(s, j)].sequence >= j + 1
    ensures s.slots[SlotIndex(s, j)].sequence > j + 1 ==> j + s.capacity < |s.log|
  {
    var i := SlotIndex(s, j);
    LastWriteCovers(j, |s.log|, s.capacity);
    var w := LastWrite(i, |s.log|, s.capacity);
    if w != j {
      SameSlotApart(j, w, s.capacity);
    }
    if Writing(s.p) && i == SlotIndex(s, s.p.h) {
      SameSlotApart(j, s.p.h, s.capacity);
    } else {
      assert SlotSettled(s, i);
    }
  }

  /** An index a full capacity below the head has been overwritten. */
  lemma OldIsOverwritten(s: Ring, j: nat)
    requires Shape(s) && ProducerInv(s) && j + s.capacity < s.head
    ensures Overwritten(s, j)
  {
    ShiftedSlot(j, s.capacity);
    PublishedSequence(s, j + s.capacity);
  }

  /** A settled slot that shows index `j`'s sequence number holds item `j`. */
  lemma SettledHolds(s: Ring, j: nat)
    requires Shape(s) && ProducerInv(s) && j < s.head
    requires s.slots[SlotIndex(s, j)].version % 2 == 0
    requires s.slots[SlotIndex(s, j)].sequence == j + 1
    ensures s.slots[SlotIndex(s, j)].words == Pack(s.log[j])
  {
    LastWriteCovers(j, |s.log|, s.capacity);
    assert SlotSettled(s, SlotIndex(s, j));
  }

  // ---- preservation ------------------------------------------------------------------------

  lemma InitInv(capacity: nat, size: nat)
    requires 0 < capacity < U64_SIZE && 0 < size
    ensures Inv(Init(capacity, size))
  {
  }

  /** What a producer step may do to the slots: versions and sequence numbers never go back, and
      a slot whose version stands still is untouched. */
  lemma ProducerSlots(s: Ring)
    requires Shape(s) && ProducerInv(s)
    ensures var s' := ProducerStep(s);
      forall i: nat :: i < s.capacity ==>
        && s.slots[i].version <= s'.slots[i].version
        && s.slots[i].sequence <= s'.slots[i].sequence
        && (s.slots[i].version == s'.slots[i].version && s.slots[i].version % 2 == 0 ==> s'.slots[i] == s.slots[i])
  {
  }

  /** Slots a step leaves alone stay settled. */
  lemma KeepOthers(s: Ring, s': Ring, i: nat)
    requires Shape(s) && Shape(s') && ProducerInv(s)
    requires s'.log == s.log && s'.capacity == s.capacity && s'.size == s.size
    requires forall j: nat :: j < s.capacity && j != i ==> s'.slots[j] == s.slots[j]
    requires Writing(s.p) ==> i == SlotIndex(s, s.p.h)
    ensures forall j: nat :: j < s.capacity && j != i ==> SlotSettled(s', j)
  {
    forall j: nat | j < s.capacity && j != i
      ensures SlotSettled(s', j)
    {
      assert SlotSettled(s, j);
    }
  }

  /** The sequence number a slot shows while push `h` is being written into it. */
  lemma SequenceBeforeStore(s: Ring)
    requires Shape(s) && s.p.h == |s.log| && SlotSettled(s, SlotIndex(s, s.p.h))
    ensures s.slots[SlotIndex(s, s.p.h)].sequence ==
            if s.p.h >= s.capacity then s.p.h - s.capacity + 1 else s.p.h
  {
    LastWriteBefore(s.p.h, s.capacity);
    if s.p.h < s.capacity {
      SmallIndex(s.p.h, s.capacity);
    }
  }

  lemma SmallIndex(h: nat, capacity: nat)
    requires h < capacity
    ensures h % capacity == h
  {
  }

  lemma RaisedSlotInFlight(s: Ring)
    requires Shape(s) && s.p.pc == PRaiseVersion
    requires s.slots[SlotIndex(s, s.p.h)].version % 2 == 0
    requires s.slots[SlotIndex(s, s.p.h)].sequence ==
             if s.p.h >= s.capacity then s.p.h - s.capacity + 1 else s.p.h
    ensures SlotInFlight(ProducerStep(s))
  {
    var s' := ProducerStep(s);
    var i := SlotIndex(s, s.p.h);
    assert s'.slots[i] == s.slots[i].(version := s.slots[i].version + 1);
    assert SlotIndex(s', s'.p.h) == i;
    assert s'.slots[i].words[..0] == Pack(s.p.item)[..0];
  }

  lemma OthersKeepLastWrite(s: Ring, s': Ring, j: nat)
    requires Shape(s) && Shape(s') && s'.capacity == s.capacity && s'.size == s.size && j < s.capacity
    requires s'.log == s.log + [s.p.item] && |s.log| % s.capacity != j
    requires s'.slots[j] == s.slots[j] && SlotSettled(s, j)
    ensures SlotSettled(s', j)
  {
    assert LastWrite(j, |s'.log|, s.capacity) == LastWrite(j, |s.log|, s.capacity);
  }

  lemma ProducerRaisesVersion(s: Ring)
    requires Shape(s) && ProducerInv(s) && s.p.pc == PRaiseVersion
    ensures ProducerInv(ProducerStep(s))
  {
    var s' := ProducerStep(s);
    assert SlotSettled(s, SlotIndex(s, s.p.h));
    SequenceBeforeStore(s);
    RaisedSlotInFlight(s);
    forall j: nat | j < s.capacity && j != SlotIndex(s, s.p.h)
      ensures SlotSettled(s', j)
    {
      OthersKeepLastWrite(s, s', j);
    }
  }

  lemma ProducerStoresWord(s: Ring)
    requires Shape(s) && ProducerInv(s) && s.p.pc == PStoreWord
    ensures ProducerInv(ProducerStep(s))
  {
    var s' := ProducerStep(s);
    var i := SlotIndex(s, s.p.h);
    assert SlotInFlight(s);
    assert s'.slots[i].words[..s.p.k + 1] == s.slots[i].words[..s.p.k] + [PackWord(s.p.item, s.p.k)];
    assert Pack(s.p.item)[..s.p.k + 1] == Pack(s.p.item)[..s.p.k] + [PackWord(s.p.item, s.p.k)];
    assert SlotInFlight(s');
    KeepOthers(s, s', i);
  }

  lemma ProducerStoresSequence(s: Ring)
    requires Shape(s) && ProducerInv(s) && s.p.pc == PStoreSequence
    ensures ProducerInv(ProducerStep(s))
  {
    assert SlotInFlight(s);
    assert SlotInFlight(ProducerStep(s));
    KeepOthers(s, ProducerStep(s), SlotIndex(s, s.p.h));
  }

  /** Lowering the version settles the slot with the new item. */
  lemma LoweredSlotSettled(s: Ring)
    requires Shape(s) && ProducerInv(s) && s.p.pc == PLowerVersion
    ensures SlotSettled(ProducerStep(s), SlotIndex(s, s.p.h))
  {
    var i := SlotIndex(s, s.p.h);
    assert SlotInFlight(s);
    assert s.slots[i].words == s.slots[i].words[..WordCount(s.size)];
    assert Pack(s.p.item) == Pack(s.p.item)[..WordCount(s.size)];
    assert LastWrite(i, |s.log|, s.capacity) == s.p.h;
  }

  lemma ProducerLowersVersion(s: Ring)
    requires Shape(s) && ProducerInv(s) && s.p.pc == PLowerVersion
    ensures ProducerInv(ProducerStep(s))
  {
    LoweredSlotSettled(s);
    KeepOthers(s, ProducerStep(s), SlotIndex(s, s.p.h));
  }

  /** Steps that touch no slot and end outside the writing phase. */
  lemma ProducerMovesOn(s: Ring, s': Ring)
    requires Shape(s) && ProducerInv(s) && Shape(s')
    requires s'.slots == s.slots && s'.log == s.log && s'.capacity == s.capacity && s'.size == s.size
    requires s'.p == s.p || (!Writing(s.p) && !Writing(s'.p))
    ensures SlotsInv(s')
  {
    forall i: nat | i < s.capacity && !(Writing(s'.p) && i == SlotIndex(s', s'.p.h))
      ensures SlotSettled(s', i)
    {
      assert SlotSettled(s, i);
    }
  }

  lemma ProducerOtherSteps(s: Ring)
    requires Shape(s) && ProducerInv(s)
    requires s.p.pc !in {PRaiseVersion, PStoreWord, PStoreSequence, PLowerVersion}
    ensures ProducerInv(ProducerStep(s))
  {
    hide SlotsInv;
    ProducerMovesOn(s, ProducerStep(s));
  }

  lemma ProducerKeepsProducerInv(s: Ring)
    requires Shape(s) && ProducerInv(s)
    ensures ProducerInv(ProducerStep(s))
  {
    hide ProducerStep, ProducerInv;
    match s.p.pc
    case PRaiseVersion => ProducerRaisesVersion(s);
    case PStoreWord => ProducerStoresWord(s);
    case PStoreSequence => ProducerStoresSequence(s);
    case PLowerVersion => ProducerLowersVersion(s);
    case _ => ProducerOtherSteps(s);
  }

  lemma ConsumerPlace(s: Ring)
    requires Shape(s) && ConsumerInv(s)
    ensures s.tail <= s.head
    ensures s.c.pc !in {CIdle, CLoadTail, CLoadHead, CStoreBoundary} ==> s.c.ct < s.head
  {
  }

  /** What the consumer relies on while others move: its slot either stands still or is being given away. */
  lemma ConsumerInvFrame(s: Ring, s': Ring, i: nat)
    requires Shape(s) && Shape(s') && ConsumerInv(s) && i == SlotIndex(s, s.c.ct)
    requires s'.c == s.c && s'.tail == s.tail && s'.capacity == s.capacity && s'.size == s.size
    requires s.head <= s'.head && |s.log| <= |s'.log| && s'.log[..|s.log|] == s.log
    requires s.slots[i].version <= s'.slots[i].version && s.slots[i].sequence <= s'.slots[i].sequence
    requires s'.slots[i].version == s.slots[i].version && s.slots[i].version % 2 == 0 ==> s'.slots[i] == s.slots[i]
    requires s'.slots[i].version != s.slots[i].version && s.c.pc in {CLoadSequence, CLoadWord, CReloadSequence, CReloadVersion}
      ==> s.c.ct + s.capacity < |s'.log|
    ensures ConsumerInv(s')
  {
    if s.c.pc == CCommit {
      assert s'.log[..|s.log|][s.c.ct] == s.log[s.c.ct];
    }
  }

  lemma EvenUnlessWriting(s: Ring, i: nat)
    requires Shape(s) && SlotsInv(s) && i < s.capacity
    ensures s.slots[i].version % 2 == 0 || (Writing(s.p) && i == SlotIndex(s, s.p.h))
  {
    if !(Writing(s.p) && i == SlotIndex(s, s.p.h)) {
      assert SlotSettled(s, i);
    }
  }

  /** The producer can touch the slot of index `j < head` only for a push a capacity or more later. */
  lemma TouchedMeansTakenOver(s: Ring, j: nat)
    requires Shape(s) && ProducerPlace(s) && j < s.head
    requires ProducerStep(s).slots[SlotIndex(s, j)].version != s.slots[SlotIndex(s, j)].version
    ensures j + s.capacity < |ProducerStep(s).log|
  {
    SameSlotApart(j, s.head, s.capacity);
  }

  lemma ProducerKeepsConsumerInv(s: Ring)
    requires Shape(s) && ProducerInv(s) && ConsumerInv(s)
    ensures ConsumerInv(ProducerStep(s))
  {
    hide SlotsInv, ConsumerInv;
    assert s.c.pc in {CLoadSequence, CLoadWord, CReloadSequence, CReloadVersion} ==> s.c.ct < s.head by {
      ConsumerPlace(s);
    }
    var s' := ProducerStep(s);
    ProducerSlots(s);
    var i := SlotIndex(s, s.c.ct);
    if s.c.pc in {CLoadSequence, CLoadWord, CReloadSequence, CReloadVersion} && s'.slots[i].version != s.slots[i].version {
      TouchedMeansTakenOver(s, s.c.ct);
    }
    ConsumerInvFrame(s, s', i);
  }

  /** A step that does not move the tail and lets sequence numbers only grow keeps the histories. */
  lemma HistoryKept(s: Ring, s': Ring)
    requires Shape(s) && Shape(s') && DeliveriesInv(s) && LossInv(s)
    requires s'.capacity == s.capacity && s'.tail == s.tail && s'.popped == s.popped
    requires |s.log| <= |s'.log| && s'.log[..|s.log|] == s.log
    requires forall i: nat :: i < s.capacity ==> s.slots[i].sequence <= s'.slots[i].sequence
    ensures DeliveriesInv(s') && LossInv(s')
  {
    forall j: nat | j < s'.tail
      ensures Delivered(s', j) || Overwritten(s', j)
    {
      assert Delivered(s, j) || Overwritten(s, j);
      if Delivered(s, j) {
        var d :| 0 <= d < |s.popped| && s.popped[d].index == j;
        assert s'.popped[d].index == j;
      }
    }
    forall d | 0 <= d < |s'.popped|
      ensures s'.popped[d].item == s'.log[s'.popped[d].index]
    {
      assert s'.log[..|s.log|][s.popped[d].index] == s.log[s.popped[d].index];
    }
  }

  lemma ProducerKeepsRest(s: Ring)
    requires Shape(s) && ProducerInv(s) && DeliveriesInv(s) && LossInv(s) && RetryInv(s)
    ensures DeliveriesInv(ProducerStep(s)) && LossInv(ProducerStep(s)) && RetryInv(ProducerStep(s))
  {
    hide SlotsInv, DeliveriesInv, LossInv;
    ProducerSlots(s);
    HistoryKept(s, ProducerStep(s));
  }

  lemma ConsumerLoadsSequence(s: Ring)
    requires Shape(s) && ProducerInv(s) && ConsumerInv(s) && s.c.pc == CLoadSequence
    ensures ConsumerInv(ConsumerStep(s))
  {
    PublishedSequence(s, s.c.ct);
  }

  lemma ConsumerLoadsWord(s: Ring)
    requires Shape(s) && ConsumerInv(s) && s.c.pc == CLoadWord
    ensures ConsumerInv(ConsumerStep(s))
  {
    var slot := s.slots[SlotIndex(s, s.c.ct)];
    var n := |s.c.words|;
    assert slot.words[..n + 1] == slot.words[..n] + [slot.words[n]];
  }

  /** The final version check: what was read word by word is the item of this very index. */
  lemma ConsumerChecksVersion(s: Ring)
    requires Shape(s) && ProducerInv(s) && ConsumerInv(s) && s.c.pc == CReloadVersion
    ensures ConsumerInv(ConsumerStep(s))
  {
    var slot := s.slots[SlotIndex(s, s.c.ct)];
    if s.c.v1 == slot.version {
      SettledHolds(s, s.c.ct);
      assert slot.words[..|s.c.words|] == slot.words;
    }
  }

  lemma ConsumerOtherSteps(s: Ring)
    requires Shape(s) && ConsumerInv(s) && s.c.pc !in {CLoadSequence, CLoadWord, CReloadVersion}
    ensures ConsumerInv(ConsumerStep(s))
  {
  }

  lemma ConsumerLeavesProducer(s: Ring)
    requires Shape(s) && ProducerInv(s)
    ensures ProducerInv(ConsumerStep(s))
  {
    hide SlotsInv;
    ProducerMovesOn(s, ConsumerStep(s));
  }

  lemma ConsumerKeepsConsumerInv(s: Ring)
    requires Shape(s) && ProducerInv(s) && ConsumerInv(s)
    ensures ProducerInv(ConsumerStep(s)) && ConsumerInv(ConsumerStep(s))
  {
    ConsumerLeavesProducer(s);
    hide ConsumerStep, ProducerInv, ConsumerInv;
    match s.c.pc
    case CLoadSequence => ConsumerLoadsSequence(s);
    case CLoadWord => ConsumerLoadsWord(s);
    case CReloadVersion => ConsumerChecksVersion(s);
    case _ => ConsumerOtherSteps(s);
  }

  /** The boundary jump passes only overwritten indices. */
  lemma BoundaryPassesOverwritten(s: Ring)
    requires Shape(s) && ProducerInv(s) && ConsumerInv(s) && s.c.pc == CStoreBoundary
    ensures var s' := ConsumerStep(s);
      s.tail < s'.tail && forall j: nat :: s.tail <= j < s'.tail ==> Overwritten(s', j)
  {
    forall j: nat | s.tail <= j < Oldest(s.c.h, s.capacity)
      ensures Overwritten(ConsumerStep(s), j)
    {
      OldIsOverwritten(s, j);
      assert ConsumerStep(s).slots == s.slots;
    }
  }

  lemma CommitDelivers(s: Ring)
    requires Shape(s) && ConsumerInv(s) && s.c.pc == CCommit && |s.log[s.tail]| == s.size
    ensures var s' := ConsumerStep(s);
      s'.tail == s.tail + 1 && s.tail < |s.log| && s'.popped == s.popped + [Delivery(s.tail, s.log[s.tail])]
  {
    UnpackPack(s.log[s.c.ct]);
  }

  /** Each consumer step that moves the tail either delivers the index it passes or passes only overwritten ones. */
  lemma ConsumerSkipsOnlyOverwritten(s: Ring)
    requires Shape(s) && ProducerInv(s) && ConsumerInv(s)
    ensures var s' := ConsumerStep(s);
      && s.tail <= s'.tail
      && (s.c.pc == CCommit ==>
            s'.tail == s.tail + 1 && s.tail < |s.log| && s'.popped == s.popped + [Delivery(s.tail, s.log[s.tail])])
      && (s.c.pc != CCommit ==>
            s'.popped == s.popped && forall j: nat :: s.tail <= j < s'.tail ==> Overwritten(s', j))
  {
    match s.c.pc
    case CStoreBoundary => BoundaryPassesOverwritten(s);
    case CCommit => CommitDelivers(s);
    case _ =>
  }

  /** How the histories grow when the tail moves. */
  lemma HistoryGrows(s: Ring, s': Ring)
    requires Shape(s) && Shape(s') && DeliveriesInv(s) && LossInv(s)
    requires s'.capacity == s.capacity && s'.slots == s.slots && s'.log == s.log && s.tail <= s'.tail
    requires (s'.popped == s.popped && forall j: nat :: s.tail <= j < s'.tail ==> Overwritten(s', j))
          || (s'.tail == s.tail + 1 && s.tail < |s.log| && s'.popped == s.popped + [Delivery(s.tail, s.log[s.tail])])
    ensures DeliveriesInv(s') && LossInv(s')
  {
    forall j: nat | j < s'.tail
      ensures Delivered(s', j) || Overwritten(s', j)
    {
      if j < s.tail {
        assert Delivered(s, j) || Overwritten(s, j);
        if Delivered(s, j) {
          var d :| 0 <= d < |s.popped| && s.popped[d].index == j;
          assert s'.popped[d].index == j;
        }
      } else if s'.popped != s.popped {
        assert s'.popped[|s.popped|].index == j;
      }
    }
  }

  lemma ConsumerKeepsHistory(s: Ring)
    requires Shape(s) && ProducerInv(s) && ConsumerInv(s) && DeliveriesInv(s) && LossInv(s)
    ensures DeliveriesInv(ConsumerStep(s)) && LossInv(ConsumerStep(s))
  {
    ConsumerSkipsOnlyOverwritten(s);
    HistoryGrows(s, ConsumerStep(s));
  }

  /** A skipped index lies a full capacity below a push that already stored its sequence number. */
  lemma SkipIsPaidFor(s: Ring)
    requires Shape(s) && ProducerInv(s) && ConsumerInv(s) && s.c.pc == CSkip
    ensures s.c.ct + s.capacity < |s.log| && Oldest(s.c.h, s.capacity) <= s.c.ct == s.tail && s.c.ct < s.c.h <= s.head
  {
    PublishedSequence(s, s.c.ct);
  }

  lemma ConsumerKeepsRetryInv(s: Ring)
    requires Shape(s) && RetryInv(s)
    requires s.c.pc == CSkip ==> s.c.ct + s.capacity < |s.log| && Oldest(s.c.h, s.capacity) <= s.c.ct == s.tail
    requires s.c.pc == CCommit ==> s.c.ct == s.tail < |s.log|
    requires s.c.pc == CStoreBoundary ==> s.tail < Oldest(s.c.h, s.capacity)
    ensures RetryInv(ConsumerStep(s))
  {
  }

  lemma PushKeepsInv(s: Ring, item: Item, lossless: bool)
    requires Inv(s)
    ensures Inv(Do(s, Push(item, lossless)))
  {
    hide SlotsInv, DeliveriesInv, LossInv;
    ProducerMovesOn(s, Do(s, Push(item, lossless)));
    HistoryKept(s, Do(s, Push(item, lossless)));
  }

  lemma ProduceKeepsInv(s: Ring)
    requires Inv(s)
    ensures Inv(ProducerStep(s))
  {
    hide ProducerStep, ProducerInv, ConsumerInv, DeliveriesInv, LossInv, RetryInv;
    ProducerKeepsProducerInv(s);
    ProducerKeepsConsumerInv(s);
    ProducerKeepsRest(s);
  }

  lemma ConsumeKeepsInv(s: Ring)
    requires Inv(s)
    ensures Inv(ConsumerStep(s))
  {
    ConsumerKeepsConsumerInv(s);
    ConsumerKeepsHistory(s);
    if s.c.pc == CSkip {
      SkipIsPaidFor(s);
    }
    ConsumerKeepsRetryInv(s);
  }

  lemma StepKeepsInv(s: Ring, a: Action)
    requires Inv(s)
    ensures Inv(Do(s, a))
  {
    hide Inv;
    match a
    case Push(item, lossless) => PushKeepsInv(s, item, lossless);
    case Produce => ProduceKeepsInv(s);
    case Consume => ConsumeKeepsInv(s);
  }

  lemma {:induction false} RunKeepsInv(s: Ring, schedule: seq<Action>)
    requires Inv(s)
    ensures Inv(Run(s, schedule))
  {
    if schedule != [] {
      RunKeepsInv(s, schedule[..|schedule| - 1]);
      StepKeepsInv(Run(s, schedule[..|schedule| - 1]), schedule[|schedule| - 1]);
    }
  }
}
