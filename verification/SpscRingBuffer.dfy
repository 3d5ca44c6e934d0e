/** The ring buffer as an object over its slots, with calls running one at a time. */
module SpscRingBuffers {
  import opened Common
  import opened AtomicPayloads
  import opened SpscSafety

  /** Keeping the newest `capacity` items. */
  function PushNewest(q: seq<Item>, item: Item, capacity: nat): (q': seq<Item>)
    requires 0 < capacity && |q| <= capacity
    ensures |q'| == Min(|q| + 1, capacity) && q'[|q'| - 1] == item
    ensures q'[..|q'| - 1] == if |q| < capacity then q else q[1..]
  {
    if |q| < capacity then q + [item] else q[1..] + [item]
  }

  /** The window of live items after one more push, when nothing was popped in between. */
  lemma WindowAfterPush(log: seq<Item>, item: Item, boundary: nat, boundary': nat, capacity: nat)
    requires 0 < capacity && boundary <= |log| <= boundary + capacity
    requires boundary' == if |log| == boundary + capacity then boundary + 1 else boundary
    ensures (log + [item])[boundary'..] == PushNewest(log[boundary..], item, capacity)
  {
    assert (log + [item])[boundary'..] == log[boundary'..] + [item];
  }

  /** What a pop made of the slot it looked at: being written, already overwritten, or read. */
  datatype ReadResult = Busy | Stale | Got(item: Item)

  class Slot {
    const payload: AtomicPayload
    var sequence: nat
    var writeVersion: nat

    constructor (size: nat, initialSequence: nat)
      ensures payload.Valid() && payload.size == size && fresh(payload.words)
      ensures sequence == initialSequence && writeVersion == 0
    {
      payload := new AtomicPayload(size);
      sequence := initialSequence;
      writeVersion := 0;
    }

    /** Write under the slot's sequence lock. */
    method Write(item: Item, newSequence: nat)
      requires payload.Valid() && |item| == payload.size
      modifies this, payload.words
      ensures payload.words[..] == Pack(item) && sequence == newSequence && writeVersion == old(writeVersion) + 2
    {
      writeVersion := writeVersion + 1;
      payload.Store(item);
      sequence := newSequence;
      writeVersion := writeVersion + 1;
    }

    /** Read under the sequence lock: succeeds exactly on an idle slot that shows the expected number. */
    method TryRead(expectedSequence: nat) returns (r: Option<Item>)
      requires payload.Valid()
      ensures r.Some? <==> writeVersion % 2 == 0 && sequence == expectedSequence
      ensures forall item: Item :: r.Some? && |item| == payload.size && payload.words[..] == Pack(item) ==> r.value == item
    {
      var v1 := writeVersion;
      if v1 % 2 != 0 {
        return None;
      }
      var s1 := sequence;
      if s1 != expectedSequence {
        return None;
      }
      var item := payload.Load();
      var s2 := sequence;
      var v2 := writeVersion;
      if v1 != v2 || s1 != s2 {
        return None;
      }
      return Some(item);
    }
  }

  class SpscRingBuffer {
    const capacity: nat
    const size: nat
    const buffer: seq<Slot>
    var head: nat
    var tail: nat
    var cumulativeDropCount: nat

    // Histories: every item pushed, how many were popped, and how many items a lossless push
    // overwrote because the ring was already more than a capacity behind.
    ghost var log: seq<Item>
    ghost var delivered: nat
    ghost var uncounted: nat

    /** The slots and their word arrays. */
    ghost const repr: set<object>

    /** The slots are there, distinct, and of the right size; nothing is said of what they hold. */
    ghost predicate Shape()
      reads this`head, this`tail
    {
      && 0 < capacity
      && |buffer| == capacity
      && tail <= head
      && this !in repr
      && (forall i :: 0 <= i < capacity ==>
            && buffer[i] in repr && buffer[i].payload.words in repr
            && buffer[i].payload.Valid() && buffer[i].payload.size == size)
      && (forall i, j :: 0 <= i < j < capacity ==>
            buffer[i] != buffer[j] && buffer[i].payload.words != buffer[j].payload.words)
    }

    /** The slot of index `j` is idle and holds item `j`. */
    ghost predicate Holds(j: nat)
      requires Shape() && j < |log|
      reads this`head, this`tail, this`log, repr
    {
      var slot := buffer[j % capacity];
      slot.writeVersion % 2 == 0 && slot.sequence == j + 1 && |log[j]| == size && slot.payload.words[..] == Pack(log[j])
    }

    ghost predicate HoldsLive()
      reads this`head, this`tail, this`log, repr
      ensures HoldsLive() ==> this !in repr && 0 < capacity && Boundary() <= head == |log|
    {
      && Shape() && head == |log|
      && (forall i :: 0 <= i < capacity ==> buffer[i].writeVersion % 2 == 0)
      && (forall j: nat :: Boundary() <= j < head ==> Holds(j))
    }

    ghost predicate Valid()
      reads this, repr
    {
      HoldsLive() && delivered + cumulativeDropCount + uncounted == Boundary()
    }

    /** The oldest index still in the ring. */
    ghost function Boundary(): nat
      reads this`head, this`tail
    {
      Max(tail, if head > capacity then head - capacity else 0)
    }

    /** The items in the ring, oldest first. */
    ghost function Contents(): (q: seq<Item>)
      reads this`head, this`tail, this`log
      ensures Boundary() <= head <= |log| ==> |q| == head - Boundary() <= capacity
    {
      if Boundary() <= head <= |log| then log[Boundary()..head] else []
    }

    constructor (capacity: nat, size: nat)
      requires 0 < capacity
      ensures Valid() && Contents() == [] && this.capacity == capacity && this.size == size
      ensures fresh(repr)
      ensures forall i :: 0 <= i < capacity ==> buffer[i].sequence == i && buffer[i].writeVersion == 0
      ensures log == [] && head == tail == delivered == cumulativeDropCount == uncounted == 0
    {
      var slots: seq<Slot> := [];
      ghost var objects: set<object> := {};
      var i := 0;
      while i < capacity
        invariant 0 <= i <= capacity && |slots| == i
        invariant fresh(objects)
        invariant forall k :: 0 <= k < i ==> slots[k] in objects && slots[k].payload.words in objects
        invariant forall k :: 0 <= k < i ==> slots[k].payload.Valid() && slots[k].payload.size == size
        invariant forall k :: 0 <= k < i ==> slots[k].writeVersion == 0 && slots[k].sequence == k
        invariant forall k, l :: 0 <= k < l < i ==> slots[k] != slots[l] && slots[k].payload.words != slots[l].payload.words
      {
        var slot := new Slot(size, i);
        slots := slots + [slot];
        objects := objects + {slot, slot.payload.words};
        i := i + 1;
      }
      this.capacity := capacity;
      this.size := size;
      buffer := slots;
      repr := objects;
      head, tail, cumulativeDropCount := 0, 0, 0;
      log, delivered, uncounted := [], 0, 0;
    }

    /** An index other than the one just published keeps its slot. */
    twostate lemma OtherHeld(j: nat)
      requires old(HoldsLive()) && Shape() && old(Boundary()) <= j < old(head) < j + capacity
      requires |log| > old(head) && log[j] == old(log[j])
      requires var slot := buffer[j % capacity]; unchanged(slot) && unchanged(slot.payload.words)
      ensures Holds(j)
    {
      assert old(Holds(j));
    }

    /** Writing the next slot and moving the head keeps every live slot. */
    twostate lemma PublishedKeepsLive(item: Item)
      requires old(HoldsLive()) && Shape()
      requires head == old(head) + 1 && tail == old(tail) && log == old(log) + [item] && |item| == size
      requires var slot := buffer[old(head) % capacity];
        slot.writeVersion % 2 == 0 && slot.sequence == head && slot.payload.words[..] == Pack(item)
      requires forall k :: 0 <= k < capacity && k != old(head) % capacity ==>
        unchanged(buffer[k]) && unchanged(buffer[k].payload.words)
      ensures HoldsLive()
    {
      hide Pack;
      forall j: nat | Boundary() <= j < old(head)
        ensures Holds(j)
      {
        hide HoldsLive, Holds;
        if j % capacity == old(head) % capacity {
          SameSlotApart(j, old(head), capacity);
        }
        OtherHeld(j);
      }
      assert Holds(old(head));
      hide Holds;
    }

    /** What both pushes share: the next slot is written and the head published. */
    method Publish(item: Item)
      requires Valid() && |item| == size
      modifies this`head, this`log, repr
      ensures HoldsLive() && head == old(head) + 1 && log == old(log) + [item]
    {
      var h := head;
      var i := h % capacity;
      assert buffer[i].writeVersion % 2 == 0;
      hide HoldsLive, Pack;
      buffer[i].Write(item, h + 1);
      head := h + 1;
      log := log + [item];
      PublishedKeepsLive(item);
    }

    /** The contents after one more item was published. */
    twostate lemma ContentsAfterPublish(item: Item)
      requires 0 < capacity && old(Boundary() <= head == |log|) && tail == old(tail)
      requires head == old(head) + 1 && log == old(log) + [item]
      ensures Contents() == PushNewest(old(Contents()), item, capacity)
    {
      WindowAfterPush(old(log), item, old(Boundary()), Boundary(), capacity);
      assert log[Boundary()..head] == log[Boundary()..];
      assert old(log[Boundary()..head]) == old(log[Boundary()..]);
    }

    /** Lossless push: refused exactly when the consumer is `capacity` behind. */
    method TryPush(item: Item) returns (ok: bool)
      requires Valid() && |item| == size
      modifies this, repr
      ensures Valid() && tail == old(tail) && cumulativeDropCount == old(cumulativeDropCount) && delivered == old(delivered)
      ensures ok <==> old(head) - old(tail) != capacity
      ensures Contents() == if ok then PushNewest(old(Contents()), item, capacity) else old(Contents())
      ensures log == if ok then old(log) + [item] else old(log)
      ensures uncounted == old(uncounted) + if old(head) - old(tail) > capacity then 1 else 0
    {
      hide HoldsLive;
      var h := head;
      var ct := tail;
      if h - ct == capacity {
        return false;
      }
      Publish(item);
      ContentsAfterPublish(item);
      if h - ct > capacity {
        uncounted := uncounted + 1;
      }
      return true;
    }

    /** Overwriting push: never refused, and counts a drop exactly when the ring was full. */
    method TryPushDropOldest(item: Item) returns (ok: bool)
      requires Valid() && |item| == size
      modifies this, repr
      ensures Valid() && tail == old(tail) && delivered == old(delivered) && uncounted == old(uncounted)
      ensures ok && log == old(log) + [item]
      ensures Contents() == PushNewest(old(Contents()), item, capacity)
      ensures cumulativeDropCount == old(cumulativeDropCount) + if |old(Contents())| == capacity then 1 else 0
    {
      hide HoldsLive;
      var h := head;
      Publish(item);
      ContentsAfterPublish(item);
      if h - tail >= capacity {
        cumulativeDropCount := cumulativeDropCount + 1;
      }
      return true;
    }

    /** The slot of the oldest index is idle, shows its number, and holds its item. */
    lemma OldestHeld()
      requires HoldsLive() && Boundary() < head
      ensures Shape()
      ensures var slot := buffer[Boundary() % capacity];
        && slot.writeVersion % 2 == 0 && slot.sequence == Boundary() + 1
        && |log[Boundary()]| == size && slot.payload.words[..] == Pack(log[Boundary()])
    {
      assert Holds(Boundary());
    }

    /** Moving the tail within the head keeps every live slot. */
    twostate lemma TailAdvanced()
      requires old(HoldsLive()) && unchanged(repr)
      requires head == old(head) && log == old(log) && old(tail) <= tail <= head
      ensures HoldsLive()
    {
      assert Shape();
      forall j: nat | Boundary() <= j < head
        ensures Holds(j)
      {
        assert old(Holds(j));
      }
    }

    /** The part of a pop between the boundary check and the final store of the tail. */
    method ReadSlot(ct: nat) returns (r: ReadResult)
      requires Shape()
      ensures HoldsLive() && ct == Boundary() < head ==> r == Got(log[ct])
    {
      if HoldsLive() && ct == Boundary() < head {
        OldestHeld();
      }
      var i := ct % capacity;
      var v1 := buffer[i].writeVersion;
      if v1 % 2 != 0 {
        return Busy;
      }
      var s1 := buffer[i].sequence;
      if s1 != ct + 1 {
        return Stale;
      }
      var item := buffer[i].payload.Load();
      var s2 := buffer[i].sequence;
      var v2 := buffer[i].writeVersion;
      if v1 != v2 || s1 != s2 {
        return Busy;
      }
      return Got(item);
    }

    /**
     Pop.  It ends whatever the slots hold, moving the tail forward within the head; on a ring
     left by whole calls it returns the oldest item, and fails exactly on the empty ring.
     */
    method TryPop() returns (r: Option<Item>)
      requires Shape()
      modifies this`tail, this`delivered
      ensures Shape() && old(tail) <= tail
      ensures old(Valid()) ==>
        && Valid()
        && (r.None? <==> old(Contents()) == [])
        && (r.None? ==> Contents() == [] && delivered == old(delivered))
        && (r.Some? ==> r.value == old(Contents())[0] && Contents() == old(Contents())[1..] && delivered == old(delivered) + 1)
    {
      hide HoldsLive;
      while true
        invariant Shape() && old(tail) <= tail && delivered == old(delivered)
        invariant old(Valid()) ==> tail == old(tail)
        decreases head - tail
      {
        var ct := tail;
        var h := head;
        var hMinusCap := if h > capacity then h - capacity else 0;
        var logicalDropBoundary := if ct > hMinusCap then ct else hMinusCap;
        if ct < logicalDropBoundary {
          tail := logicalDropBoundary;
          ct := logicalDropBoundary;
        }
        if old(Valid()) {
          TailAdvanced();
        }
        if ct >= h {
          return None;
        }
        var read := ReadSlot(ct);
        match read
        case Busy => return None;
        case Stale => tail := ct + 1;
        case Got(item) =>
          tail := ct + 1;
          delivered := delivered + 1;
          if old(Valid()) {
            TailAdvanced();
            assert Boundary() == old(Boundary()) + 1;
            assert old(log[Boundary()..head])[1..] == log[Boundary()..head];
          }
          return Some(item);
      }
    }

    method LogicalDropBoundaryValue() returns (r: nat)
      requires Valid()
      ensures r == head - |Contents()|
      ensures delivered + cumulativeDropCount + uncounted == r
    {
      var h := head;
      var t := tail;
      var hMinusCap := if h > capacity then h - capacity else 0;
      r := if t > hMinusCap then t else hMinusCap;
    }

    /** How many items have been overwritten that the consumer has not yet skipped. */
    method PendingDroppedValue() returns (r: nat)
      requires Valid()
      ensures r == Max(0, head - tail - capacity)
    {
      var ldb := LogicalDropBoundaryValue();
      var t := tail;
      r := if ldb > t then ldb - t else 0;
    }

    method IsEmpty() returns (r: bool)
      requires Valid()
      ensures r <==> Contents() == []
    {
      r := head == tail;
    }

    /** The debug self-checks hold after every whole call. */
    method ValidateAllInvariants() returns (ok: bool)
      requires Valid()
      ensures ok
    {
      var ldb := LogicalDropBoundaryValue();
      var pending := PendingDroppedValue();
      var hMinusCap := if head > capacity then head - capacity else 0;
      var expected := if tail > hMinusCap then tail else hMinusCap;
      var inv1 := tail <= head;
      var inv2 := head - ldb <= capacity;
      var inv6 := ldb == expected;
      var inv7a := pending == if head > tail + capacity then head - tail - capacity else 0;
      var interval := tail <= ldb <= head && head - ldb <= capacity;
      ok := inv1 && inv2 && inv6 && inv7a && interval;
    }

    /** Conservation: as long as pushes are not mixed on an over-full ring, every item pushed is
        popped, counted as dropped, or still in the ring. */
    lemma Conservation()
      requires Valid()
      ensures |log| == delivered + cumulativeDropCount + uncounted + |Contents()|
    {
    }
  }

  /**
   The uncounted overwriting is reachable: two overwriting pushes on a ring of one slot and then a
   lossless push, which is accepted and destroys an item that no counter shows.
   */
  method OverwriteUncounted(a: Item, b: Item, c: Item) returns (ring: SpscRingBuffer, ok: bool)
    requires |a| == |b| == |c|
    ensures fresh(ring) && fresh(ring.repr) && ring.Valid() && ring.capacity == 1
    ensures ok && ring.log == [a, b, c] && ring.Contents() == [c]
    ensures ring.delivered == 0 && ring.cumulativeDropCount == 1 && ring.uncounted == 1
  {
    hide SpscRingBuffer.HoldsLive, SpscRingBuffer.Contents, PushNewest;
    ring := new SpscRingBuffer(1, |a|);
    NewestOfOne([], a);
    var _ := ring.TryPushDropOldest(a);
    NewestOfOne([a], b);
    var _ := ring.TryPushDropOldest(b);
    NewestOfOne([b], c);
    ok := ring.TryPush(c);
  }

  lemma NewestOfOne(q: seq<Item>, item: Item)
    requires |q| <= 1
    ensures PushNewest(q, item, 1) == [item]
  {
  }
}
