/**
 The ring buffer as a concurrent protocol: one producer thread, one consumer thread, and every
 load, store or fetch-and-add of a shared atomic is one step.  A schedule is an arbitrary
 interleaving of such steps.
 */
module SpscProtocol {
  import opened Common
  import opened AtomicPayloads

  datatype Slot = Slot(words: seq<Word>, sequence: nat, version: nat)

  /** Each constructor names the next shared access (`PIdle`: between two calls). */
  datatype ProducerPc =
    | PIdle | PLoadHead | PLoadTail | PRaiseVersion | PStoreWord | PStoreSequence
    | PLowerVersion | PPublishHead | PSampleTail | PCountDrop

  /** `lossless` tells which of the two push operations is running. */
  datatype Producer = Producer(pc: ProducerPc, item: Item, lossless: bool, h: nat, k: nat)

  datatype ConsumerPc =
    | CIdle | CLoadTail | CLoadHead | CStoreBoundary | CLoadVersion | CLoadSequence
    | CSkip | CLoadWord | CReloadSequence | CReloadVersion | CCommit

  /** The locals of a pop; `firstHead` and `retries` only observe the call. */
  datatype Consumer = Consumer(
    pc: ConsumerPc, ct: nat, h: nat, v1: nat, s1: nat, s2: nat, words: seq<Word>,
    firstHead: Option<nat>, retries: nat)

  /** An item handed to the consumer, with the index the consumer took it from. */
  datatype Delivery = Delivery(index: nat, item: Item)

  /**
   The shared ring, the two threads, and three histories no step reads: `log` lists the items in
   the order their writing began, `popped` the deliveries, and `lossy` records whether any
   overwriting push was ever started.
   */
  datatype Ring = Ring(
    capacity: nat, size: nat,
    slots: seq<Slot>, head: nat, tail: nat, drops: nat,
    p: Producer, c: Consumer,
    log: seq<Item>, popped: seq<Delivery>, lossy: bool)

  /** One scheduling decision: begin a push, or let a thread perform its next shared access. */
  datatype Action = Push(item: Item, lossless: bool) | Produce | Consume

  /** What a step makes observable: the point at which an operation takes effect. */
  datatype Event =
    | Silent | Pushed(item: Item) | PushRefused
    | PopReturned(item: Item) | PopEmpty | PopBusy

  /** Subtraction of unsigned 64-bit values. */
  function WrapSub(a: int, b: int): (r: Word) {
    (a - b) % U64_SIZE
  }

  predicate Shape(s: Ring) {
    && 0 < s.capacity < U64_SIZE
    && 0 < s.size
    && |s.slots| == s.capacity
    && (forall i :: 0 <= i < s.capacity ==> |s.slots[i].words| == WordCount(s.size))
    && |s.p.item| == s.size
    && (s.p.pc == PStoreWord ==> s.p.k < WordCount(s.size))
    && (s.c.pc == CLoadWord ==> |s.c.words| < WordCount(s.size))
    && (s.c.pc in {CReloadSequence, CReloadVersion, CCommit} ==> |s.c.words| == WordCount(s.size))
  }

  function Init(capacity: nat, size: nat): (s: Ring)
    requires 0 < capacity < U64_SIZE && 0 < size
    ensures Shape(s)
  {
    var zeros := seq(WordCount(size), _ => 0);
    Ring(capacity, size,
         seq(capacity, i => Slot(zeros, if i < 0 then 0 else i, 0)), 0, 0, 0,
         Producer(PIdle, seq(size, _ => 0), true, 0, 0),
         Consumer(CIdle, 0, 0, 0, 0, 0, [], None, 0),
         [], [], false)
  }

  function SlotIndex(s: Ring, index: nat): (i: nat)
    requires Shape(s)
    ensures i < |s.slots|
  {
    index % s.capacity
  }

  /** The producer's next shared access, for both push operations. */
  function ProducerStep(s: Ring): (s': Ring)
    requires Shape(s)
    ensures Shape(s')
  {
    var p := s.p;
    var i := SlotIndex(s, p.h);
    var slot := s.slots[i];
    match p.pc
    case PIdle => s
    case PLoadHead =>
      s.(p := p.(h := s.head, pc := if p.lossless then PLoadTail else PRaiseVersion))
    case PLoadTail =>
      s.(p := p.(pc := if WrapSub(p.h, s.tail) == s.capacity then PIdle else PRaiseVersion))
    case PRaiseVersion =>
      s.(slots := s.slots[i := slot.(version := slot.version + 1)],
         log := s.log + [p.item],
         p := p.(k := 0, pc := PStoreWord))
    case PStoreWord =>
      s.(slots := s.slots[i := slot.(words := slot.words[p.k := PackWord(p.item, p.k)])],
         p := p.(k := p.k + 1, pc := if p.k + 1 < WordCount(s.size) then PStoreWord else PStoreSequence))
    case PStoreSequence =>
      s.(slots := s.slots[i := slot.(sequence := p.h + 1)], p := p.(pc := PLowerVersion))
    case PLowerVersion =>
      s.(slots := s.slots[i := slot.(version := slot.version + 1)], p := p.(pc := PPublishHead))
    case PPublishHead =>
      s.(head := p.h + 1, p := p.(pc := if p.lossless then PIdle else PSampleTail))
    case PSampleTail =>
      s.(p := p.(pc := if WrapSub(p.h, s.tail) >= s.capacity then PCountDrop else PIdle))
    case PCountDrop =>
      s.(drops := s.drops + 1, p := p.(pc := PIdle))
  }

  /** The oldest index that can still be in the ring when `h` items have been published. */
  function Oldest(h: nat, capacity: nat): nat {
    if h > capacity then h - capacity else 0
  }

  /** The consumer's next shared access; `CIdle` starts a new pop. */
  function ConsumerStep(s: Ring): (s': Ring)
    requires Shape(s)
    ensures Shape(s')
  {
    var c := s.c;
    var slot := s.slots[SlotIndex(s, c.ct)];
    match c.pc
    case CIdle => s.(c := c.(retries := 0, firstHead := None, pc := CLoadTail))
    case CLoadTail => s.(c := c.(ct := s.tail, pc := CLoadHead))
    case CLoadHead =>
      var c' := c.(h := s.head, firstHead := if c.firstHead.None? then Some(s.head) else c.firstHead);
      if c.ct < Oldest(s.head, s.capacity) then s.(c := c'.(pc := CStoreBoundary))
      else s.(c := c'.(pc := if c.ct >= s.head then CIdle else CLoadVersion))
    case CStoreBoundary =>
      var boundary := Oldest(c.h, s.capacity);
      s.(tail := boundary, c := c.(ct := boundary, pc := if boundary >= c.h then CIdle else CLoadVersion))
    case CLoadVersion =>
      s.(c := c.(v1 := slot.version, pc := if slot.version % 2 != 0 then CIdle else CLoadSequence))
    case CLoadSequence =>
      s.(c := c.(s1 := slot.sequence, words := [],
                 pc := if slot.sequence != c.ct + 1 then CSkip else CLoadWord))
    case CSkip =>
      s.(tail := c.ct + 1, c := c.(retries := c.retries + 1, pc := CLoadTail))
    case CLoadWord =>
      var words := c.words + [slot.words[|c.words|]];
      s.(c := c.(words := words, pc := if |words| < WordCount(s.size) then CLoadWord else CReloadSequence))
    case CReloadSequence => s.(c := c.(s2 := slot.sequence, pc := CReloadVersion))
    case CReloadVersion =>
      s.(c := c.(pc := if c.v1 != slot.version || c.s1 != c.s2 then CIdle else CCommit))
    case CCommit =>
      s.(tail := c.ct + 1, popped := s.popped + [Delivery(c.ct, Unpack(c.words, s.size))],
         c := c.(pc := CIdle))
  }

  /** One scheduling decision.  A push can only begin between two pushes, with an item of the right size. */
  function Do(s: Ring, a: Action): (s': Ring)
    requires Shape(s)
    ensures Shape(s')
  {
    match a
    case Push(item, lossless) =>
      if s.p.pc == PIdle && |item| == s.size
      then s.(p := Producer(PLoadHead, item, lossless, s.p.h, 0), lossy := s.lossy || !lossless)
      else s
    case Produce => ProducerStep(s)
    case Consume => ConsumerStep(s)
  }

  /** What the step `a` from `s` makes observable. */
  function EventOf(s: Ring, a: Action): Event
    requires Shape(s)
  {
    var slot := s.slots[SlotIndex(s, s.c.ct)];
    if a == Produce then
      if s.p.pc == PPublishHead then Pushed(s.p.item)
      else if s.p.pc == PLoadTail && WrapSub(s.p.h, s.tail) == s.capacity then PushRefused
      else Silent
    else if a == Consume then
      if s.c.pc == CLoadHead && s.c.ct >= Oldest(s.head, s.capacity) && s.c.ct >= s.head then PopEmpty
      else if s.c.pc == CStoreBoundary && Oldest(s.c.h, s.capacity) >= s.c.h then PopEmpty
      else if s.c.pc == CLoadVersion && slot.version % 2 != 0 then PopBusy
      else if s.c.pc == CReloadVersion && (s.c.v1 != slot.version || s.c.s1 != s.c.s2) then PopBusy
      else if s.c.pc == CCommit then PopReturned(Unpack(s.c.words, s.size))
      else Silent
    else Silent
  }

  /** The state a schedule leads to, and the events it shows on the way. */
  function Run(s: Ring, schedule: seq<Action>): (s': Ring)
    requires Shape(s)
    ensures Shape(s')
  {
    if schedule == [] then s else Do(Run(s, schedule[..|schedule| - 1]), schedule[|schedule| - 1])
  }

  function Trace(s: Ring, schedule: seq<Action>): seq<Event>
    requires Shape(s)
  {
    if schedule == [] then []
    else
      var n := |schedule| - 1;
      Trace(s, schedule[..n]) + [EventOf(Run(s, schedule[..n]), schedule[n])]
  }
}
