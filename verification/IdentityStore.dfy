/** The identity of a node: writing it to a file, reading it back, and recovering from a damaged file. */
module IdentityStore {
  import opened Common
  import opened TextStream

  datatype NodeId = NodeId(high: Word, low: Word) {
    predicate IsNull() {
      high == 0 && low == 0
    }
  }

  type Segment = n: nat | n < U32_SIZE

  datatype Topology = Topology(id: string, left: Option<NodeId>, right: Option<NodeId>, segment: Segment)

  /** `profile` stands for the fields no file holds: key, platform, capabilities, addresses. */
  datatype Identity = Identity(nodeId: NodeId, epoch: Word, topology: Option<Topology>, profile: seq<Byte>)

  datatype Error = SessUuidGenFail | SessPersistCorrupt | SessNodeidForge

  /** Fresh ids: two random words with the version and variant bits of a random UUID put in. */
  function Generated(high: Word, low: Word): (id: NodeId)
    ensures !id.IsNull()
  {
    var h := high / 0x10_0000_0000_0000 * 0x10_0000_0000_0000 + 0x4_0000_0000_0000 + high % 0x1_0000_0000_0000;
    var l := 0x8000_0000_0000_0000 + low % 0x4000_0000_0000_0000;
    NodeId(h, l)
  }

  /** Outside the version and the variant bits a fresh id is the random words, and those bits are 4 and 2. */
  lemma GeneratedBits(high: Word, low: Word)
    ensures var id := Generated(high, low);
      && id.high % 0x1_0000_0000_0000 == high % 0x1_0000_0000_0000
      && id.high / 0x1_0000_0000_0000 % 16 == 4
      && id.high / 0x10_0000_0000_0000 == high / 0x10_0000_0000_0000
      && id.low % 0x4000_0000_0000_0000 == low % 0x4000_0000_0000_0000
      && id.low / 0x4000_0000_0000_0000 == 2
  {
  }

  // ---- the file ----------------------------------------------------------------------------------

  function TopologyText(t: Option<Topology>): string {
    if t.None? then "0" + "\n"
    else "1" + (" " + (t.value.id + (" " + (Decimal(t.value.segment) + "\n"))))
  }

  /** What `persist` writes. */
  function Rendered(i: Identity): string {
    Decimal(i.nodeId.high) + (" " + (Decimal(i.nodeId.low) + ("\n" + (Decimal(i.epoch) + ("\n" + TopologyText(i.topology))))))
  }

  /** `load` may fail after it has already replaced part of the identity. */
  datatype Loaded = Loaded(error: Option<Error>, identity: Option<Identity>)

  function ReadTopology(base: Identity, text: string): Loaded {
    var id := ReadWord(text);
    if id.None? then Loaded(Some(SessPersistCorrupt), Some(base))
    else
      var segment := ReadUnsigned(id.value.rest, U32_SIZE);
      if segment.None? then Loaded(Some(SessPersistCorrupt), Some(base))
      else Loaded(None, Some(base.(topology := Some(Topology(id.value.value, None, None, segment.value.value)))))
  }

  /** `load`: what it makes of the identity in memory and of the file, if there is one. */
  function Load(identity: Option<Identity>, file: Option<string>): Loaded {
    var corrupt := Loaded(Some(SessPersistCorrupt), identity);
    if file.None? then corrupt
    else
      var high := ReadUnsigned(file.value, U64_SIZE);
      if high.None? then corrupt
      else
        var low := ReadUnsigned(high.value.rest, U64_SIZE);
        if low.None? then corrupt
        else
          var epoch := ReadUnsigned(low.value.rest, U64_SIZE);
          if epoch.None? then corrupt
          else
            var flag := ReadInt32(epoch.value.rest);
            if flag.None? then corrupt
            else
              var id := NodeId(high.value.value, low.value.value);
              if id.IsNull() then Loaded(Some(SessNodeidForge), identity)
              else
                var base := if identity.Some? then identity.value.(nodeId := id, epoch := epoch.value.value)
                            else Identity(id, epoch.value.value, None, []);
                if flag.value.value == 1 then ReadTopology(base, flag.value.rest)
                else Loaded(None, Some(base.(topology := None)))
  }

  // ---- round trip --------------------------------------------------------------------------------

  /** What a file can hold of an identity. */
  function Persistent(i: Identity): Identity {
    i.(topology := if i.topology.None? then None
                   else Some(Topology(i.topology.value.id, None, None, i.topology.value.segment)))
  }

  /** The identities that survive the file: a real id, and a topology name that is one word. */
  predicate Storable(i: Identity) {
    !i.nodeId.IsNull() && (i.topology.Some? ==> IsWord(i.topology.value.id))
  }

  lemma FlagRoundTrip(digit: string, rest: string)
    requires (digit == "0" || digit == "1") && Separated(rest)
    ensures ReadInt32("\n" + (digit + rest)) == Some(Extracted(if digit == "1" then 1 else 0, rest))
  {
    var n := if digit == "1" then 1 else 0;
    assert Decimal(n) == digit;
    MagnitudeOfDecimal(n, rest);
    LeadingSpace('\n', digit + rest);
  }

  /** The identity `load` starts from once the id and the epoch have been read. */
  function Base(before: Option<Identity>, id: NodeId, epoch: Word): Identity {
    if before.Some? then before.value.(nodeId := id, epoch := epoch) else Identity(id, epoch, None, [])
  }

  /** What `persist` writes after the flag. */
  function AfterFlag(t: Option<Topology>): string {
    if t.None? then "\n" else " " + (t.value.id + (" " + (Decimal(t.value.segment) + "\n")))
  }

  lemma ThreeNumbersRoundTrip(i: Identity, tail: string)
    requires Separated(tail)
    ensures var text := Decimal(i.nodeId.high) + (" " + (Decimal(i.nodeId.low) + ("\n" + (Decimal(i.epoch) + tail))));
      var high := ReadUnsigned(text, U64_SIZE);
      && high.Some? && high.value.value == i.nodeId.high
      && var low := ReadUnsigned(high.value.rest, U64_SIZE);
      && low.Some? && low.value.value == i.nodeId.low
      && ReadUnsigned(low.value.rest, U64_SIZE) == Some(Extracted(i.epoch as nat, tail))
  {
    hide ReadUnsigned, Decimal;
    var t2 := "\n" + (Decimal(i.epoch) + tail);
    var t1 := " " + (Decimal(i.nodeId.low) + t2);
    UnsignedRoundTrip(i.nodeId.high, U64_SIZE, t1);
    UnsignedRoundTrip(i.nodeId.low, U64_SIZE, t2);
    UnsignedRoundTrip(i.epoch, U64_SIZE, tail);
    assert t1 == [' '] + (Decimal(i.nodeId.low) + t2);
    assert t2 == ['\n'] + (Decimal(i.epoch) + tail);
  }

  /** The three numbers and the flag are read back, leaving what follows the flag. */
  lemma HeaderRoundTrip(i: Identity, before: Option<Identity>)
    ensures var base := Base(before, i.nodeId, i.epoch);
      Load(before, Some(Rendered(i)))
      == if i.nodeId.IsNull() then Loaded(Some(SessNodeidForge), before)
         else if i.topology.Some? then ReadTopology(base, AfterFlag(i.topology)) else Loaded(None, Some(base.(topology := None)))
  {
    hide ReadUnsigned, ReadInt32, ReadTopology, Decimal;
    var digit := if i.topology.Some? then "1" else "0";
    assert TopologyText(i.topology) == digit + AfterFlag(i.topology);
    ThreeNumbersRoundTrip(i, "\n" + TopologyText(i.topology));
    FlagRoundTrip(digit, AfterFlag(i.topology));
  }

  lemma TopologyRoundTrip(base: Identity, t: Topology)
    requires IsWord(t.id)
    ensures ReadTopology(base, AfterFlag(Some(t))) == Loaded(None, Some(base.(topology := Some(Topology(t.id, None, None, t.segment)))))
  {
    hide ReadUnsigned, ReadWord, Decimal;
    var tail := " " + (Decimal(t.segment) + "\n");
    WordRoundTrip(t.id, tail);
    UnsignedRoundTrip(t.segment, U32_SIZE, "\n");
    assert AfterFlag(Some(t)) == [' '] + (t.id + tail);
    assert tail == [' '] + (Decimal(t.segment) + "\n");
  }

  /** A file that names the null id is refused as forged, and one that is not there as corrupt; the identity stays. */
  lemma RefusedFiles(i: Identity, before: Option<Identity>)
    requires i.nodeId.IsNull()
    ensures Load(before, Some(Rendered(i))) == Loaded(Some(SessNodeidForge), before)
    ensures Load(before, None) == Load(before, Some("")) == Loaded(Some(SessPersistCorrupt), before)
  {
    HeaderRoundTrip(i, before);
    assert SkipSpace("") == "";
    hide Rendered;
  }

  /** A topology that is read at all has a one-word name. */
  lemma LoadedTopologyIsWord(before: Option<Identity>, file: Option<string>)
    ensures var l := Load(before, file);
      l.error.None? ==> l.identity.Some? && Storable(l.identity.value) && Persistent(l.identity.value) == l.identity.value
  {
    hide ReadUnsigned, ReadInt32, ReadWord, IsWord;
  }

  /**
   Loading what was persisted restores the node id, the epoch and the topology name and segment
   if and only if the id is not null and the name is one word; whatever the file does not hold
   is left as it was.
   */
  lemma LoadAfterPersistIff(i: Identity, before: Option<Identity>)
    ensures var profile := if before.Some? then before.value.profile else [];
      Load(before, Some(Rendered(i))) == Loaded(None, Some(Persistent(i).(profile := profile))) <==> Storable(i)
  {
    LoadedTopologyIsWord(before, Some(Rendered(i)));
    hide Load, Rendered, ReadTopology, IsWord;
    if Storable(i) {
      HeaderRoundTrip(i, before);
      if i.topology.Some? {
        TopologyRoundTrip(Base(before, i.nodeId, i.epoch), i.topology.value);
      }
    }
  }

  // ---- recovery ----------------------------------------------------------------------------------

  /** The persistence path: whether there is one, the file behind it, and whether it can be written. */
  datatype Disk = Disk(path: bool, file: Option<string>, writable: bool)

  function Readable(disk: Disk): Option<string> {
    if disk.path then disk.file else None
  }

  function Persist(identity: Option<Identity>, disk: Disk): (Option<Error>, Disk) {
    if identity.None? then (Some(SessUuidGenFail), disk)
    else if !disk.path then (None, disk)
    else if !disk.writable then (Some(SessPersistCorrupt), disk)
    else (None, disk.(file := Some(Rendered(identity.value))))
  }

  datatype Report = Report(nodeIdRegenerated: bool, epochReset: bool, topologyCleared: bool)

  const NOTHING_REPAIRED := Report(false, false, false)

  datatype Recovered = Recovered(identity: Identity, disk: Disk, report: Report)

  /** The repairs made to an identity that did load. */
  function Repair(i0: Identity, generated: NodeId): (Identity, Report) {
    var regenerate := i0.nodeId.IsNull();
    var i1 := if regenerate then i0.(nodeId := generated) else i0;
    var reset := i1.epoch == 0;
    var i2 := if reset then i1.(epoch := 1) else i1;
    var clear := i2.topology.Some? && i2.topology.value.id == [];
    (if clear then i2.(topology := None) else i2, Report(regenerate, reset, clear))
  }

  /** `recoverFromCorruption`, with the id it would generate. */
  function Recover(identity: Option<Identity>, disk: Disk, generated: NodeId): Recovered {
    var loaded := Load(identity, Readable(disk));
    if loaded.error.Some? || loaded.identity.None? then
      var profile := if loaded.identity.Some? then loaded.identity.value.profile else [];
      var i := Identity(generated, 1, None, profile);
      Recovered(i, Persist(Some(i), disk).1, Report(true, true, true))
    else
      var (i, report) := Repair(loaded.identity.value, generated);
      Recovered(i, if report != NOTHING_REPAIRED then Persist(Some(i), disk).1 else disk, report)
  }

  /** After a successful load only the epoch can need repair: the other two checks never fire. */
  lemma OnlyEpochNeedsRepair(identity: Option<Identity>, file: Option<string>, generated: NodeId)
    requires Load(identity, file).error.None?
    ensures var i := Load(identity, file).identity.value;
      Repair(i, generated) == (i.(epoch := if i.epoch == 0 then 1 else i.epoch), Report(false, i.epoch == 0, false))
  {
    LoadedTopologyIsWord(identity, file);
    hide Load;
  }

  /** Whatever the file holds, recovery ends with a usable identity that a file can hold. */
  lemma RecoveryAlwaysSound(identity: Option<Identity>, disk: Disk, generated: NodeId)
    requires !generated.IsNull()
    ensures var r := Recover(identity, disk, generated);
      && Storable(r.identity) && r.identity.epoch >= 1
      && Persistent(r.identity) == r.identity
      && r.disk == (if r.report != NOTHING_REPAIRED && disk.path && disk.writable
                    then disk.(file := Some(Rendered(r.identity))) else disk)
  {
    LoadedTopologyIsWord(identity, Readable(disk));
  }

  /** A node that starts again over the file it wrote is the node it was; only an epoch of 0 becomes 1. */
  lemma RecoveryRestores(i: Identity, before: Option<Identity>, disk: Disk, generated: NodeId)
    requires Storable(i) && disk.path && disk.file == Some(Rendered(i))
    ensures var r := Recover(before, disk, generated); var profile := if before.Some? then before.value.profile else [];
      && r.identity == Persistent(i).(profile := profile, epoch := if i.epoch == 0 then 1 else i.epoch)
      && r.report == Report(false, i.epoch == 0, false)
      && (i.epoch != 0 ==> r.disk == disk)
  {
    LoadAfterPersistIff(i, before);
    OnlyEpochNeedsRepair(before, disk.file, generated);
    hide Load, Rendered;
  }

  /** A new id is taken exactly when the file cannot be loaded, and then everything a file holds starts afresh. */
  lemma RegeneratedIff(identity: Option<Identity>, disk: Disk, generated: NodeId)
    ensures var r, l := Recover(identity, disk, generated), Load(identity, Readable(disk));
      && (r.report.nodeIdRegenerated <==> l.error.Some?)
      && (r.report.nodeIdRegenerated ==>
            r.identity.nodeId == generated && r.identity.epoch == 1 && r.identity.topology == None && r.report == Report(true, true, true))
      && (!r.report.nodeIdRegenerated ==>
            l.identity.Some? && r.identity == l.identity.value.(epoch := if l.identity.value.epoch == 0 then 1 else l.identity.value.epoch))
  {
    LoadedTopologyIsWord(identity, Readable(disk));
    if Load(identity, Readable(disk)).error.None? {
      OnlyEpochNeedsRepair(identity, Readable(disk), generated);
    }
    hide Load;
  }

  /** Loading over an identity that already holds the same persistent part changes nothing. */
  lemma LoadIsStable(identity: Option<Identity>, file: Option<string>)
    requires Load(identity, file).error.None?
    ensures Load(identity, file).identity.Some?
    ensures Load(Load(identity, file).identity, file) == Load(identity, file)
  {
    hide ReadUnsigned, ReadInt32, ReadWord;
  }

  /**
   Recovery settles: a second recovery repairs nothing and keeps the identity if and only if the
   first one repaired nothing or could write the file.
   */
  lemma SecondRecoveryIdleIff(identity: Option<Identity>, disk: Disk, generated: NodeId, generated2: NodeId)
    requires !generated.IsNull() && !generated2.IsNull()
    ensures var r := Recover(identity, disk, generated); var r2 := Recover(Some(r.identity), r.disk, generated2);
      (r2.report == NOTHING_REPAIRED && r2.identity == r.identity && r2.disk == r.disk)
      <==> (r.report == NOTHING_REPAIRED || (disk.path && disk.writable))
  {
    var r := Recover(identity, disk, generated);
    RecoveryAlwaysSound(identity, disk, generated);
    if r.report == NOTHING_REPAIRED {
      LoadIsStable(identity, Readable(disk));
    } else if disk.path && disk.writable {
      LoadAfterPersistIff(r.identity, Some(r.identity));
    } else {
      StillDamaged(identity, disk, generated);
    }
  }

  /** Without a file to write, the damage is found again. */
  lemma StillDamaged(identity: Option<Identity>, disk: Disk, generated: NodeId)
    requires !generated.IsNull() && !(disk.path && disk.writable)
    requires Recover(identity, disk, generated).report != NOTHING_REPAIRED
    ensures var r := Recover(identity, disk, generated);
      r.disk == disk && forall generated2 :: Recover(Some(r.identity), disk, generated2).report != NOTHING_REPAIRED
  {
    LoadedTopologyIsWord(identity, Readable(disk));
    var r := Recover(identity, disk, generated);
    LoadErrorIndependent(identity, Some(r.identity), Readable(disk));
  }

  /** Whether a file loads, and which epoch and id it gives, does not depend on the identity in memory. */
  lemma LoadErrorIndependent(a: Option<Identity>, b: Option<Identity>, file: Option<string>)
    ensures Load(a, file).error == Load(b, file).error
    ensures Load(a, file).error.None? ==>
      && Load(a, file).identity.Some? && Load(b, file).identity.Some?
      && Load(a, file).identity.value.epoch == Load(b, file).identity.value.epoch
      && Load(a, file).identity.value.nodeId == Load(b, file).identity.value.nodeId
  {
    hide ReadUnsigned, ReadInt32, ReadWord;
  }

  // ---- the object --------------------------------------------------------------------------------

  class NodeIdentityManager {
    var identity: Option<Identity>
    var disk: Disk
    var lastRecovery: Report

    constructor (disk: Disk)
      ensures identity == None && this.disk == disk
    {
      identity := None;
      this.disk := disk;
      lastRecovery := NOTHING_REPAIRED;
    }

    method PersistFile() returns (error: Option<Error>)
      modifies this`disk
      ensures (error, disk) == Persist(identity, old(disk))
      ensures error.None? <==> identity.Some? && (disk.path ==> disk.writable)
    {
      if identity.None? {
        return Some(SessUuidGenFail);
      }
      if !disk.path {
        return None;
      }
      if !disk.writable {
        return Some(SessPersistCorrupt);
      }
      var out := Decimal(identity.value.nodeId.high) + (" " + (Decimal(identity.value.nodeId.low) + ("\n" +
        (Decimal(identity.value.epoch) + ("\n" + TopologyText(identity.value.topology))))));
      disk := disk.(file := Some(out));
      return None;
    }

    method LoadFile() returns (error: Option<Error>)
      modifies this`identity
      ensures Loaded(error, identity) == Load(old(identity), Readable(disk))
    {
      if !disk.path || disk.file.None? {
        return Some(SessPersistCorrupt);
      }
      var high := ReadUnsigned(disk.file.value, U64_SIZE);
      if high.None? {
        return Some(SessPersistCorrupt);
      }
      var low := ReadUnsigned(high.value.rest, U64_SIZE);
      if low.None? {
        return Some(SessPersistCorrupt);
      }
      var epoch := ReadUnsigned(low.value.rest, U64_SIZE);
      if epoch.None? {
        return Some(SessPersistCorrupt);
      }
      var flag := ReadInt32(epoch.value.rest);
      if flag.None? {
        return Some(SessPersistCorrupt);
      }
      var id := NodeId(high.value.value, low.value.value);
      if id.IsNull() {
        return Some(SessNodeidForge);
      }
      if identity.None? {
        identity := Some(Identity(id, 0, None, []));
      }
      identity := Some(identity.value.(nodeId := id));
      identity := Some(identity.value.(epoch := epoch.value.value));
      if flag.value.value == 1 {
        var topologyId := ReadWord(flag.value.rest);
        if topologyId.None? {
          return Some(SessPersistCorrupt);
        }
        var segment := ReadUnsigned(topologyId.value.rest, U32_SIZE);
        if segment.None? {
          return Some(SessPersistCorrupt);
        }
        identity := Some(identity.value.(topology := Some(Topology(topologyId.value.value, None, None, segment.value.value))));
      } else {
        identity := Some(identity.value.(topology := None));
      }
      return None;
    }

    method RecoverFromCorruption(generated: NodeId)
      modifies this
      ensures identity.Some? && Recovered(identity.value, disk, lastRecovery) == Recover(old(identity), old(disk), generated)
    {
      lastRecovery := NOTHING_REPAIRED;
      var loadError := LoadFile();
      if loadError.Some? || identity.None? {
        var profile := if identity.Some? then identity.value.profile else [];
        identity := Some(Identity(generated, 1, None, profile));
        lastRecovery := Report(true, true, true);
        var _ := PersistFile();
        return;
      }
      RepairLoaded(generated);
    }

    /** The checks after a successful load, for whatever identity they find. */
    method RepairLoaded(generated: NodeId)
      requires identity.Some? && lastRecovery == NOTHING_REPAIRED
      modifies this
      ensures identity.Some? && (identity.value, lastRecovery) == Repair(old(identity).value, generated)
      ensures disk == if lastRecovery != NOTHING_REPAIRED then Persist(identity, old(disk)).1 else old(disk)
    {
      if identity.value.nodeId.IsNull() {
        lastRecovery := lastRecovery.(nodeIdRegenerated := true);
        identity := Some(identity.value.(nodeId := generated));
      }
      if identity.value.epoch == 0 {
        lastRecovery := lastRecovery.(epochReset := true);
        identity := Some(identity.value.(epoch := 1));
      }
      if identity.value.topology.Some? && identity.value.topology.value.id == [] {
        lastRecovery := lastRecovery.(topologyCleared := true);
        identity := Some(identity.value.(topology := None));
      }
      if lastRecovery.nodeIdRegenerated || lastRecovery.epochReset || lastRecovery.topologyCleared {
        var _ := PersistFile();
      }
    }
  }
}
