/** The list of trusted nodes, its file, and recovery from a damaged file. */
module TrustedStore {
  import opened Common
  import opened TextStream
  import opened IdentityStore

  datatype Entry = Entry(nodeId: NodeId, pairedAt: Word, lastSeenEpoch: Word)

  // ---- the list ----------------------------------------------------------------------------------

  /** Replace the entry of the same node, or append. */
  function Add(entries: seq<Entry>, entry: Entry): (r: seq<Entry>) {
    if entries == [] then [entry]
    else if entries[0].nodeId == entry.nodeId then [entry] + entries[1..]
    else [entries[0]] + Add(entries[1..], entry)
  }

  function Remove(entries: seq<Entry>, id: NodeId): (r: seq<Entry>)
    ensures |r| <= |entries|
  {
    if entries == [] then []
    else (if entries[0].nodeId == id then [] else [entries[0]]) + Remove(entries[1..], id)
  }

  function Find(entries: seq<Entry>, id: NodeId): (r: Option<Entry>)
    ensures r.Some? ==> r.value.nodeId == id
  {
    if entries == [] then None
    else if entries[0].nodeId == id then Some(entries[0])
    else Find(entries[1..], id)
  }

  predicate IsTrusted(entries: seq<Entry>, id: NodeId) {
    Find(entries, id).Some?
  }

  lemma {:induction false} FindAfterAdd(entries: seq<Entry>, entry: Entry, id: NodeId)
    ensures Find(Add(entries, entry), id) == if id == entry.nodeId then Some(entry) else Find(entries, id)
  {
    if entries != [] && entries[0].nodeId != entry.nodeId {
      FindAfterAdd(entries[1..], entry, id);
    }
  }

  lemma {:induction false} FindAfterRemove(entries: seq<Entry>, gone: NodeId, id: NodeId)
    ensures Find(Remove(entries, gone), id) == if id == gone then None else Find(entries, id)
  {
    if entries != [] {
      FindAfterRemove(entries[1..], gone, id);
      var rest := Remove(entries[1..], gone);
      assert ([entries[0]] + rest)[1..] == rest && [] + rest == rest;
    }
  }

  /** No node has two entries. */
  predicate Distinct(entries: seq<Entry>) {
    forall i, j :: 0 <= i < j < |entries| ==> entries[i].nodeId != entries[j].nodeId
  }

  lemma {:induction false} FindIsIn(entries: seq<Entry>, id: NodeId)
    ensures IsTrusted(entries, id) <==> exists i :: 0 <= i < |entries| && entries[i].nodeId == id
  {
    if entries != [] {
      FindIsIn(entries[1..], id);
      assert forall i :: 0 < i < |entries| ==> entries[i] == entries[1..][i - 1];
      if entries[0].nodeId == id {
        assert 0 < |entries| && entries[0].nodeId == id;
      } else if IsTrusted(entries[1..], id) {
        var i :| 0 <= i < |entries[1..]| && entries[1..][i].nodeId == id;
        assert entries[i + 1].nodeId == id;
      }
    }
  }

  /** Adding a node that is not listed appends; adding a listed one changes its first entry in place. */
  lemma {:induction false} AddIs(entries: seq<Entry>, entry: Entry)
    ensures !IsTrusted(entries, entry.nodeId) ==> Add(entries, entry) == entries + [entry]
    ensures IsTrusted(entries, entry.nodeId) ==>
      exists i :: 0 <= i < |entries| && entries[i].nodeId == entry.nodeId && Add(entries, entry) == entries[i := entry]
  {
    if entries != [] {
      AddIs(entries[1..], entry);
      if entries[0].nodeId == entry.nodeId {
        assert Add(entries, entry) == entries[0 := entry];
      } else if IsTrusted(entries[1..], entry.nodeId) {
        var i :| 0 <= i < |entries[1..]| && entries[1..][i].nodeId == entry.nodeId
                 && Add(entries[1..], entry) == entries[1..][i := entry];
        assert entries[i + 1].nodeId == entry.nodeId;
        assert Add(entries, entry) == entries[i + 1 := entry];
      } else {
        assert [entries[0]] + (entries[1..] + [entry]) == entries + [entry];
      }
    }
  }

  lemma RemoveCons(e: Entry, rest: seq<Entry>, id: NodeId)
    ensures Remove([e] + rest, id) == (if e.nodeId == id then [] else [e]) + Remove(rest, id)
  {
    assert ([e] + rest)[1..] == rest;
  }

  lemma RemoveOne(e: Entry, id: NodeId)
    ensures Remove([e], id) == if e.nodeId == id then [] else [e]
  {
    RemoveCons(e, [], id);
    assert [e] + [] == [e];
  }

  lemma Uncons(first: seq<Entry>, second: seq<Entry>)
    ensures first == [] ==> first + second == second
    ensures first != [] ==> first == [first[0]] + first[1..] && first + second == [first[0]] + (first[1..] + second)
  {
  }

  lemma Regroup(a: seq<Entry>, b: seq<Entry>, c: seq<Entry>)
    ensures a + (b + c) == a + b + c && [] + a == a
  {
  }

  /** Removing works entry by entry, and keeps the order of the others, listed twice or not. */
  lemma {:induction false} RemoveOfTwo(first: seq<Entry>, second: seq<Entry>, id: NodeId)
    ensures Remove(first + second, id) == Remove(first, id) + Remove(second, id)
  {
    Uncons(first, second);
    if first == [] {
      Regroup(Remove(second, id), [], []);
    } else {
      var e, tail := first[0], first[1..];
      RemoveOfTwo(tail, second, id);
      hide *;
      RemoveCons(e, tail, id);
      RemoveCons(e, tail + second, id);
      Regroup(if e.nodeId == id then [] else [e], Remove(tail, id), Remove(second, id));
    }
  }

  lemma {:induction false} RemoveKeepsDistinct(entries: seq<Entry>, id: NodeId)
    requires Distinct(entries)
    ensures Distinct(Remove(entries, id)) && forall e :: e in Remove(entries, id) ==> e in entries
  {
    if entries != [] {
      var e, tail := entries[0], entries[1..];
      assert forall i :: 0 <= i < |tail| ==> tail[i] == entries[i + 1];
      RemoveKeepsDistinct(tail, id);
      Uncons(entries, []);
      RemoveCons(e, tail, id);
      var rest := Remove(tail, id);
      hide Remove;
      assert [] + rest == rest;
      forall i | 0 <= i < |rest|
        ensures e.nodeId != rest[i].nodeId
      {
        assert rest[i] in tail;
      }
    }
  }

  /** The calls that change the list in memory. */
  datatype ListCall = AddCall(entry: Entry) | RemoveCall(id: NodeId)

  function Called(entries: seq<Entry>, call: ListCall): seq<Entry> {
    match call
    case AddCall(entry) => Add(entries, entry)
    case RemoveCall(id) => Remove(entries, id)
  }

  function AfterCalls(calls: seq<ListCall>): seq<Entry> {
    if calls == [] then [] else Called(AfterCalls(calls[..|calls| - 1]), calls[|calls| - 1])
  }

  /** The entry of the last call about the node, if that call added it. */
  function LastWord(calls: seq<ListCall>, id: NodeId): Option<Entry> {
    if calls == [] then None
    else
      match calls[|calls| - 1]
      case AddCall(entry) => if entry.nodeId == id then Some(entry) else LastWord(calls[..|calls| - 1], id)
      case RemoveCall(gone) => if gone == id then None else LastWord(calls[..|calls| - 1], id)
  }

  lemma CalledKeepsDistinct(entries: seq<Entry>, call: ListCall)
    requires Distinct(entries)
    ensures Distinct(Called(entries, call))
  {
    match call
    case AddCall(entry) =>
      AddIs(entries, entry);
      FindIsIn(entries, entry.nodeId);
    case RemoveCall(id) =>
      RemoveKeepsDistinct(entries, id);
  }

  /**
   After any calls on an empty list every node has at most one entry, and a node has exactly the
   entry of the last call about it, if that call added it.
   */
  lemma {:induction false} ListIsLastWord(calls: seq<ListCall>, id: NodeId)
    ensures Distinct(AfterCalls(calls))
    ensures Find(AfterCalls(calls), id) == LastWord(calls, id)
  {
    if calls != [] {
      var earlier := calls[..|calls| - 1];
      ListIsLastWord(earlier, id);
      CalledKeepsDistinct(AfterCalls(earlier), calls[|calls| - 1]);
      match calls[|calls| - 1]
      case AddCall(entry) => FindAfterAdd(AfterCalls(earlier), entry, id);
      case RemoveCall(gone) => FindAfterRemove(AfterCalls(earlier), gone, id);
    }
  }

  /** One more entry looked at, with those kept so far in front. */
  lemma RemoveStep(kept: seq<Entry>, entries: seq<Entry>, i: nat, id: NodeId)
    requires i < |entries|
    ensures kept + Remove(entries[i..], id)
            == (if entries[i].nodeId == id then kept else kept + [entries[i]]) + Remove(entries[i + 1..], id)
  {
    var rest := Remove(entries[i + 1..], id);
    assert entries[i..][1..] == entries[i + 1..];
    assert Remove(entries[i..], id) == if entries[i].nodeId == id then [] + rest else [entries[i]] + rest;
    hide Remove;
    assert [] + rest == rest;
    assert kept + ([entries[i]] + rest) == kept + [entries[i]] + rest;
  }

  lemma RemoveEnd(kept: seq<Entry>, entries: seq<Entry>, id: NodeId)
    ensures kept + Remove(entries[|entries|..], id) == kept
  {
    assert kept + [] == kept;
  }

  // ---- the file ----------------------------------------------------------------------------------

  function LineAnd(e: Entry, tail: string): string {
    Decimal(e.nodeId.high) + (" " + (Decimal(e.nodeId.low) + (" " +
      (Decimal(e.pairedAt) + (" " + (Decimal(e.lastSeenEpoch) + ("\n" + tail)))))))
  }

  function RenderedList(entries: seq<Entry>): string {
    if entries == [] then "" else LineAnd(entries[0], RenderedList(entries[1..]))
  }

  lemma LineThenRest(out: string, e: Entry, tail: string)
    ensures out + LineAnd(e, tail) == out + LineAnd(e, "") + tail
  {
  }

  /** One round of the reading loop: four numbers, or the end of it. */
  function ReadEntry(text: string): (r: Option<Extracted<Entry>>)
    ensures r.Some? ==> |r.value.rest| < |text|
  {
    var high := ReadUnsigned(text, U64_SIZE);
    if high.None? then None
    else
      var low := ReadUnsigned(high.value.rest, U64_SIZE);
      if low.None? then None
      else
        var pairedAt := ReadUnsigned(low.value.rest, U64_SIZE);
        if pairedAt.None? then None
        else
          var epoch := ReadUnsigned(pairedAt.value.rest, U64_SIZE);
          if epoch.None? then None
          else
            var id := NodeId(high.value.value, low.value.value);
            Some(Extracted(Entry(id, pairedAt.value.value, epoch.value.value), epoch.value.rest))
  }

  function ReadList(text: string): seq<Entry>
    decreases |text|
  {
    var e := ReadEntry(text);
    if e.None? then [] else [e.value.value] + ReadList(e.value.rest)
  }

  lemma ReadListUnfolds(text: string)
    ensures var e := ReadEntry(text);
      ReadList(text) == if e.None? then [] else [e.value.value] + ReadList(e.value.rest)
  {
  }

  /** One more round of the reading loop, with the entries read so far in front. */
  lemma ReadListStep(read: seq<Entry>, text: string)
    ensures var e := ReadEntry(text);
      read + ReadList(text) == if e.None? then read else read + [e.value.value] + ReadList(e.value.rest)
  {
    ReadListUnfolds(text);
    hide *;
    var e := ReadEntry(text);
    if e.Some? {
      assert read + ([e.value.value] + ReadList(e.value.rest)) == read + [e.value.value] + ReadList(e.value.rest);
    } else {
      assert read + [] == read;
    }
  }

  /** A line is read back, also when only the line break of the one before was left over. */
  lemma LineRoundTrip(e: Entry, tail: string)
    ensures ReadEntry(LineAnd(e, tail)) == Some(Extracted(e, "\n" + tail))
    ensures ReadEntry("\n" + LineAnd(e, tail)) == Some(Extracted(e, "\n" + tail))
  {
    hide ReadUnsigned, Decimal;
    var t4 := "\n" + tail;
    var t3 := " " + (Decimal(e.lastSeenEpoch) + t4);
    var t2 := " " + (Decimal(e.pairedAt) + t3);
    var t1 := " " + (Decimal(e.nodeId.low) + t2);
    UnsignedRoundTrip(e.nodeId.high, U64_SIZE, t1);
    UnsignedRoundTrip(e.nodeId.low, U64_SIZE, t2);
    UnsignedRoundTrip(e.pairedAt, U64_SIZE, t3);
    UnsignedRoundTrip(e.lastSeenEpoch, U64_SIZE, t4);
    assert t1 == [' '] + (Decimal(e.nodeId.low) + t2);
    assert t2 == [' '] + (Decimal(e.pairedAt) + t3);
    assert t3 == [' '] + (Decimal(e.lastSeenEpoch) + t4);
    assert "\n" + LineAnd(e, tail) == ['\n'] + (Decimal(e.nodeId.high) + t1);
  }

  lemma NothingLeft()
    ensures ReadList("") == [] && ReadList("\n") == []
  {
    assert SkipSpace("") == "";
    assert SkipSpace("\n") == SkipSpace("\n"[1..]) && "\n"[1..] == "";
    assert ReadMagnitude("").None? && ReadMagnitude("\n").None?;
  }

  /** The list read from a persisted file is exactly the list that was persisted, in order. */
  lemma {:induction false} ListRoundTrip(entries: seq<Entry>)
    ensures ReadList(RenderedList(entries)) == entries
    ensures ReadList("\n" + RenderedList(entries)) == entries
  {
    if entries == [] {
      NothingLeft();
      assert "\n" + "" == "\n";
    } else {
      var tail := RenderedList(entries[1..]);
      assert RenderedList(entries) == LineAnd(entries[0], tail);
      hide *;
      LineRoundTrip(entries[0], tail);
      ListRoundTrip(entries[1..]);
      ReadListUnfolds(LineAnd(entries[0], tail));
      ReadListUnfolds("\n" + LineAnd(entries[0], tail));
      assert entries == [entries[0]] + entries[1..];
    }
  }

  // ---- recovery ----------------------------------------------------------------------------------

  predicate Corrupt(e: Entry) {
    e.nodeId.IsNull() || e.pairedAt == 0
  }

  function Sound(entries: seq<Entry>): (r: seq<Entry>)
    ensures |r| <= |entries|
    ensures forall i :: 0 <= i < |r| ==> !Corrupt(r[i])
  {
    if entries == [] then []
    else (if Corrupt(entries[0]) then [] else [entries[0]]) + Sound(entries[1..])
  }

  lemma SoundCons(e: Entry, rest: seq<Entry>)
    ensures Sound([e] + rest) == (if Corrupt(e) then [] else [e]) + Sound(rest)
  {
    assert ([e] + rest)[1..] == rest;
  }

  lemma SoundOne(e: Entry)
    ensures Sound([e]) == if e.nodeId.IsNull() || e.pairedAt == 0 then [] else [e]
  {
    SoundCons(e, []);
    assert [e] + [] == [e];
  }

  /** Filtering works entry by entry, and keeps the order. */
  lemma {:induction false} SoundOfTwo(first: seq<Entry>, second: seq<Entry>)
    ensures Sound(first + second) == Sound(first) + Sound(second)
  {
    Uncons(first, second);
    if first == [] {
      Regroup(Sound(second), [], []);
    } else {
      var e, tail := first[0], first[1..];
      SoundOfTwo(tail, second);
      hide *;
      SoundCons(e, tail);
      SoundCons(e, tail + second);
      Regroup(if Corrupt(e) then [] else [e], Sound(tail), Sound(second));
    }
  }

  /** Filtering keeps everything exactly when nothing is corrupt. */
  lemma {:induction false} SoundIsAll(entries: seq<Entry>)
    ensures Sound(entries) == entries <==> forall i :: 0 <= i < |entries| ==> !Corrupt(entries[i])
    ensures |Sound(entries)| == |entries| <==> Sound(entries) == entries
  {
    if entries != [] {
      SoundIsAll(entries[1..]);
      assert entries == [entries[0]] + entries[1..];
      if Corrupt(entries[0]) {
        assert |Sound(entries)| < |entries|;
      } else {
        assert forall i :: 0 <= i < |entries[1..]| ==> entries[1..][i] == entries[i + 1];
        assert forall i :: 1 <= i < |entries| ==> entries[i] == entries[1..][i - 1];
        assert Sound(entries)[1..] == Sound(entries[1..]);
      }
    }
  }

  /** One more round of the erasing loop: the first `i` entries are kept, the rest is unread. */
  lemma SoundStep(entries: seq<Entry>, i: nat)
    requires i <= |entries|
    ensures i == |entries| ==> entries[..i] + Sound(entries[i..]) == entries
    ensures i < |entries| ==>
      var shorter := entries[..i] + entries[i + 1..];
      entries[..i] + Sound(entries[i..])
      == if Corrupt(entries[i]) then shorter[..i] + Sound(shorter[i..]) else entries[..i + 1] + Sound(entries[i + 1..])
  {
    if i < |entries| {
      assert entries[i..][1..] == entries[i + 1..];
      var shorter := entries[..i] + entries[i + 1..];
      assert shorter[i..] == entries[i + 1..] && shorter[..i] == entries[..i];
      assert [] + Sound(entries[i + 1..]) == Sound(entries[i + 1..]);
      assert entries[..i] + ([entries[i]] + Sound(entries[i + 1..])) == entries[..i + 1] + Sound(entries[i + 1..]);
    } else {
      assert entries[..i] + [] == entries;
    }
  }

  datatype RecoveredList = RecoveredList(entries: seq<Entry>, disk: Disk, cleared: bool)

  function RecoverList(disk: Disk): RecoveredList {
    if Readable(disk).None? then RecoveredList([], disk, true)
    else
      var loaded := ReadList(Readable(disk).value);
      var sound := Sound(loaded);
      if |sound| == |loaded| then RecoveredList(sound, disk, false)
      else RecoveredList(sound, if disk.writable then disk.(file := Some(RenderedList(sound))) else disk, true)
  }

  /** Recovery over a file the list wrote gives back its sound entries, and reports a repair exactly if one was not. */
  lemma RecoveryKeepsSound(entries: seq<Entry>, disk: Disk)
    requires disk.path && disk.file == Some(RenderedList(entries))
    ensures var r := RecoverList(disk);
      && r.entries == Sound(entries)
      && (r.cleared <==> exists i :: 0 <= i < |entries| && Corrupt(entries[i]))
      && (disk.writable ==> r.disk.file == Some(RenderedList(Sound(entries))))
  {
    ListRoundTrip(entries);
    SoundIsAll(entries);
    hide ReadList, RenderedList;
  }

  /**
   Recovery of the list settles: the second one gives the same entries, and repairs nothing if
   and only if there is a file to read and the first one repaired nothing or could write it.
   */
  lemma SecondRecoveryIdleIff(disk: Disk)
    ensures var r := RecoverList(disk); var r2 := RecoverList(r.disk);
      && r2.entries == r.entries
      && (!r2.cleared <==> Readable(disk).Some? && (!r.cleared || disk.writable))
  {
    if Readable(disk).Some? {
      var sound := Sound(ReadList(Readable(disk).value));
      ListRoundTrip(sound);
      SoundIsAll(sound);
    }
  }

  // ---- the object --------------------------------------------------------------------------------

  class TrustedNodeList {
    var entries: seq<Entry>
    var disk: Disk
    var listCleared: bool

    constructor (disk: Disk)
      ensures entries == [] && this.disk == disk
    {
      entries := [];
      this.disk := disk;
      listCleared := false;
    }

    method AddEntry(entry: Entry)
      modifies this`entries
      ensures entries == Add(old(entries), entry)
    {
      var i := 0;
      while i < |entries|
        invariant 0 <= i <= |entries| && entries == old(entries)
        invariant entries[..i] + Add(entries[i..], entry) == Add(entries, entry)
      {
        if entries[i].nodeId == entry.nodeId {
          assert Add(entries[i..], entry) == [entry] + entries[i + 1..];
          entries := entries[i := entry];
          return;
        }
        assert entries[i..][1..] == entries[i + 1..];
        assert entries[..i] + ([entries[i]] + Add(entries[i + 1..], entry)) == entries[..i + 1] + Add(entries[i + 1..], entry);
        i := i + 1;
      }
      entries := entries + [entry];
    }

    method RemoveEntry(id: NodeId)
      modifies this`entries
      ensures entries == Remove(old(entries), id)
    {
      var kept: seq<Entry> := [];
      var i := 0;
      assert entries[0..] == entries && kept + Remove(entries, id) == Remove(entries, id);
      hide Remove;
      while i < |entries|
        invariant 0 <= i <= |entries| && entries == old(entries)
        invariant kept + Remove(entries[i..], id) == Remove(entries, id)
      {
        RemoveStep(kept, entries, i, id);
        if entries[i].nodeId != id {
          kept := kept + [entries[i]];
        }
        i := i + 1;
      }
      RemoveEnd(kept, entries, id);
      entries := kept;
    }

    method FindEntry(id: NodeId) returns (r: Option<Entry>)
      ensures r == Find(entries, id)
    {
      var i := 0;
      while i < |entries|
        invariant 0 <= i <= |entries| && Find(entries[i..], id) == Find(entries, id)
      {
        if entries[i].nodeId == id {
          return Some(entries[i]);
        }
        assert entries[i..][1..] == entries[i + 1..];
        i := i + 1;
      }
      return None;
    }

    method PersistFile() returns (ok: bool)
      modifies this`disk
      ensures ok <==> !disk.path || disk.writable
      ensures disk == if old(disk).path && old(disk).writable
                      then old(disk).(file := Some(RenderedList(entries))) else old(disk)
    {
      if !disk.path {
        return true;
      }
      if !disk.writable {
        return false;
      }
      hide LineAnd;
      var out := "";
      var i := 0;
      while i < |entries|
        invariant disk == old(disk)
        invariant 0 <= i <= |entries| && out + RenderedList(entries[i..]) == RenderedList(entries)
      {
        assert entries[i..][1..] == entries[i + 1..];
        LineThenRest(out, entries[i], RenderedList(entries[i + 1..]));
        out := out + LineAnd(entries[i], "");
        i := i + 1;
      }
      assert out + "" == out;
      disk := disk.(file := Some(out));
      return true;
    }

    method LoadFile() returns (ok: bool)
      modifies this`entries
      ensures ok <==> disk.path && disk.file.Some?
      ensures entries == if ok then ReadList(disk.file.value) else old(entries)
    {
      if !disk.path || disk.file.None? {
        return false;
      }
      entries := [];
      var text := disk.file.value;
      ghost var whole := ReadList(text);
      hide *;
      var e := ReadEntry(text);
      assert entries + whole == whole;
      while e.Some?
        invariant disk == old(disk) && e == ReadEntry(text)
        invariant entries + ReadList(text) == whole
        decreases |text|
      {
        ReadListStep(entries, text);
        entries := entries + [e.value.value];
        text := e.value.rest;
        e := ReadEntry(text);
      }
      ReadListStep(entries, text);
      return true;
    }

    method RecoverFromCorruption()
      modifies this
      ensures RecoveredList(entries, disk, listCleared) == RecoverList(old(disk))
    {
      hide ReadList, RenderedList, Sound, Corrupt;
      listCleared := false;
      var loaded := LoadFile();
      if !loaded {
        listCleared := true;
        entries := [];
        return;
      }
      var hasCorrupt := false;
      ghost var all := entries;
      var i := 0;
      while i < |entries|
        invariant 0 <= i <= |entries| <= |all| && disk == old(disk) && !listCleared
        invariant entries[..i] + Sound(entries[i..]) == Sound(all)
        invariant hasCorrupt <==> |entries| < |all|
        decreases |entries| - i
      {
        SoundStep(entries, i);
        if Corrupt(entries[i]) {
          hasCorrupt := true;
          entries := entries[..i] + entries[i + 1..];
        } else {
          i := i + 1;
        }
      }
      SoundStep(entries, i);
      if hasCorrupt {
        listCleared := true;
        var _ := PersistFile();
      }
    }
  }
}
