/**
 The TXT record of service discovery: key/value strings, each behind its length, as in
 sections 6.1 and 6.3 of RFC 6763.
 */
module TxtRecord {
  import opened Common

  type Bytes = seq<Byte>

  const EQUALS: Byte := 61
  const LONGEST_ENTRY := 255

  datatype Pair = Pair(key: Bytes, value: Bytes)

  // ---- one entry ---------------------------------------------------------------------------------

  function EntryOf(p: Pair): Bytes {
    p.key + [EQUALS] + p.value
  }

  predicate Fits(p: Pair) {
    |EntryOf(p)| <= LONGEST_ENTRY
  }

  /** Where `b` first occurs from index `from` on; the length of `s` if it does not. */
  function FirstFrom(s: Bytes, b: Byte, from: nat): (r: nat)
    requires from <= |s|
    ensures from <= r <= |s| && (r < |s| ==> s[r] == b)
    ensures forall i :: from <= i < r ==> s[i] != b
    decreases |s| - from
  {
    if from == |s| || s[from] == b then from else FirstFrom(s, b, from + 1)
  }

  /** An entry without an equals sign stands for nothing. */
  function Split(entry: Bytes): (r: seq<Pair>)
    ensures |r| <= 1
  {
    var eq := FirstFrom(entry, EQUALS, 0);
    if eq == |entry| then [] else [Pair(entry[..eq], entry[eq + 1..])]
  }

  /** The pair a receiver makes of `p`: the key ends at the first equals sign of all. */
  function Received(p: Pair): (r: Pair)
    ensures EntryOf(r) == EntryOf(p)
    ensures EQUALS !in r.key
  {
    var e := EntryOf(p);
    assert e[|p.key|] == EQUALS;
    var eq := FirstFrom(e, EQUALS, 0);
    assert e == e[..eq] + [e[eq]] + e[eq + 1..];
    Pair(e[..eq], e[eq + 1..])
  }

  lemma SplitEntry(p: Pair)
    ensures Split(EntryOf(p)) == [Received(p)]
  {
    assert EntryOf(p)[|p.key|] == EQUALS;
  }

  lemma ReceivedIff(p: Pair)
    ensures Received(p) == p <==> EQUALS !in p.key
  {
    var e := EntryOf(p);
    var eq := FirstFrom(e, EQUALS, 0);
    assert e[|p.key|] == EQUALS;
    if EQUALS !in p.key {
      assert forall i :: 0 <= i < |p.key| ==> e[i] == p.key[i];
      assert eq == |p.key|;
      assert e[..eq] == p.key && e[eq + 1..] == p.value;
    }
  }

  // ---- the record --------------------------------------------------------------------------------

  function Kept(txt: seq<Pair>): (r: seq<Pair>)
    ensures |r| <= |txt|
    ensures forall i :: 0 <= i < |r| ==> Fits(r[i]) && r[i] in txt
  {
    if txt == [] then [] else (if Fits(txt[0]) then [txt[0]] else []) + Kept(txt[1..])
  }

  lemma KeptCons(p: Pair, rest: seq<Pair>)
    ensures Kept([p] + rest) == (if Fits(p) then [p] else []) + Kept(rest)
  {
    assert ([p] + rest)[1..] == rest;
  }

  /** An entry is kept if its key and value have at most 254 bytes. */
  lemma KeptOne(p: Pair)
    ensures Kept([p]) == if |p.key| + |p.value| <= 254 then [p] else []
  {
    KeptCons(p, []);
    assert [p] + [] == [p];
  }

  lemma Uncons(first: seq<Pair>, second: seq<Pair>)
    requires first != []
    ensures first == [first[0]] + first[1..] && first + second == [first[0]] + (first[1..] + second)
  {
  }

  lemma NothingFirst(second: seq<Pair>)
    ensures Kept([] + second) == Kept([]) + Kept(second)
  {
    assert [] + second == second;
  }

  /** Keeping works entry by entry, and keeps the order. */
  lemma {:induction false} KeptOfTwo(first: seq<Pair>, second: seq<Pair>)
    ensures Kept(first + second) == Kept(first) + Kept(second)
  {
    hide *;
    if first == [] {
      NothingFirst(second);
    } else {
      var p, tail := first[0], first[1..];
      KeptOfTwo(tail, second);
      Uncons(first, second);
      KeptCons(p, tail);
      KeptCons(p, tail + second);
      AppendTwo(if Fits(p) then [p] else [], Kept(tail), Kept(second));
    }
  }

  predicate AllFit(txt: seq<Pair>) {
    forall i :: 0 <= i < |txt| ==> |txt[i].key| + |txt[i].value| <= 254
  }

  lemma AllFitCons(p: Pair, rest: seq<Pair>)
    ensures AllFit([p] + rest) <==> |p.key| + |p.value| <= 254 && AllFit(rest)
  {
    var txt := [p] + rest;
    assert txt[0] == p && forall i :: 0 <= i < |rest| ==> txt[i + 1] == rest[i];
    assert forall i :: 1 <= i < |txt| ==> txt[i] == rest[i - 1];
  }

  lemma FitsMeans(p: Pair)
    ensures Fits(p) <==> |p.key| + |p.value| <= 254
  {
  }

  lemma AtMostAll(txt: seq<Pair>)
    ensures |Kept(txt)| <= |txt|
  {
  }

  /** Every entry is kept if and only if all are short enough. */
  lemma {:induction false} KeptAllIff(txt: seq<Pair>)
    ensures |Kept(txt)| == |txt| <==> AllFit(txt)
    ensures |Kept(txt)| == |txt| <==> Kept(txt) == txt
  {
    if txt == [] {
      assert Kept(txt) == [];
    } else {
      var p, rest := txt[0], txt[1..];
      Uncons(txt, []);
      KeptAllIff(rest);
      hide *;
      KeptCons(p, rest);
      AllFitCons(p, rest);
      FitsMeans(p);
      AtMostAll(rest);
    }
  }

  function WithLength(p: Pair): (r: Bytes)
    requires Fits(p)
    ensures |r| >= 2
  {
    [|EntryOf(p)|] + EntryOf(p)
  }

  /** The entries of a list of pairs that all fit. */
  function Joined(pairs: seq<Pair>): Bytes
    requires forall i :: 0 <= i < |pairs| ==> Fits(pairs[i])
  {
    if pairs == [] then [] else WithLength(pairs[0]) + Joined(pairs[1..])
  }

  /** What is announced: a record is never empty. */
  function Encode(txt: seq<Pair>): (r: Bytes)
    ensures r != []
  {
    if Joined(Kept(txt)) == [] then [0] else Joined(Kept(txt))
  }

  /** The end of the first entry, as its length byte says. */
  function EntryEnd(data: Bytes): (r: nat)
    requires data != []
    ensures r >= 1
  {
    var n: int := data[0];
    1 + n
  }

  predicate HasEntry(data: Bytes) {
    data != [] && EntryEnd(data) <= |data|
  }

  function Parse(data: Bytes): seq<Pair> {
    if !HasEntry(data) then []
    else Split(data[1..EntryEnd(data)]) + Parse(data[EntryEnd(data)..])
  }

  function AllReceived(pairs: seq<Pair>): (r: seq<Pair>)
    ensures |r| == |pairs|
    ensures forall i :: 0 <= i < |r| ==> r[i] == Received(pairs[i])
  {
    if pairs == [] then [] else [Received(pairs[0])] + AllReceived(pairs[1..])
  }

  /** How many whole entries the first `k` bytes hold. */
  function WholeIn(pairs: seq<Pair>, k: nat): (r: nat)
    requires forall i :: 0 <= i < |pairs| ==> Fits(pairs[i])
    ensures r <= |pairs|
    ensures k >= |Joined(pairs)| ==> r == |pairs|
  {
    if pairs == [] || k < |WithLength(pairs[0])| then 0
    else 1 + WholeIn(pairs[1..], k - |WithLength(pairs[0])|)
  }

  lemma ParseOneEntry(p: Pair, rest: Bytes)
    requires Fits(p)
    ensures Parse(WithLength(p) + rest) == [Received(p)] + Parse(rest)
  {
    var data := WithLength(p) + rest;
    assert EntryEnd(data) == |WithLength(p)|;
    assert data[1..EntryEnd(data)] == EntryOf(p);
    assert data[EntryEnd(data)..] == rest;
    SplitEntry(p);
  }

  /** Any entry, also an empty one or one without an equals sign, is passed over, and stands for what it is split into. */
  lemma ParseAnyEntry(entry: Bytes, rest: Bytes)
    requires |entry| <= 255
    ensures Parse([|entry|] + entry + rest) == Split(entry) + Parse(rest)
    ensures EQUALS !in entry ==> Split(entry) == []
  {
    var data := [|entry|] + entry + rest;
    assert EntryEnd(data) == 1 + |entry|;
    assert data[1..EntryEnd(data)] == entry;
    assert data[EntryEnd(data)..] == rest;
    hide Split;
    if EQUALS !in entry {
      NoEquals(entry);
    }
  }

  lemma NoEquals(entry: Bytes)
    requires EQUALS !in entry
    ensures Split(entry) == []
  {
  }

  lemma ParseCutEntry(p: Pair, k: nat)
    requires Fits(p) && k < |WithLength(p)|
    ensures Parse(WithLength(p)[..k]) == []
  {
    if k > 0 {
      assert EntryEnd(WithLength(p)[..k]) == |WithLength(p)|;
    }
  }

  lemma JoinedUnfolds(pairs: seq<Pair>)
    requires forall i :: 0 <= i < |pairs| ==> Fits(pairs[i])
    ensures Joined(pairs) == if pairs == [] then [] else WithLength(pairs[0]) + Joined(pairs[1..])
  {
  }

  lemma PrefixOfConcat(a: Bytes, b: Bytes, k: nat)
    requires |a| <= k <= |a| + |b|
    ensures (a + b)[..k] == a + b[..k - |a|]
  {
  }

  lemma ParseFirst(pairs: seq<Pair>, k: nat)
    requires pairs != [] && forall i :: 0 <= i < |pairs| ==> Fits(pairs[i])
    requires |WithLength(pairs[0])| <= k <= |Joined(pairs)|
    ensures var n := k - |WithLength(pairs[0])|;
      && n <= |Joined(pairs[1..])|
      && Parse(Joined(pairs)[..k]) == [Received(pairs[0])] + Parse(Joined(pairs[1..])[..n])
  {
    JoinedUnfolds(pairs);
    hide *;
    var first, rest := WithLength(pairs[0]), Joined(pairs[1..]);
    PrefixOfConcat(first, rest, k);
    ParseOneEntry(pairs[0], rest[..k - |first|]);
  }

  lemma ReceivedFirst(pairs: seq<Pair>, k: nat)
    requires pairs != [] && forall i :: 0 <= i < |pairs| ==> Fits(pairs[i])
    requires |WithLength(pairs[0])| <= k
    ensures AllReceived(pairs)[..WholeIn(pairs, k)]
            == [Received(pairs[0])] + AllReceived(pairs[1..])[..WholeIn(pairs[1..], k - |WithLength(pairs[0])|)]
  {
    hide Received, WithLength, EntryOf;
    assert AllReceived(pairs) == [Received(pairs[0])] + AllReceived(pairs[1..]);
  }

  /** From a record cut anywhere exactly the entries that are whole are read, in order. */
  lemma {:induction false} ParseCut(pairs: seq<Pair>, k: nat)
    requires forall i :: 0 <= i < |pairs| ==> Fits(pairs[i])
    requires k <= |Joined(pairs)|
    ensures Parse(Joined(pairs)[..k]) == AllReceived(pairs)[..WholeIn(pairs, k)]
  {
    if pairs == [] {
      assert AllReceived(pairs)[..0] == [];
    } else if k < |WithLength(pairs[0])| {
      assert Joined(pairs)[..k] == WithLength(pairs[0])[..k];
      ParseCutEntry(pairs[0], k);
    } else {
      ParseFirst(pairs, k);
      ParseCut(pairs[1..], k - |WithLength(pairs[0])|);
      ReceivedFirst(pairs, k);
      hide *;
    }
  }

  /** A cut anywhere before the end leaves out an entry. */
  lemma {:induction false} CutLoses(pairs: seq<Pair>, k: nat)
    requires forall i :: 0 <= i < |pairs| ==> Fits(pairs[i])
    requires k < |Joined(pairs)|
    ensures WholeIn(pairs, k) < |pairs|
  {
    hide Fits, EntryOf;
    JoinedUnfolds(pairs);
    if pairs != [] && k >= |WithLength(pairs[0])| {
      CutLoses(pairs[1..], k - |WithLength(pairs[0])|);
    }
  }

  /** A receiver reads the entries that fit, each split at its first equals sign. */
  lemma ParseEncoded(txt: seq<Pair>)
    ensures Parse(Encode(txt)) == AllReceived(Kept(txt))
  {
    var kept := Kept(txt);
    var joined := Joined(kept);
    if joined == [] {
      assert kept == [];
      var data: Bytes := [0];
      assert EntryEnd(data) == 1 && data[1..] == [] && data[1..1] == [];
      assert Parse(data) == Split([]) + Parse([]);
    } else {
      ParseCut(kept, |joined|);
      assert joined[..|joined|] == joined;
      assert AllReceived(kept)[..|kept|] == AllReceived(kept);
    }
  }

  /** The round trip gives back every entry that fits, if and only if none of their keys holds an equals sign. */
  lemma RoundTripIff(txt: seq<Pair>)
    ensures Parse(Encode(txt)) == Kept(txt) <==> forall i :: 0 <= i < |Kept(txt)| ==> EQUALS !in Kept(txt)[i].key
  {
    var kept := Kept(txt);
    ParseEncoded(txt);
    forall i | 0 <= i < |kept|
      ensures Received(kept[i]) == kept[i] <==> EQUALS !in kept[i].key
    {
      ReceivedIff(kept[i]);
    }
    hide Received;
    if AllReceived(kept) == kept {
      assert forall i :: 0 <= i < |kept| ==> Received(kept[i]) == kept[i];
    }
  }

  /** A receiver reads exactly what was announced if and only if every entry fits and no key holds an equals sign. */
  lemma AllBackIff(txt: seq<Pair>)
    ensures Parse(Encode(txt)) == txt <==>
      forall i :: 0 <= i < |txt| ==> |txt[i].key| + |txt[i].value| <= 254 && EQUALS !in txt[i].key
  {
    ParseEncoded(txt);
    RoundTripIff(txt);
    KeptAllIff(txt);
    hide Parse, Encode, Kept, Received;
  }

  /** A record announced with a length of only sixteen bits is read as far as its entries are whole. */
  lemma AnnouncedLength(txt: seq<Pair>, length: nat)
    requires length == |Encode(txt)| % U16_SIZE
    ensures length <= |Encode(txt)|
    ensures Parse(Encode(txt)[..length]) == AllReceived(Kept(txt))[..WholeIn(Kept(txt), length)]
    ensures WholeIn(Kept(txt), length) == |Kept(txt)| <==> |Encode(txt)| < U16_SIZE
  {
    var kept := Kept(txt);
    ParseEncoded(txt);
    hide Parse, AllReceived, WholeIn, Kept, Fits, Received;
    if Joined(kept) == [] {
      NothingJoined(kept);
      assert Encode(txt)[..length] == Encode(txt);
      assert AllReceived(kept)[..0] == AllReceived(kept);
    } else {
      ParseCut(kept, length);
      if length < |Joined(kept)| {
        CutLoses(kept, length);
      }
    }
  }

  /**
   What is read of an announced record is all of it if and only if the record is shorter than
   65536 bytes: a longer one always loses entries.
   */
  lemma AnnouncedInFullIff(txt: seq<Pair>)
    ensures var data := Encode(txt);
      Parse(data[..|data| % U16_SIZE]) == Parse(data) <==> |data| < U16_SIZE
  {
    AnnouncedLength(txt, |Encode(txt)| % U16_SIZE);
    ParseEncoded(txt);
    hide Parse, Encode, Kept, WholeIn;
  }

  lemma NothingJoined(pairs: seq<Pair>)
    requires forall i :: 0 <= i < |pairs| ==> Fits(pairs[i])
    requires Joined(pairs) == []
    ensures pairs == []
  {
  }

  // ---- the loops ---------------------------------------------------------------------------------

  method EncodeTxt(txt: seq<Pair>) returns (data: Bytes)
    ensures data == Encode(txt)
  {
    data := [];
    var i := 0;
    hide Joined;
    assert txt[0..] == txt && data + Joined(Kept(txt)) == Joined(Kept(txt));
    while i < |txt|
      invariant 0 <= i <= |txt|
      invariant data + Joined(Kept(txt[i..])) == Joined(Kept(txt))
    {
      assert txt[i..][1..] == txt[i + 1..];
      var entry := txt[i].key + [EQUALS] + txt[i].value;
      if |entry| > LONGEST_ENTRY {
        assert [] + Kept(txt[i + 1..]) == Kept(txt[i + 1..]);
        i := i + 1;
        continue;
      }
      NextJoined(data, txt[i], Kept(txt[i + 1..]));
      data := data + [|entry|];
      data := data + entry;
      i := i + 1;
    }
    JoinedUnfolds(Kept([]));
    assert data + [] == data;
    if data == [] {
      data := data + [0];
    }
  }

  lemma NextJoined(data: Bytes, p: Pair, rest: seq<Pair>)
    requires Fits(p) && forall i :: 0 <= i < |rest| ==> Fits(rest[i])
    ensures data + Joined([p] + rest) == data + [|EntryOf(p)|] + EntryOf(p) + Joined(rest)
  {
    hide Joined;
    assert ([p] + rest)[1..] == rest;
    JoinedUnfolds([p] + rest);
    Regroup(data, [|EntryOf(p)|], EntryOf(p), Joined(rest));
  }

  lemma Regroup(a: Bytes, b: Bytes, c: Bytes, d: Bytes)
    ensures a + (b + c + d) == a + b + c + d
  {
  }

  /** One more round of the reading loop, with the pairs read so far in front. */
  lemma ParseStep(done: seq<Pair>, data: Bytes)
    ensures done + Parse(data)
            == if !HasEntry(data) then done else done + Split(data[1..EntryEnd(data)]) + Parse(data[EntryEnd(data)..])
  {
    if HasEntry(data) {
      AppendTwo(done, Split(data[1..EntryEnd(data)]), Parse(data[EntryEnd(data)..]));
    } else {
      assert done + [] == done;
    }
  }

  /** The same at a position inside a longer record, whose entry there has `n` bytes. */
  lemma ParseStepAt(done: seq<Pair>, bytes: Bytes, pos: nat, n: int)
    requires pos < |bytes| && n == bytes[pos]
    ensures pos + 1 + n > |bytes| ==> done + Parse(bytes[pos..]) == done
    ensures pos + 1 + n <= |bytes| ==>
      done + Parse(bytes[pos..]) == (done + Split(bytes[pos + 1..pos + 1 + n])) + Parse(bytes[pos + 1 + n..])
  {
    var data := bytes[pos..];
    ParseStep(done, data);
    hide Parse, Split;
    assert data[0] == n;
    if HasEntry(data) {
      assert data[1..EntryEnd(data)] == bytes[pos + 1..pos + 1 + n];
      assert data[EntryEnd(data)..] == bytes[pos + 1 + n..];
    }
  }

  lemma AppendTwo(a: seq<Pair>, b: seq<Pair>, c: seq<Pair>)
    ensures a + (b + c) == a + b + c
  {
  }

  /** One round of the loop: reads nothing past `length`, whatever the bytes are. */
  method ParseEntry(data: array<Byte>, length: nat, start: nat, before: seq<Pair>)
    returns (more: bool, pos: nat, result: seq<Pair>)
    requires start < length <= data.Length
    ensures more ==> start < pos <= length
    ensures before + Parse(data[..length][start..])
            == if more then result + Parse(data[..length][pos..]) else result
  {
    ghost var bytes := data[..length];
    hide *;
    var entryLen: int := data[start];
    assert bytes[start] == data[start];
    ParseStepAt(before, bytes, start, entryLen);
    pos := start + 1;
    if pos + entryLen > length {
      return false, pos, before;
    }
    var entry := data[pos..pos + entryLen];
    assert entry == bytes[pos..pos + entryLen] by { SliceOfPrefix(data[..], length, pos, pos + entryLen); }
    pos := pos + entryLen;
    result := before + Split(entry);
    more := true;
  }

  method ParseTxt(data: array<Byte>, length: nat) returns (result: seq<Pair>)
    requires length <= data.Length && length < U16_SIZE
    ensures result == Parse(data[..length])
  {
    result := [];
    var pos := 0;
    ParseWhole(data[..length]);
    hide *;
    while pos < length
      invariant 0 <= pos <= length
      invariant result + Parse(data[..length][pos..]) == Parse(data[..length])
    {
      var more, next, pairs := ParseEntry(data, length, pos, result);
      result := pairs;
      if !more {
        return;
      }
      pos := next;
    }
    ParseAtEnd(result, data[..length]);
  }

  lemma SliceOfPrefix(s: Bytes, length: nat, from: nat, to: nat)
    requires from <= to <= length <= |s|
    ensures s[..length][from..to] == s[from..to]
  {
  }

  lemma ParseWhole(bytes: Bytes)
    ensures [] + Parse(bytes[0..]) == Parse(bytes)
  {
    assert bytes[0..] == bytes;
  }

  lemma ParseAtEnd(done: seq<Pair>, bytes: Bytes)
    ensures done + Parse(bytes[|bytes|..]) == done
  {
    ParseStep(done, bytes[|bytes|..]);
  }
}
