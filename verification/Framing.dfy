/** Length-prefixed messages over a byte stream that is sent and received in arbitrary pieces. */
module Framing {
  import opened Common

  type Bytes = seq<Byte>

  const MAX_FRAME := 65536
  const HEADER := 4

  // ---- the wire format ---------------------------------------------------------------------------

  /** A 32-bit length in network byte order. */
  function LengthBytes(n: nat): (b: Bytes)
    requires n < U32_SIZE
    ensures |b| == HEADER
  {
    [n / 0x100_0000, n / 0x1_0000 % 256, n / 0x100 % 256, n % 256]
  }

  function LengthOf(b: Bytes): nat
    requires |b| == HEADER
  {
    var b0: int, b1: int, b2: int, b3: int := b[0], b[1], b[2], b[3];
    b0 * 0x100_0000 + b1 * 0x1_0000 + b2 * 0x100 + b3
  }

  lemma LengthRoundTrip(n: nat)
    requires n < U32_SIZE
    ensures LengthOf(LengthBytes(n)) == n
  {
    assert n == n / 0x100 * 0x100 + n % 256;
    assert n / 0x100 == n / 0x1_0000 * 0x100 + n / 0x100 % 256;
    assert n / 0x1_0000 == n / 0x100_0000 * 0x100 + n / 0x1_0000 % 256;
  }

  /** Network byte order: of two lengths the larger differs from the smaller first in a larger byte. */
  lemma MostSignificantFirst(m: nat, n: nat)
    requires m < n < U32_SIZE
    ensures exists i :: 0 <= i < HEADER && LengthBytes(m)[..i] == LengthBytes(n)[..i] && LengthBytes(m)[i] < LengthBytes(n)[i]
  {
    var a, b := LengthBytes(m), LengthBytes(n);
    LengthRoundTrip(m);
    LengthRoundTrip(n);
    if a[0] < b[0] {
      assert a[..0] == b[..0];
    } else if a[1] < b[1] {
      assert a[0] == b[0] && a[..1] == b[..1];
    } else if a[2] < b[2] {
      assert a[0] == b[0] && a[1] == b[1] && a[..2] == b[..2];
    } else {
      assert a[0] == b[0] && a[1] == b[1] && a[2] == b[2] && a[..3] == b[..3] && a[3] < b[3];
    }
  }

  function Frame(payload: Bytes): (f: Bytes)
    requires |payload| < U32_SIZE
    ensures |f| == HEADER + |payload|
  {
    LengthBytes(|payload|) + payload
  }

  predicate Sendable(payloads: seq<Bytes>) {
    forall i :: 0 <= i < |payloads| ==> |payloads[i]| < U32_SIZE
  }

  /** Payloads of a length the receiver accepts. */
  predicate Legal(payloads: seq<Bytes>) {
    forall i :: 0 <= i < |payloads| ==> 1 <= |payloads[i]| <= MAX_FRAME
  }

  function Stream(payloads: seq<Bytes>): Bytes
    requires Sendable(payloads)
  {
    if payloads == [] then [] else Frame(payloads[0]) + Stream(payloads[1..])
  }

  /** Does a stream begin with a complete frame of acceptable length? */
  predicate StartsWithFrame(bytes: Bytes) {
    && HEADER <= |bytes|
    && 0 < LengthOf(bytes[..HEADER]) <= MAX_FRAME
    && HEADER + LengthOf(bytes[..HEADER]) <= |bytes|
  }

  function FirstEnd(bytes: Bytes): nat
    requires StartsWithFrame(bytes)
  {
    HEADER + LengthOf(bytes[..HEADER])
  }

  /** What a receiver hands on from a stream that ends after `bytes`. */
  function Deliver(bytes: Bytes): seq<Bytes> {
    if !StartsWithFrame(bytes) then []
    else [bytes[HEADER..FirstEnd(bytes)]] + Deliver(bytes[FirstEnd(bytes)..])
  }

  lemma FrameComesBack(payload: Bytes, rest: Bytes)
    requires 1 <= |payload| <= MAX_FRAME
    ensures Deliver(Frame(payload) + rest) == [payload] + Deliver(rest)
  {
    var bytes := Frame(payload) + rest;
    LengthRoundTrip(|payload|);
    assert bytes[..HEADER] == LengthBytes(|payload|);
    assert bytes[HEADER..FirstEnd(bytes)] == payload;
    assert bytes[FirstEnd(bytes)..] == rest;
  }

  lemma Regroup(a: Bytes, b: Bytes, c: Bytes)
    ensures a + b + c == a + (b + c)
  {
  }

  lemma StreamUnfolds(payloads: seq<Bytes>)
    requires Sendable(payloads) && payloads != []
    ensures Stream(payloads) == Frame(payloads[0]) + Stream(payloads[1..])
  {
  }

  lemma DeliverUnfolds(bytes: Bytes)
    requires StartsWithFrame(bytes)
    ensures Deliver(bytes) == [bytes[HEADER..FirstEnd(bytes)]] + Deliver(bytes[FirstEnd(bytes)..])
  {
  }

  lemma StreamHead(payloads: seq<Bytes>, rest: Bytes)
    requires Sendable(payloads) && payloads != []
    ensures Stream(payloads) + rest == Frame(payloads[0]) + (Stream(payloads[1..]) + rest)
  {
    hide Stream, Frame;
    StreamUnfolds(payloads);
    Regroup(Frame(payloads[0]), Stream(payloads[1..]), rest);
  }

  lemma PrependBack(a: seq<Bytes>, b: seq<Bytes>)
    requires a != []
    ensures [a[0]] + (a[1..] + b) == a + b
  {
  }

  /** Everything sent is delivered, in order, followed by whatever comes after it. */
  lemma {:induction false} WholeStreamDelivered(payloads: seq<Bytes>, rest: Bytes)
    requires Legal(payloads)
    ensures Deliver(Stream(payloads) + rest) == payloads + Deliver(rest)
  {
    if payloads == [] {
      assert Stream(payloads) + rest == rest;
    } else {
      hide Deliver, Frame, Stream;
      WholeStreamDelivered(payloads[1..], rest);
      StreamHead(payloads, rest);
      FrameComesBack(payloads[0], Stream(payloads[1..]) + rest);
      PrependBack(payloads, Deliver(rest));
    }
  }

  /** A receiver only ever hands on payloads of acceptable length. */
  lemma {:induction false} DeliveredAreLegal(bytes: Bytes)
    ensures Legal(Deliver(bytes))
    decreases |bytes|
  {
    if StartsWithFrame(bytes) {
      DeliveredAreLegal(bytes[FirstEnd(bytes)..]);
    }
  }

  /** The stream of a list of payloads delivers exactly that list if and only if every length is acceptable. */
  lemma DeliveredIffLegal(payloads: seq<Bytes>)
    requires Sendable(payloads)
    ensures Deliver(Stream(payloads)) == payloads <==> Legal(payloads)
  {
    DeliveredAreLegal(Stream(payloads));
    if Legal(payloads) {
      WholeStreamDelivered(payloads, []);
      assert Stream(payloads) + [] == Stream(payloads);
    }
  }

  /** The first message of unacceptable length ends the delivery, whatever comes after it. */
  lemma FirstIllegalEnds(payloads: seq<Bytes>, k: nat, rest: Bytes)
    requires Sendable(payloads) && k < |payloads| && Legal(payloads[..k]) && !Legal([payloads[k]])
    ensures Deliver(Stream(payloads) + rest) == payloads[..k]
  {
    StreamSplits(payloads, k);
    var tail := Stream(payloads[k..]) + rest;
    Regroup(Stream(payloads[..k]), Stream(payloads[k..]), rest);
    WholeStreamDelivered(payloads[..k], tail);
    StreamHead(payloads[k..], rest);
    LengthRoundTrip(|payloads[k]|);
    assert tail[..HEADER] == LengthBytes(|payloads[k]|);
    assert !StartsWithFrame(tail);
    hide Stream, Frame;
    assert payloads[..k] + [] == payloads[..k];
  }

  lemma {:induction false} StreamSplits(payloads: seq<Bytes>, k: nat)
    requires Sendable(payloads) && k <= |payloads|
    ensures Stream(payloads) == Stream(payloads[..k]) + Stream(payloads[k..])
  {
    if k == 0 {
      assert payloads[0..] == payloads;
    } else {
      hide Stream, Frame;
      StreamUnfolds(payloads);
      StreamUnfolds(payloads[..k]);
      StreamSplits(payloads[1..], k - 1);
      assert payloads[..k][1..] == payloads[1..][..k - 1] && payloads[1..][k - 1..] == payloads[k..];
      Regroup(Frame(payloads[0]), Stream(payloads[1..][..k - 1]), Stream(payloads[k..]));
    }
  }

  lemma CutSlices(bytes: Bytes, k: nat, e: nat)
    requires HEADER <= e <= k <= |bytes|
    ensures bytes[..k][..HEADER] == bytes[..HEADER] && bytes[..k][HEADER..e] == bytes[HEADER..e]
    ensures bytes[..k][e..] == bytes[e..][..k - e]
  {
  }

  /** Whatever the bytes, cutting a stream short delivers a prefix of what the whole stream delivers. */
  lemma {:induction false} CutDeliversPrefix(bytes: Bytes, k: nat)
    requires k <= |bytes|
    ensures Deliver(bytes[..k]) <= Deliver(bytes)
    decreases |bytes|
  {
    if StartsWithFrame(bytes[..k]) {
      DeliverUnfolds(bytes[..k]);
      hide Deliver;
      var e := FirstEnd(bytes[..k]);
      CutSlices(bytes, k, e);
      DeliverUnfolds(bytes);
      CutDeliversPrefix(bytes[e..], k - e);
    }
  }

  /** `m` is the number of frames that fit into the first `k` bytes of the stream. */
  predicate CompleteFrames(payloads: seq<Bytes>, k: nat, m: nat)
    requires Sendable(payloads)
  {
    && m <= |payloads|
    && |Stream(payloads[..m])| <= k
    && (m < |payloads| ==> k < |Stream(payloads[..m + 1])|)
  }

  lemma CutFirstFrame(payload: Bytes, rest: Bytes, k: nat)
    requires 1 <= |payload| <= MAX_FRAME && k < HEADER + |payload|
    ensures Deliver((Frame(payload) + rest)[..k]) == []
  {
    var s := Frame(payload) + rest;
    LengthRoundTrip(|payload|);
    if HEADER <= k {
      assert s[..k][..HEADER] == LengthBytes(|payload|);
    }
  }

  lemma StreamPrefixStep(payloads: seq<Bytes>, m: nat)
    requires Sendable(payloads) && m < |payloads|
    ensures payloads[..m + 1] == [payloads[0]] + payloads[1..][..m]
    ensures |Stream(payloads[..m + 1])| == HEADER + |payloads[0]| + |Stream(payloads[1..][..m])|
  {
    assert payloads[..m + 1][1..] == payloads[1..][..m];
  }

  lemma StreamOfNothing(payloads: seq<Bytes>)
    requires Sendable(payloads)
    ensures |Stream(payloads[..0])| == 0
  {
  }

  /** A cut beyond the first frame: one frame more than what the rest delivers. */
  lemma CutWithinRest(payloads: seq<Bytes>, k: nat, m: nat)
    requires Legal(payloads) && payloads != [] && HEADER + |payloads[0]| <= k <= |Stream(payloads)|
    requires var k' := k - HEADER - |payloads[0]|; var rest := Stream(payloads[1..]);
      k' <= |rest| && CompleteFrames(payloads[1..], k', m) && Deliver(rest[..k']) == payloads[1..][..m]
    ensures CompleteFrames(payloads, k, m + 1) && Deliver(Stream(payloads)[..k]) == payloads[..m + 1]
  {
    hide Deliver, Frame, Stream;
    StreamUnfolds(payloads);
    var first := HEADER + |payloads[0]|;
    var rest := Stream(payloads[1..]);
    assert Stream(payloads)[..k] == Frame(payloads[0]) + rest[..k - first];
    FrameComesBack(payloads[0], rest[..k - first]);
    StreamPrefixStep(payloads, m);
    if m + 1 < |payloads| {
      StreamPrefixStep(payloads, m + 1);
    }
  }

  /** A cut stream delivers exactly the frames that arrived complete. */
  lemma {:induction false} CutDeliversCompleteFrames(payloads: seq<Bytes>, k: nat)
    requires Legal(payloads) && k <= |Stream(payloads)|
    ensures exists m: nat :: CompleteFrames(payloads, k, m) && Deliver(Stream(payloads)[..k]) == payloads[..m]
  {
    if payloads == [] {
      assert CompleteFrames(payloads, k, 0) && Deliver(Stream(payloads)[..k]) == payloads[..0];
    } else {
      hide Deliver, Frame, Stream;
      StreamUnfolds(payloads);
      var rest := Stream(payloads[1..]);
      var first := HEADER + |payloads[0]|;
      if k < first {
        CutFirstFrame(payloads[0], rest, k);
        StreamPrefixStep(payloads, 0);
        StreamOfNothing(payloads);
        assert CompleteFrames(payloads, k, 0) && Deliver(Stream(payloads)[..k]) == payloads[..0];
      } else {
        CutDeliversCompleteFrames(payloads[1..], k - first);
        var m: nat :| CompleteFrames(payloads[1..], k - first, m) && Deliver(rest[..k - first]) == payloads[1..][..m];
        CutWithinRest(payloads, k, m);
        assert CompleteFrames(payloads, k, m + 1) && Deliver(Stream(payloads)[..k]) == payloads[..m + 1];
      }
    }
  }

  lemma {:induction false} StreamAppend(payloads: seq<Bytes>, payload: Bytes)
    requires Sendable(payloads) && |payload| < U32_SIZE
    ensures Stream(payloads + [payload]) == Stream(payloads) + Frame(payload)
  {
    if payloads == [] {
      assert Stream([payload]) == Frame(payload) + Stream([]);
      assert payloads + [payload] == [payload];
    } else {
      StreamAppend(payloads[1..], payload);
      assert (payloads + [payload])[1..] == payloads[1..] + [payload];
    }
  }

  // ---- the socket --------------------------------------------------------------------------------

  /** A connected socket.  `appetite` decides how much each call moves; zero or less is a failure. */
  class Socket {
    const appetite: nat -> int
    var calls: nat
    var wire: Bytes        // what was sent
    const incoming: Bytes  // what the peer sent before it closed
    var position: nat      // how much of it was received
    ghost var broken: bool // a receive failed although bytes were left

    constructor (appetite: nat -> int, incoming: Bytes)
      ensures this.appetite == appetite && this.incoming == incoming
      ensures calls == 0 && wire == [] && position == 0 && !broken
    {
      this.appetite := appetite;
      this.incoming := incoming;
      calls, wire, position, broken := 0, [], 0, false;
    }

    /** Call number `call` moves something, if there is anything to move. */
    predicate Moves(call: nat) {
      appetite(call) > 0
    }

    method Send(data: Bytes) returns (n: int)
      modifies this`calls, this`wire
      ensures n <= |data| && calls == old(calls) + 1
      ensures data != [] ==> (n > 0 <==> Moves(old(calls)))
      ensures wire == if n > 0 then old(wire) + data[..n] else old(wire)
    {
      n := Min(appetite(calls), |data|);
      calls := calls + 1;
      if n > 0 {
        wire := wire + data[..n];
      }
    }

    method Recv(len: nat) returns (n: int, data: Bytes)
      requires position <= |incoming|
      modifies this`calls, this`position, this`broken
      ensures n <= len && old(position) <= position <= |incoming| && calls == old(calls) + 1
      ensures broken ==> old(broken) || !Moves(old(calls))
      ensures n > 0 ==> position == old(position) + n && data == incoming[old(position)..position] && broken == old(broken)
      ensures n <= 0 ==> position == old(position) && (broken || position == |incoming| || len == 0)
    {
      n := Min(Min(appetite(calls), len), |incoming| - position);
      calls := calls + 1;
      if n > 0 {
        data := incoming[position..position + n];
        position := position + n;
      } else {
        data := [];
        broken := broken || (position < |incoming| && len > 0);
      }
    }
  }

  // ---- sending and receiving -----------------------------------------------------------------------

  /** Send all of `data`, however many calls it takes; on failure a strict prefix went out. */
  method SendRaw(fd: Socket?, data: Bytes) returns (ok: bool, ghost sentBytes: nat)
    modifies fd
    ensures fd == null ==> !ok && sentBytes == 0
    ensures fd != null ==> sentBytes <= |data| && fd.wire == old(fd.wire) + data[..sentBytes]
    ensures ok ==> sentBytes == |data|
    ensures !ok ==> fd == null || sentBytes < |data|
    ensures fd != null ==> old(fd.calls) <= fd.calls && (ok <==> forall c :: old(fd.calls) <= c < fd.calls ==> fd.Moves(c))
  {
    if fd == null {
      return false, 0;
    }
    var sent := 0;
    while sent < |data|
      invariant sent <= |data| && fd.wire == old(fd.wire) + data[..sent]
      invariant old(fd.calls) <= fd.calls && forall c :: old(fd.calls) <= c < fd.calls ==> fd.Moves(c)
    {
      var n := fd.Send(data[sent..]);
      if n <= 0 {
        return false, sent;
      }
      assert data[..sent] + data[sent..][..n] == data[..sent + n];
      sent := sent + n;
    }
    return true, sent;
  }

  /** Receive exactly `len` bytes, however many calls it takes; on failure fewer were there to take. */
  method RecvRaw(fd: Socket?, len: nat) returns (ok: bool, data: Bytes)
    requires fd != null ==> fd.position <= |fd.incoming|
    modifies if fd == null then {} else {fd}
    ensures fd == null ==> !ok
    ensures fd != null ==> old(fd.position) <= fd.position <= |fd.incoming| && fd.wire == old(fd.wire)
    ensures ok ==> fd.position == old(fd.position) + len && data == fd.incoming[old(fd.position)..fd.position] && fd.broken == old(fd.broken)
    ensures fd != null && !ok ==> fd.position < old(fd.position) + len && (fd.broken || fd.position == |fd.incoming|)
    ensures fd != null ==> old(fd.calls) <= fd.calls
    ensures fd != null && fd.broken && !old(fd.broken) ==> fd.calls > 0 && !fd.Moves(fd.calls - 1)
  {
    data := [];
    if fd == null {
      return false, data;
    }
    var received := 0;
    while received < len
      invariant received <= len && fd.position == old(fd.position) + received <= |fd.incoming|
      invariant data == fd.incoming[old(fd.position)..fd.position]
      invariant fd.wire == old(fd.wire) && fd.broken == old(fd.broken) && old(fd.calls) <= fd.calls
    {
      var n, piece := fd.Recv(len - received);
      if n <= 0 {
        return false, data;
      }
      data := data + piece;
      received := received + n;
    }
    return true, data;
  }

  /** The sending half of the input channel. */
  class InputSender {
    var socket: Socket?
    var connected: bool
    var backlog: nat
    var totalSent: nat

    constructor (socket: Socket?)
      ensures this.socket == socket && connected && backlog == 0 && totalSent == 0
    {
      this.socket := socket;
      connected, backlog, totalSent := true, 0, 0;
    }

    /**
     One message: its whole frame and the counters on success, a strict prefix of the frame and a
     backlog entry otherwise, which happens only if there is no connection or a call moved nothing.
     */
    method Send(payload: Bytes) returns (ok: bool)
      requires |payload| < U32_SIZE
      modifies this`backlog, this`totalSent, socket
      ensures ok ==> connected && socket != null && socket.wire == old(socket.wire) + Frame(payload)
      ensures ok ==> totalSent == old(totalSent) + 1 && backlog == Max(0, old(backlog) - 1)
      ensures !ok ==> totalSent == old(totalSent) && backlog == old(backlog) + 1
      ensures socket != null ==> old(socket.calls) <= socket.calls
      ensures connected && socket != null ==> (ok <==> forall c :: old(socket.calls) <= c < socket.calls ==> socket.Moves(c))
      ensures !ok && socket != null ==>
        exists k :: 0 <= k < HEADER + |payload| && socket.wire == old(socket.wire) + Frame(payload)[..k]
    {
      if !connected {
        backlog := backlog + 1;
        if socket != null {
          assert socket.wire == old(socket.wire) + Frame(payload)[..0];
        }
        return false;
      }
      var netLen := LengthBytes(|payload|);
      var headerOk, h := SendRaw(socket, netLen);
      if !headerOk {
        backlog := backlog + 1;
        if socket != null {
          assert netLen[..h] == Frame(payload)[..h];
        }
        return false;
      }
      var bodyOk, b := SendRaw(socket, payload);
      assert netLen[..HEADER] + payload[..b] == Frame(payload)[..HEADER + b];
      assert socket.wire == old(socket.wire) + Frame(payload)[..HEADER + b];
      if !bodyOk {
        backlog := backlog + 1;
        return false;
      }
      totalSent := totalSent + 1;
      if backlog > 0 {
        backlog := backlog - 1;
      }
      return true;
    }

    /** Messages one after the other until one fails: what is on the wire is a prefix of their stream. */
    method SendAll(payloads: seq<Bytes>) returns (done: nat)
      requires Sendable(payloads) && socket != null && connected
      modifies this`backlog, this`totalSent, socket
      ensures done <= |payloads| && totalSent == old(totalSent) + done
      ensures old(socket.calls) <= socket.calls
      ensures done == |payloads| <==> forall c :: old(socket.calls) <= c < socket.calls ==> socket.Moves(c)
      ensures done == |payloads| ==> socket.wire == old(socket.wire) + Stream(payloads)
      ensures done < |payloads| ==>
        exists k :: 0 <= k < HEADER + |payloads[done]| &&
          socket.wire == old(socket.wire) + Stream(payloads[..done]) + Frame(payloads[done])[..k]
    {
      done := 0;
      while done < |payloads|
        invariant done <= |payloads| && totalSent == old(totalSent) + done
        invariant old(socket.calls) <= socket.calls && forall c :: old(socket.calls) <= c < socket.calls ==> socket.Moves(c)
        invariant socket.wire == old(socket.wire) + Stream(payloads[..done])
      {
        var sent := Send(payloads[done]);
        if !sent {
          return;
        }
        StreamAppend(payloads[..done], payloads[done]);
        assert payloads[..done] + [payloads[done]] == payloads[..done + 1];
        done := done + 1;
      }
      assert payloads[..done] == payloads;
    }
  }

  /** The bytes before `k` made up complete frames, and `delivered` are their payloads. */
  ghost predicate ConsumedFrames(all: Bytes, k: nat, delivered: seq<Bytes>)
    requires k <= |all|
  {
    forall rest: Bytes :: Deliver(all[..k] + rest) == delivered + Deliver(rest)
  }

  lemma NothingConsumed(all: Bytes)
    ensures ConsumedFrames(all, 0, [])
  {
    forall rest: Bytes
      ensures Deliver(all[..0] + rest) == [] + Deliver(rest)
    {
      assert all[..0] + rest == rest;
    }
  }

  lemma CompleteFrameDelivers(frame: Bytes, rest: Bytes)
    requires StartsWithFrame(frame) && FirstEnd(frame) == |frame|
    ensures Deliver(frame + rest) == [frame[HEADER..]] + Deliver(rest)
  {
    hide Deliver;
    var bytes := frame + rest;
    assert bytes[..HEADER] == frame[..HEADER];
    assert bytes[HEADER..|frame|] == frame[HEADER..];
    assert bytes[|frame|..] == rest;
    DeliverUnfolds(bytes);
  }

  lemma OneMoreFrame(all: Bytes, k: nat, delivered: seq<Bytes>, e: nat)
    requires k <= e <= |all| && ConsumedFrames(all, k, delivered)
    requires StartsWithFrame(all[k..e]) && FirstEnd(all[k..e]) == e - k
    ensures ConsumedFrames(all, e, delivered + [all[k + HEADER..e]])
  {
    hide Deliver;
    var frame := all[k..e];
    assert all[..e] == all[..k] + frame;
    assert frame[HEADER..] == all[k + HEADER..e];
    forall rest: Bytes
      ensures Deliver(all[..e] + rest) == delivered + [all[k + HEADER..e]] + Deliver(rest)
    {
      Regroup(all[..k], frame, rest);
      CompleteFrameDelivers(frame, rest);
      assert delivered + ([frame[HEADER..]] + Deliver(rest)) == delivered + [frame[HEADER..]] + Deliver(rest);
    }
  }

  /** Once the bytes after `k` hold no complete acceptable frame, nothing more is delivered. */
  lemma NoMoreFrames(all: Bytes, k: nat, delivered: seq<Bytes>, cut: nat)
    requires k <= cut <= |all| && ConsumedFrames(all, k, delivered) && !StartsWithFrame(all[k..cut])
    ensures Deliver(all[..cut]) == delivered
  {
    assert all[..cut] == all[..k] + all[k..cut];
  }

  /** The loop stops at `cut`: nothing more could be delivered, unless a receive broke before the end. */
  lemma LoopEnds(all: Bytes, k: nat, delivered: seq<Bytes>, cut: nat)
    requires k <= cut <= |all| && ConsumedFrames(all, k, delivered) && !StartsWithFrame(all[k..cut])
    ensures delivered == Deliver(all[..cut])
    ensures cut == |all| || !StartsWithFrame(all[k..]) ==> delivered == Deliver(all)
  {
    NoMoreFrames(all, k, delivered, cut);
    assert all[..|all|] == all;
    if cut < |all| && !StartsWithFrame(all[k..]) {
      assert all[k..|all|] == all[k..];
      NoMoreFrames(all, k, delivered, |all|);
    }
  }

  lemma BadLength(all: Bytes, k: nat, cut: nat)
    requires k + HEADER == cut <= |all|
    requires !(1 <= LengthOf(all[k..cut]) <= MAX_FRAME)
    ensures !StartsWithFrame(all[k..cut]) && !StartsWithFrame(all[k..])
  {
    assert all[k..cut][..HEADER] == all[k..cut];
    assert all[k..][..HEADER] == all[k..cut];
  }

  lemma GoodLength(all: Bytes, k: nat, cut: nat)
    requires k + HEADER <= cut <= |all|
    requires 1 <= LengthOf(all[k..k + HEADER]) <= MAX_FRAME
    ensures StartsWithFrame(all[k..cut]) <==> cut >= k + HEADER + LengthOf(all[k..k + HEADER])
    ensures cut >= k + HEADER ==> all[k..cut][..HEADER] == all[k..k + HEADER]
  {
    assert all[k..cut][..HEADER] == all[k..k + HEADER];
  }

  lemma SliceOfRest(bytes: Bytes, start: nat, from: nat, to: nat)
    requires from <= to && start + to <= |bytes|
    ensures bytes[start + from..start + to] == bytes[start..][from..to]
  {
  }

  lemma RestOfRest(bytes: Bytes, start: nat, k: nat, taken: nat)
    requires start + k + taken <= |bytes|
    ensures bytes[start + k..][..taken] == bytes[start..][k..k + taken] && bytes[start + k..] == bytes[start..][k..]
    ensures HEADER <= taken ==> bytes[start + k..][HEADER..taken] == bytes[start..][k + HEADER..k + taken]
  {
  }

  /** The bytes from `start` to `end` are one frame of acceptable length, and `data` is its payload. */
  predicate TookFrame(bytes: Bytes, start: nat, end: nat, data: Bytes) {
    && start + HEADER < end <= |bytes|
    && var frame := bytes[start..][..end - start];
      StartsWithFrame(frame) && FirstEnd(frame) == |frame| && data == bytes[start..][HEADER..end - start]
  }

  /** The bytes from `start` to `end` do not begin with such a frame, nor do all from `start` on unless a receive broke. */
  predicate TookNoFrame(bytes: Bytes, start: nat, end: nat, broken: bool) {
    && start <= end <= |bytes| && !StartsWithFrame(bytes[start..][..end - start])
    && (broken || end == |bytes| || !StartsWithFrame(bytes[start..]))
  }

  /**
   One round of the receive loop: the next frame, if it arrives complete and of acceptable length;
   otherwise what was taken holds no such frame, and what is left none either unless a receive broke.
   */
  method ReceiveFrame(fd: Socket) returns (ok: bool, data: Bytes)
    requires fd.position <= |fd.incoming|
    modifies fd
    ensures old(fd.position) <= fd.position <= |fd.incoming|
    ensures ok ==> old(fd.position) < fd.position && TookFrame(fd.incoming, old(fd.position), fd.position, data)
    ensures !ok ==> TookNoFrame(fd.incoming, old(fd.position), fd.position, fd.broken)
    ensures ok ==> fd.broken == old(fd.broken)
    ensures fd.broken && !old(fd.broken) ==> fd.calls > 0 && !fd.Moves(fd.calls - 1)
  {
    ghost var start := fd.position;
    ghost var all := fd.incoming[start..];
    hide LengthOf, Deliver;
    var netLen;
    ok, netLen := RecvRaw(fd, HEADER);
    data := [];
    if !ok {
      return;
    }
    assert netLen == all[0..HEADER] by { SliceOfRest(fd.incoming, start, 0, HEADER); }
    var len := LengthOf(netLen);
    if len == 0 || len > MAX_FRAME {
      BadLength(all, 0, HEADER);
      assert all[0..] == all;
      return false, data;
    }
    ok, data := RecvRaw(fd, len);
    GoodLength(all, 0, fd.position - start);
    if ok {
      assert data == all[HEADER..fd.position - start] by { SliceOfRest(fd.incoming, start, HEADER, fd.position - start); }
    }
  }

  lemma FrameTaken(bytes: Bytes, start: nat, from: nat, to: nat, delivered: seq<Bytes>, data: Bytes)
    requires start <= from <= |bytes| && ConsumedFrames(bytes[start..], from - start, delivered)
    requires TookFrame(bytes, from, to, data)
    ensures to <= |bytes| && ConsumedFrames(bytes[start..], to - start, delivered + [data])
  {
    RestOfRest(bytes, start, from - start, to - from);
    OneMoreFrame(bytes[start..], from - start, delivered, to - start);
    hide *;
  }

  lemma FrameMissing(bytes: Bytes, start: nat, from: nat, to: nat, delivered: seq<Bytes>, broken: bool)
    requires start <= from <= |bytes| && ConsumedFrames(bytes[start..], from - start, delivered)
    requires TookNoFrame(bytes, from, to, broken)
    ensures to <= |bytes| && delivered == Deliver(bytes[start..][..to - start])
    ensures !broken ==> delivered == Deliver(bytes[start..])
  {
    RestOfRest(bytes, start, from - start, to - from);
    LoopEnds(bytes[start..], from - start, delivered, to - start);
    hide *;
  }

  /**
   The receive loop of a client: however the socket cuts its deliveries, the payloads handed on
   are those of the bytes consumed, and if no receive failed early, those of the whole stream.
   */
  method InputReceiveLoop(fd: Socket) returns (delivered: seq<Bytes>, totalReceived: nat)
    requires fd.position <= |fd.incoming|
    modifies fd
    ensures old(fd.position) <= fd.position <= |fd.incoming|
    ensures delivered == Deliver(fd.incoming[old(fd.position)..][..fd.position - old(fd.position)])
    ensures totalReceived == |delivered|
    ensures !fd.broken ==> delivered == Deliver(fd.incoming[old(fd.position)..])
    ensures fd.broken && !old(fd.broken) ==> fd.calls > 0 && !fd.Moves(fd.calls - 1)
  {
    delivered, totalReceived := [], 0;
    ghost var start := fd.position;
    NothingConsumed(fd.incoming[start..]);
    hide *;
    while true
      invariant start <= fd.position <= |fd.incoming| && totalReceived == |delivered|
      invariant fd.broken == old(fd.broken)
      invariant ConsumedFrames(fd.incoming[start..], fd.position - start, delivered)
      decreases |fd.incoming| - fd.position
    {
      ghost var from := fd.position;
      var ok, data := ReceiveFrame(fd);
      if !ok {
        FrameMissing(fd.incoming, start, from, fd.position, delivered, fd.broken);
        break;
      }
      FrameTaken(fd.incoming, start, from, fd.position, delivered, data);
      totalReceived := totalReceived + 1;
      delivered := delivered + [data];
    }
  }

  // ---- both ends together ----------------------------------------------------------------------------

  /** What a sender leaves on the wire when message number `done` fails after `k` of its bytes. */
  lemma BrokenStreamDelivers(payloads: seq<Bytes>, done: nat, k: nat)
    requires Legal(payloads) && done < |payloads| && k < HEADER + |payloads[done]|
    ensures Deliver(Stream(payloads[..done]) + Frame(payloads[done])[..k]) == payloads[..done]
  {
    var payload := payloads[done];
    assert Legal(payloads[..done]);
    WholeStreamDelivered(payloads[..done], Frame(payload)[..k]);
    CutFirstFrame(payload, [], k);
    hide Deliver, Frame, Stream;
    assert Frame(payload) + [] == Frame(payload);
    assert payloads[..done] + [] == payloads[..done];
  }

  /**
   Messages sent over one socket and received from another that is fed what the first put on its
   wire: whatever the two sockets make of each call, the payloads handed on are a prefix of the
   messages sent with success, and all of them if no receive broke.  If every call moves something,
   all messages arrive.
   */
  method Transfer(sender: InputSender, payloads: seq<Bytes>, appetite: nat -> int)
    returns (delivered: seq<Bytes>, done: nat, ghost broken: bool)
    requires Legal(payloads) && sender.socket != null && sender.connected && sender.socket.wire == []
    modifies sender`backlog, sender`totalSent, sender.socket
    ensures done <= |payloads|
    ensures delivered <= payloads[..done]
    ensures !broken ==> delivered == payloads[..done]
    ensures (forall c: nat :: sender.socket.Moves(c)) && (forall c: nat :: appetite(c) > 0) ==> delivered == payloads
  {
    hide Deliver, Stream, Frame;
    done := sender.SendAll(payloads);
    ghost var wire := sender.socket.wire;
    assert Deliver(wire) == payloads[..done] by {
      if done == |payloads| {
        assert wire == Stream(payloads) && payloads[..done] == payloads by { assert [] + Stream(payloads) == Stream(payloads); }
        DeliveredIffLegal(payloads);
      } else {
        ghost var k :| 0 <= k < HEADER + |payloads[done]| && wire == [] + Stream(payloads[..done]) + Frame(payloads[done])[..k];
        assert [] + Stream(payloads[..done]) == Stream(payloads[..done]);
        BrokenStreamDelivers(payloads, done, k);
      }
    }
    var receiver := new Socket(appetite, sender.socket.wire);
    assert wire[0..] == wire;
    var total;
    delivered, total := InputReceiveLoop(receiver);
    broken := receiver.broken;
    assert forall c: nat :: receiver.Moves(c) <==> appetite(c) > 0;
    CutDeliversPrefix(wire, receiver.position);
  }
}
