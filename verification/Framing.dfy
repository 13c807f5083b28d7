/**
 Length-framed messages over a byte stream that may take and deliver any positive number of
 bytes at a time.
 */
module Framing {
  import opened Bytes

  /** The kinds of traffic: secure messages and video get a one-byte prefix. */
  datatype Kind = SecureMsg | VideoData | Control

  function Payload(kind: Kind, message: seq<byte>): seq<byte> {
    match kind
    case SecureMsg => [1] + message
    case VideoData => [2] + message
    case Control => message
  }

  function Frame(payload: seq<byte>): seq<byte> {
    BigEndian(|payload|, 4) + payload
  }

  function FrameAll(payloads: seq<seq<byte>>): seq<byte> {
    if payloads == [] then [] else Frame(payloads[0]) + FrameAll(payloads[1..])
  }

  /** One receive on a stream that then ends: the payload, empty on any failure, and the bytes left. */
  function DeframeOne(stream: seq<byte>, maxSize: nat): (seq<byte>, seq<byte>) {
    if |stream| < 4 then ([], [])
    else
      var size := Value(stream[..4]);
      if size > maxSize then ([], stream[4..])
      else if |stream| < 4 + size then ([], [])
      else (stream[4..4 + size], stream[4 + size..])
  }

  /** Receiving until the first empty result. */
  function DeframeAll(stream: seq<byte>, maxSize: nat): seq<seq<byte>>
    decreases |stream|
  {
    var (payload, rest) := DeframeOne(stream, maxSize);
    if payload == [] then [] else [payload] + DeframeAll(rest, maxSize)
  }

  lemma DeframeFirst(payload: seq<byte>, tail: seq<byte>, maxSize: nat)
    requires |payload| < TWO_32
    ensures DeframeOne(Frame(payload) + tail, maxSize) ==
            if |payload| > maxSize then ([], payload + tail) else (payload, tail)
  {
    var stream := Frame(payload) + tail;
    Pow256Values();
    ValueOfBigEndian(|payload|, 4);
    assert stream[..4] == BigEndian(|payload|, 4);
    assert stream[4..] == payload + tail;
    assert stream[4..4 + |payload|] == payload;
    assert stream[4 + |payload|..] == tail;
  }

  ghost predicate Receivable(payload: seq<byte>, maxSize: nat) {
    0 < |payload| <= maxSize
  }

  /** The receive loop returns exactly what was sent when, and only when, no payload is empty or oversize. */
  lemma {:induction false} FramingRoundTrip(payloads: seq<seq<byte>>, maxSize: nat)
    requires forall i :: 0 <= i < |payloads| ==> |payloads[i]| < TWO_32
    ensures DeframeAll(FrameAll(payloads), maxSize) == payloads <==>
      forall i :: 0 <= i < |payloads| ==> Receivable(payloads[i], maxSize)
    decreases |payloads|
  {
    if payloads != [] {
      var first, others := payloads[0], payloads[1..];
      DeframeFirst(first, FrameAll(others), maxSize);
      FramingRoundTrip(others, maxSize);
      assert payloads == [first] + others;
      if Receivable(first, maxSize) {
        assert DeframeAll(FrameAll(payloads), maxSize) == [first] + DeframeAll(FrameAll(others), maxSize);
      } else {
        assert DeframeAll(FrameAll(payloads), maxSize) == [];
      }
    }
  }

  /** A frame that breaks off at the end of the stream is as if it had not been started. */
  lemma {:induction false} TornFrameIsIgnored(payloads: seq<seq<byte>>, q: seq<byte>, k: nat, maxSize: nat)
    requires forall i :: 0 <= i < |payloads| ==> |payloads[i]| < TWO_32 && Receivable(payloads[i], maxSize)
    requires |q| < TWO_32 && k < 4 + |q|
    ensures DeframeAll(FrameAll(payloads) + Frame(q)[..k], maxSize) == payloads
    decreases |payloads|
  {
    var torn := Frame(q)[..k];
    if payloads == [] {
      assert FrameAll(payloads) + torn == torn;
      TornFrame(q, k, maxSize);
    } else {
      var first, others := payloads[0], payloads[1..];
      TornFrameIsIgnored(others, q, k, maxSize);
      assert FrameAll(payloads) + torn == Frame(first) + (FrameAll(others) + torn);
      DeframeFirst(first, FrameAll(others) + torn, maxSize);
      hide Frame, FrameAll, DeframeOne;
      assert payloads == [first] + others;
    }
  }

  lemma TornFrame(q: seq<byte>, k: nat, maxSize: nat)
    requires |q| < TWO_32 && k < 4 + |q|
    ensures DeframeOne(Frame(q)[..k], maxSize).0 == []
  {
    if k >= 4 {
      Pow256Values();
      ValueOfBigEndian(|q|, 4);
      assert Frame(q)[..k][..4] == BigEndian(|q|, 4);
    }
  }

  // --- The transport ---

  /** A message with its kind, as it waits in the send queue. */
  datatype Message = Message(kind: Kind, body: seq<byte>)

  function MaxSize(kind: Kind, maxControl: nat, maxFrame: nat): nat {
    if kind == VideoData then maxFrame else maxControl
  }

  /** The payloads of the messages that keep the limit of their kind, in order. */
  function Sendable(items: seq<Message>, maxControl: nat, maxFrame: nat): seq<seq<byte>> {
    if items == [] then []
    else
      var payload := Payload(items[0].kind, items[0].body);
      (if |payload| <= MaxSize(items[0].kind, maxControl, maxFrame) then [payload] else [])
      + Sendable(items[1..], maxControl, maxFrame)
  }

  lemma FrameAllOfFirst(first: seq<byte>, others: seq<seq<byte>>)
    ensures FrameAll([first] + others) == Frame(first) + FrameAll(others)
  {
    assert ([first] + others)[1..] == others;
  }

  /** Of the bytes to be sent, the next frame comes first, and any part of it is on the way. */
  lemma NextFrame(before: seq<byte>, first: seq<byte>, others: seq<seq<byte>>, total: seq<byte>)
    requires before + FrameAll([first] + others) == total
    ensures before + Frame(first) + FrameAll(others) == total
    ensures forall k :: 0 <= k <= |Frame(first)| ==> before + Frame(first)[..k] <= total
  {
    FrameAllOfFirst(first, others);
    hide FrameAll, Frame;
    assert total == before + Frame(first) + FrameAll(others);
  }

  /** The TLS connection: bytes written but not yet read by the peer, and bytes still to be read. */
  class TlsChannel {
    var outgoing: seq<byte>
    var incoming: seq<byte>
    var connected: bool
    var healthy: bool

    /** Reads and writes make progress; otherwise they may also fail while the connection is up. */
    predicate Up()
      reads this`connected, this`healthy
    {
      connected && healthy
    }

    /** Takes some of the bytes. */
    method Write(data: seq<byte>) returns (w: int)
      requires data != []
      modifies this`outgoing
      ensures w <= |data| && (Up() ==> w > 0)
      ensures outgoing == old(outgoing) + data[..if w > 0 then w else 0]
    {
      w := *;
      if w > |data| || (Up() && w <= 0) {
        w := 1;
      }
      if w > 0 {
        outgoing := outgoing + data[..w];
      } else {
        assert outgoing + data[..0] == outgoing;
      }
    }

    /** Delivers some of the next `len` bytes. */
    method Read(len: nat) returns (r: int, chunk: seq<byte>)
      requires len > 0
      modifies this`incoming
      ensures r <= len && (r > 0 <==> chunk != []) && (r > 0 ==> |chunk| == r)
      ensures Up() && old(incoming) != [] ==> r > 0
      ensures old(incoming) == chunk + incoming
    {
      r := *;
      if r > len || r > |incoming| || (Up() && incoming != [] && r <= 0) {
        r := if incoming == [] then 0 else 1;
      }
      chunk := if r > 0 then incoming[..r] else [];
      incoming := incoming[|chunk|..];
    }

    method Close()
      modifies this`connected
      ensures !connected
    {
      connected := false;
    }
  }

  class Transport {
    const tls: TlsChannel
    const maxControlMsgBytes: nat
    const maxFrameBytes: nat
    var connected: bool
    var transportFailed: bool
    var sendRunning: bool
    var telemetryRunning: bool
    var videoRunning: bool

    /** Sizes that survive the casts to `int` of the transport functions. */
    ghost predicate PolicyFits() {
      maxControlMsgBytes + 4 < TWO_31 && maxFrameBytes + 4 < TWO_31
    }

    /** What a message needs to be sent: the TLS connection is up, and no failure has been noted. */
    predicate Ready()
      reads this`connected, this`transportFailed, this`sendRunning, tls`connected, tls`healthy
    {
      tls.Up() && connected && !transportFailed && sendRunning
    }

    constructor (tls: TlsChannel, maxControlMsgBytes: nat, maxFrameBytes: nat)
      ensures this.tls == tls && this.maxControlMsgBytes == maxControlMsgBytes && this.maxFrameBytes == maxFrameBytes
      ensures connected && !transportFailed && sendRunning
    {
      this.tls, this.maxControlMsgBytes, this.maxFrameBytes := tls, maxControlMsgBytes, maxFrameBytes;
      connected, transportFailed := true, false;
      sendRunning, telemetryRunning, videoRunning := true, true, true;
    }

    /** Every worker is told to stop, and TLS is closed. */
    method MarkTransportFailure()
      modifies this, tls`connected
      ensures transportFailed && !connected && !tls.connected
      ensures !sendRunning && !telemetryRunning && !videoRunning
    {
      connected, transportFailed := false, true;
      sendRunning, telemetryRunning, videoRunning := false, false, false;
      tls.Close();
    }

    /** Writes all bytes over however many partial writes it takes, or gives up. */
    method TransportWriteAll(data: seq<byte>) returns (n: int)
      modifies this, tls`outgoing, tls`connected
      ensures n == -1 || n == |data|
      ensures n == |data| ==> tls.outgoing == old(tls.outgoing) + data
      ensures n == -1 ==> exists k :: 0 <= k < |data| && tls.outgoing == old(tls.outgoing) + data[..k]
      ensures old(tls.Up()) ==> n == |data|
      ensures old(Ready()) ==> Ready()
    {
      var total := 0;
      assert data[..0] == [];
      while total < |data|
        invariant 0 <= total <= |data|
        invariant tls.outgoing == old(tls.outgoing) + data[..total]
        invariant old(tls.Up()) ==> tls.Up()
        invariant old(Ready()) ==> Ready()
        decreases |data| - total
      {
        if !tls.connected {
          MarkTransportFailure();
          return -1;
        }
        var w := tls.Write(data[total..]);
        if w <= 0 {
          return -1;
        }
        assert data[..total] + data[total..][..w] == data[..total + w];
        total := total + w;
      }
      assert data[..total] == data;
      return total;
    }

    /** Reads exactly `len` bytes over however many partial reads it takes, or fails. */
    method TransportReadAll(len: nat) returns (n: int, data: seq<byte>)
      modifies this, tls`incoming, tls`connected
      ensures n == -1 || n == len
      ensures n == len ==> |data| == len && old(tls.incoming) == data + tls.incoming
      ensures n == -1 ==> transportFailed && !tls.connected
      ensures old(tls.Up()) && n == len ==> tls.Up()
      ensures old(tls.Up()) ==> (n == len <==> |old(tls.incoming)| >= len)
      ensures old(tls.Up()) && n == -1 ==> tls.incoming == []
    {
      data := [];
      var total := 0;
      while total < len
        invariant 0 <= total <= len && |data| == total
        invariant old(tls.incoming) == data + tls.incoming
        invariant old(tls.Up()) ==> tls.Up()
        decreases len - total
      {
        if !tls.connected {
          MarkTransportFailure();
          return -1, data;
        }
        ghost var before := tls.incoming;
        var r, chunk := tls.Read(len - total);
        if r <= 0 {
          MarkTransportFailure();
          return -1, data;
        }
        data := data + chunk;
        assert data + tls.incoming == old(tls.incoming);
        total := total + r;
      }
      return total, data;
    }

    function Limit(kind: Kind): nat {
      MaxSize(kind, maxControlMsgBytes, maxFrameBytes)
    }

    /** Sends one frame; an oversize payload is refused before anything is written. */
    method SendMessage(message: seq<byte>, kind: Kind) returns (ok: bool)
      requires PolicyFits()
      modifies this, tls`outgoing, tls`connected
      ensures ok ==> tls.outgoing == old(tls.outgoing) + Frame(Payload(kind, message))
      ensures old(Ready()) ==> Ready() && (ok <==> |Payload(kind, message)| <= Limit(kind))
      ensures !ok && |Payload(kind, message)| <= Limit(kind) ==> !connected || transportFailed
      ensures |Payload(kind, message)| > Limit(kind) ==> tls.outgoing == old(tls.outgoing) && !ok
      ensures !ok ==>
        exists k :: 0 <= k < 4 + |Payload(kind, message)|
                    && tls.outgoing == old(tls.outgoing) + Frame(Payload(kind, message))[..k]
    {
      ghost var frame := Frame(Payload(kind, message));
      assert frame[..0] == [];
      if transportFailed || !connected {
        return false;
      }
      var payload := match kind
        case SecureMsg => [1] + message
        case VideoData => [2] + message
        case Control => message;
      if |payload| > Limit(kind) {
        return false;
      }
      var fullData := AppendU32([], |payload|);
      fullData := fullData + payload;
      assert fullData == frame;
      var sent := TransportWriteAll(fullData);
      if sent < 0 || sent != |fullData| {
        MarkTransportFailure();
        return false;
      }
      return true;
    }

    /** Receives one frame; the empty string stands for every failure. */
    method ReceiveMessage() returns (data: seq<byte>)
      requires PolicyFits()
      modifies this, tls`incoming, tls`connected
      ensures old(tls.Up()) ==> (data, tls.incoming) == DeframeOne(old(tls.incoming), maxControlMsgBytes)
      ensures old(tls.Up()) && data != [] ==> tls.Up()
      ensures data != [] ==> |tls.incoming| < |old(tls.incoming)|
    {
      ghost var stream := tls.incoming;
      var n, header := TransportReadAll(4);
      if n != 4 {
        return [];
      }
      assert stream[..4] == header && stream[4..] == tls.incoming;
      Value4(header);
      var expectedSize :=
        header[0] as int * 0x100_0000 + header[1] as int * 0x1_0000 + header[2] as int * 256 + header[3] as int;
      if expectedSize > maxControlMsgBytes {
        return [];
      }
      data := [];
      if expectedSize > 0 {
        n, data := TransportReadAll(expectedSize);
        if n != expectedSize {
          return [];
        }
        assert stream[4..4 + expectedSize] == data && stream[4 + expectedSize..] == tls.incoming;
      } else {
        assert stream[4..4 + expectedSize] == data;
      }
    }

    /** What the connection has carried when all of a queue is sent. */
    ghost function AllSent(before: seq<byte>, items: seq<Message>): seq<byte> {
      before + FrameAll(Sendable(items, maxControlMsgBytes, maxFrameBytes))
    }

    /**
     The send loop on a queue that nobody else touches: an oversize message is skipped.  If the
     connection breaks, what went out is the beginning of what would have.
     */
    method SendLoop(items: seq<Message>)
      requires PolicyFits()
      modifies this, tls`outgoing, tls`connected
      ensures old(Ready()) ==> Ready() && tls.outgoing == AllSent(old(tls.outgoing), items)
      ensures old(tls.outgoing) <= tls.outgoing <= AllSent(old(tls.outgoing), items)
    {
      ghost var total := AllSent(tls.outgoing, items);
      var queue := items;
      while queue != [] && sendRunning && connected && !transportFailed
        invariant old(Ready()) ==> Ready()
        invariant old(tls.outgoing) <= tls.outgoing <= total
        invariant connected && !transportFailed ==> AllSent(tls.outgoing, queue) == total
        decreases |queue|
      {
        hide AllSent;
        var item := queue[0];
        NextMessage(tls.outgoing, queue, total);
        queue := queue[1..];
        var sent := SendMessage(item.body, item.kind);
      }
    }

    /** The three ways of sending the first message of a queue, before what is still to come. */
    lemma NextMessage(before: seq<byte>, queue: seq<Message>, total: seq<byte>)
      requires queue != [] && AllSent(before, queue) == total
      ensures var kind, payload := queue[0].kind, Payload(queue[0].kind, queue[0].body);
        if |payload| > Limit(kind) then AllSent(before, queue[1..]) == total
        else
          && AllSent(before + Frame(payload), queue[1..]) == total
          && forall k :: 0 <= k <= |Frame(payload)| ==> before + Frame(payload)[..k] <= total
    {
      var kind, payload := queue[0].kind, Payload(queue[0].kind, queue[0].body);
      var others := Sendable(queue[1..], maxControlMsgBytes, maxFrameBytes);
      if |payload| > Limit(kind) {
        assert [] + others == others;
      } else {
        NextFrame(before, payload, others, total);
      }
      hide Frame, FrameAll;
    }

    /** Receives until the first empty result. */
    method ReceiveLoop() returns (payloads: seq<seq<byte>>)
      requires PolicyFits()
      modifies this, tls`incoming, tls`connected
      ensures old(tls.Up()) ==> payloads == DeframeAll(old(tls.incoming), maxControlMsgBytes)
    {
      payloads := [];
      while true
        invariant old(tls.Up()) ==>
          tls.Up() && payloads + DeframeAll(tls.incoming, maxControlMsgBytes) ==
                      DeframeAll(old(tls.incoming), maxControlMsgBytes)
        decreases |tls.incoming|
      {
        ghost var before := tls.incoming;
        var data := ReceiveMessage();
        if data == [] {
          break;
        }
        payloads := payloads + [data];
      }
    }
  }

  // --- Both ends ---

  /** A queue is sent, the bytes travel, and the peer receives until it gets nothing. */
  method Exchange(sender: Transport, receiver: Transport, items: seq<Message>) returns (received: seq<seq<byte>>)
    requires sender != receiver && sender.tls != receiver.tls && sender.PolicyFits() && receiver.PolicyFits()
    requires sender.Ready() && receiver.tls.Up() && sender.tls.outgoing == []
    requires forall i :: 0 <= i < |items| ==> Deliverable(items[i], sender, receiver)
    modifies sender, receiver, sender.tls, receiver.tls
    ensures received == seq(|items|, i requires 0 <= i < |items| => Payload(items[i].kind, items[i].body))
  {
    var maxControl, maxFrame := sender.maxControlMsgBytes, sender.maxFrameBytes;
    SendableIsAll(items, maxControl, maxFrame);
    sender.SendLoop(items);
    assert sender.tls.outgoing == FrameAll(Sendable(items, maxControl, maxFrame));
    receiver.tls.incoming := sender.tls.outgoing;
    FramingRoundTrip(Sendable(items, maxControl, maxFrame), receiver.maxControlMsgBytes);
    received := receiver.ReceiveLoop();
  }

  /** Within the sender's limit for its kind and the receiver's for everything, and not empty. */
  ghost predicate Deliverable(item: Message, sender: Transport, receiver: Transport) {
    var payload := Payload(item.kind, item.body);
    && |payload| <= (if item.kind == VideoData then sender.maxFrameBytes else sender.maxControlMsgBytes)
    && Receivable(payload, receiver.maxControlMsgBytes)
  }

  lemma {:induction false} SendableIsAll(items: seq<Message>, maxControl: nat, maxFrame: nat)
    requires forall i :: 0 <= i < |items| ==>
      |Payload(items[i].kind, items[i].body)| <= MaxSize(items[i].kind, maxControl, maxFrame)
    ensures Sendable(items, maxControl, maxFrame) ==
      seq(|items|, i requires 0 <= i < |items| => Payload(items[i].kind, items[i].body))
    decreases |items|
  {
    if items != [] {
      SendableIsAll(items[1..], maxControl, maxFrame);
    }
  }
}
