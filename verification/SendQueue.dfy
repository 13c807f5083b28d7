/** The bounded send queue, which gives up video to keep other traffic. */
module SendQueue {
  import opened Framing

  datatype Entry<T> = Entry(body: T, kind: Kind)

  /** The position of the oldest video entry, or the length if there is none. */
  function FirstVideo<T>(queue: seq<Entry<T>>): (i: nat)
    ensures i <= |queue|
    ensures i < |queue| ==> queue[i].kind == VideoData
    ensures forall k :: 0 <= k < i ==> queue[k].kind != VideoData
  {
    if queue == [] then 0
    else if queue[0].kind == VideoData then 0
    else 1 + FirstVideo(queue[1..])
  }

  function Without<T>(queue: seq<Entry<T>>, i: nat): seq<Entry<T>>
    requires i < |queue|
  {
    queue[..i] + queue[i + 1..]
  }

  function EnqueueSpec<T>(queue: seq<Entry<T>>, e: Entry<T>, max: nat): (seq<Entry<T>>, bool) {
    if |queue| < max then (queue + [e], true)
    else if e.kind == VideoData || FirstVideo(queue) == |queue| then (queue, false)
    else (Without(queue, FirstVideo(queue)) + [e], true)
  }

  /** The entries other than video, in order. */
  function Preserved<T>(queue: seq<Entry<T>>): seq<Entry<T>> {
    if queue == [] then []
    else if queue[0].kind == VideoData then Preserved(queue[1..])
    else [queue[0]] + Preserved(queue[1..])
  }

  lemma {:induction false} PreservedOfConcat<T>(a: seq<Entry<T>>, b: seq<Entry<T>>)
    ensures Preserved(a + b) == Preserved(a) + Preserved(b)
    decreases |a|
  {
    if a == [] {
      assert a + b == b;
    } else {
      assert (a + b)[1..] == a[1..] + b;
      PreservedOfConcat(a[1..], b);
    }
  }

  lemma PreservedWithout<T>(queue: seq<Entry<T>>, i: nat)
    requires i < |queue| && queue[i].kind == VideoData
    ensures Preserved(Without(queue, i)) == Preserved(queue)
  {
    var head, mid, tail := queue[..i], [queue[i]], queue[i + 1..];
    assert queue == head + (mid + tail);
    PreservedOfConcat(head, mid + tail);
    PreservedOfConcat(mid, tail);
    PreservedOfConcat(head, tail);
    assert Preserved(mid) == [];
  }

  /** Eviction removes only video: everything else stays, in order, and what was accepted comes last. */
  lemma EnqueueKeepsTheRest<T>(queue: seq<Entry<T>>, e: Entry<T>, max: nat)
    ensures var (next, ok) := EnqueueSpec(queue, e, max);
      && Preserved(next) == Preserved(queue) + (if ok && e.kind != VideoData then [e] else [])
      && (|queue| <= max ==> |next| <= max)
  {
    var (next, ok) := EnqueueSpec(queue, e, max);
    var i := FirstVideo(queue);
    if ok {
      var kept := if |queue| < max then queue else Without(queue, i);
      if |queue| >= max {
        PreservedWithout(queue, i);
      }
      PreservedOfConcat(kept, [e]);
      assert Preserved([e]) == if e.kind == VideoData then [] else [e];
    }
  }

  /** Traffic other than video is refused only by a full queue without video. */
  lemma RefusedOnlyWithoutVideo<T>(queue: seq<Entry<T>>, e: Entry<T>, max: nat)
    requires e.kind != VideoData
    ensures !EnqueueSpec(queue, e, max).1 <==> |queue| >= max && Preserved(queue) == queue
  {
    PreservedIsAll(queue);
  }

  lemma {:induction false} PreservedIsAll<T>(queue: seq<Entry<T>>)
    ensures |Preserved(queue)| <= |queue|
    ensures Preserved(queue) == queue <==> FirstVideo(queue) == |queue|
    decreases |queue|
  {
    if queue != [] {
      PreservedIsAll(queue[1..]);
      assert queue == [queue[0]] + queue[1..];
      if queue[0].kind != VideoData && Preserved(queue) == queue {
        assert Preserved(queue)[1..] == Preserved(queue[1..]);
      }
    }
  }

  /** The video entries, in order. */
  function Videos<T>(queue: seq<Entry<T>>): seq<Entry<T>> {
    if queue == [] then [] else VideoOf(queue[0]) + Videos(queue[1..])
  }

  function VideoOf<T>(e: Entry<T>): seq<Entry<T>> {
    if e.kind == VideoData then [e] else []
  }

  lemma {:induction false} VideosOfConcat<T>(a: seq<Entry<T>>, b: seq<Entry<T>>)
    ensures Videos(a + b) == Videos(a) + Videos(b)
    decreases |a|
  {
    if a == [] {
      assert a + b == b;
    } else {
      hide VideoOf;
      assert (a + b)[0] == a[0] && (a + b)[1..] == a[1..] + b;
      VideosOfConcat(a[1..], b);
    }
  }

  lemma {:induction false} FirstVideoIsOldest<T>(queue: seq<Entry<T>>)
    ensures FirstVideo(queue) == |queue| <==> Videos(queue) == []
    ensures FirstVideo(queue) < |queue| ==> Videos(Without(queue, FirstVideo(queue))) == Videos(queue)[1..]
    decreases |queue|
  {
    if queue != [] {
      FirstVideoIsOldest(queue[1..]);
      var i := FirstVideo(queue);
      if queue[0].kind == VideoData {
        assert Without(queue, i) == queue[1..];
      } else if i < |queue| {
        assert Without(queue, i) == [queue[0]] + Without(queue[1..], i - 1);
        VideosOfConcat([queue[0]], Without(queue[1..], i - 1));
      }
    }
  }

  /**
   Exactly when an entry is accepted, and what becomes of the video: with room everything is
   accepted and nothing lost; a full queue takes no video, and gives up its oldest for the rest.
   */
  lemma EnqueueOnVideo<T>(queue: seq<Entry<T>>, e: Entry<T>, max: nat)
    ensures var (next, ok) := EnqueueSpec(queue, e, max);
      && (ok <==> |queue| < max || (e.kind != VideoData && Videos(queue) != []))
      && (if ok then next != [] && next[|next| - 1] == e else next == queue)
      && Videos(next) ==
         (if ok && |queue| >= max then Videos(queue)[1..] else Videos(queue))
         + (if ok && e.kind == VideoData then [e] else [])
  {
    FirstVideoIsOldest(queue);
    var i := FirstVideo(queue);
    VideosOfConcat(queue, [e]);
    assert Videos([e]) == if e.kind == VideoData then [e] else [];
    if i < |queue| {
      VideosOfConcat(Without(queue, i), [e]);
    }
  }

  class SendQueue<T(0)> {
    const sendQueueMax: nat
    var sendQueue: seq<Entry<T>>
    var connected: bool
    var transportFailed: bool
    var droppedVideoFrames: nat
    var preservedControlMessages: nat

    constructor (videoSendQueueMax: nat)
      ensures sendQueueMax == (if videoSendQueueMax > 8 then videoSendQueueMax else 8)
      ensures sendQueue == [] && connected && !transportFailed
    {
      sendQueueMax := if videoSendQueueMax > 8 then videoSendQueueMax else 8;
      sendQueue, connected, transportFailed := [], true, false;
      droppedVideoFrames, preservedControlMessages := 0, 0;
    }

    /** The linear search for an entry to evict. */
    method FindVideo() returns (i: nat)
      ensures i == FirstVideo(sendQueue)
    {
      i := 0;
      while i < |sendQueue| && sendQueue[i].kind != VideoData
        invariant i <= |sendQueue|
        invariant i + FirstVideo(sendQueue[i..]) == FirstVideo(sendQueue)
      {
        assert sendQueue[i..][1..] == sendQueue[i + 1..];
        i := i + 1;
      }
    }

    method EnqueueMessage(data: T, kind: Kind) returns (ok: bool)
      modifies this
      ensures connected == old(connected) && transportFailed == old(transportFailed)
      ensures !connected || transportFailed ==> !ok && sendQueue == old(sendQueue)
      ensures connected && !transportFailed ==>
        (sendQueue, ok) == EnqueueSpec(old(sendQueue), Entry(data, kind), sendQueueMax)
      ensures droppedVideoFrames - old(droppedVideoFrames) ==
        (if connected && !transportFailed && |old(sendQueue)| >= sendQueueMax && (ok || kind == VideoData)
         then 1 else 0)
      ensures preservedControlMessages - old(preservedControlMessages) ==
        (if ok && |old(sendQueue)| >= sendQueueMax then 1 else 0)
    {
      if transportFailed || !connected {
        return false;
      }
      if |sendQueue| >= sendQueueMax {
        if kind == VideoData {
          droppedVideoFrames := droppedVideoFrames + 1;
          return false;
        }
        var video := FindVideo();
        if video == |sendQueue| {
          return false;
        }
        sendQueue := sendQueue[..video] + sendQueue[video + 1..];
        droppedVideoFrames := droppedVideoFrames + 1;
        preservedControlMessages := preservedControlMessages + 1;
      }
      sendQueue := sendQueue + [Entry(data, kind)];
      return true;
    }

    /** The locked part of one turn of the send loop. */
    method TakeFront() returns (item: Entry<T>)
      requires sendQueue != []
      modifies this`sendQueue
      ensures [item] + sendQueue == old(sendQueue)
    {
      item := sendQueue[0];
      sendQueue := sendQueue[1..];
    }

    method MarkTransportFailure()
      modifies this
      ensures !connected && transportFailed && sendQueue == []
      ensures droppedVideoFrames == old(droppedVideoFrames) && preservedControlMessages == old(preservedControlMessages)
    {
      connected, transportFailed := false, true;
      sendQueue := [];
    }
  }
}
