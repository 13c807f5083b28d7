/**
 All interleavings of the threads that produce secure messages and video, of the send loop,
 and of transport failures.  Each section that runs under a mutex is one step.
 */
module WireOrder {
  import opened Bytes
  import opened Wrappers
  import opened ReplayWindow
  import opened SecureChannel
  import opened ChannelRuns
  import opened MessageChain
  import opened MessageText
  import opened Framing
  import opened SendQueue

  // --- Subsequences ---

  ghost predicate Embeds<T>(a: seq<T>, b: seq<T>, f: seq<nat>) {
    && |f| == |a|
    && (forall i :: 0 <= i < |f| ==> f[i] < |b| && b[f[i]] == a[i])
    && forall i, j :: 0 <= i < j < |f| ==> f[i] < f[j]
  }

  /** a is b with some elements left out. */
  ghost predicate Subsequence<T>(a: seq<T>, b: seq<T>) {
    exists f :: Embeds(a, b, f)
  }

  lemma NothingIsOrdered<T>()
    ensures Ordered<T>([], [], [], [], [], false)
  {
    var none: seq<T> := [];
    var f: seq<nat> := [];
    assert Embeds(none, none, f);
    assert none + none + none + none == none;
  }

  lemma SubsequenceGrows<T>(a: seq<T>, b: seq<T>, x: T)
    requires Subsequence(a, b)
    ensures Subsequence(a + [x], b + [x])
  {
    var f :| Embeds(a, b, f);
    var n: nat := |b|;
    var last: seq<nat> := [n];
    assert Embeds(a + [x], b + [x], f + last);
  }

  lemma SubsequenceLoses<T>(a: seq<T>, gone: seq<T>, c: seq<T>, b: seq<T>)
    requires Subsequence(a + gone + c, b)
    ensures Subsequence(a + c, b)
  {
    var f :| Embeds(a + gone + c, b, f);
    var g: seq<nat> := f[..|a|] + f[|a| + |gone|..];
    forall i | 0 <= i < |g| ensures g[i] < |b| && b[g[i]] == (a + c)[i] {
      var k := if i < |a| then i else i + |gone|;
      assert g[i] == f[k] && (a + gone + c)[k] == (a + c)[i];
    }
    assert Embeds(a + c, b, g);
  }

  /**
   Of everything produced, w is written, t taken, q queued and p still with its producer; only
   if something was lost is this not all.
   */
  ghost predicate Ordered<T>(w: seq<T>, t: seq<T>, q: seq<T>, p: seq<T>, history: seq<T>, lost: bool) {
    Subsequence(w + t + q + p, history) && (!lost ==> w + t + q + p == history)
  }

  lemma ProduceOrdered<T>(w: seq<T>, t: seq<T>, q: seq<T>, history: seq<T>, lost: bool, m: T)
    requires Ordered(w, t, q, [], history, lost)
    ensures Ordered(w, t, q, [m], history + [m], lost)
  {
    SubsequenceGrows(w + t + q + [], history, m);
    hide Subsequence;
    assert w + t + q + [] + [m] == w + t + q + [m];
  }

  lemma PushOrdered<T>(w: seq<T>, t: seq<T>, q: seq<T>, p: seq<T>, history: seq<T>, lost: bool)
    requires Ordered(w, t, q, p, history, lost)
    ensures Ordered(w, t, q + p, [], history, lost)
  {
    hide Subsequence;
    assert w + t + (q + p) + [] == w + t + q + p;
  }

  lemma RefuseOrdered<T>(w: seq<T>, t: seq<T>, q: seq<T>, p: seq<T>, history: seq<T>, lost: bool)
    requires Ordered(w, t, q, p, history, lost)
    ensures Ordered(w, t, q, [], history, true)
  {
    hide Subsequence;
    assert w + t + q + p + [] == w + t + q + p;
    SubsequenceLoses(w + t + q, p, [], history);
  }

  lemma ClearOrdered<T>(w: seq<T>, t: seq<T>, q: seq<T>, p: seq<T>, history: seq<T>, lost: bool)
    requires Ordered(w, t, q, p, history, lost)
    ensures Ordered(w, t, [], p, history, lost || q != [])
  {
    hide Subsequence;
    SubsequenceLoses(w + t, q, p, history);
    assert w + t + [] + p == w + t + p;
  }

  lemma DropOrdered<T>(w: seq<T>, t: seq<T>, q: seq<T>, p: seq<T>, history: seq<T>, lost: bool)
    requires Ordered(w, t, q, p, history, lost)
    ensures Ordered(w, [], q, p, history, lost || t != [])
  {
    hide Subsequence;
    assert w + t + (q + p) == w + t + q + p;
    SubsequenceLoses(w, t, q + p, history);
    assert w + [] + q + p == w + (q + p);
    if t == [] {
      assert w + t == w + [];
    }
  }

  lemma TakeOrdered<T>(w: seq<T>, t: seq<T>, q: seq<T>, p: seq<T>, history: seq<T>, lost: bool)
    requires Ordered(w, [], t + q, p, history, lost)
    ensures Ordered(w, t, q, p, history, lost)
  {
    hide Subsequence;
    assert w + [] + (t + q) + p == w + t + q + p;
  }

  lemma WriteOrdered<T>(w: seq<T>, t: seq<T>, q: seq<T>, p: seq<T>, history: seq<T>, lost: bool)
    requires Ordered(w, t, q, p, history, lost)
    ensures Ordered(w + t, [], q, p, history, lost)
  {
    hide Subsequence;
    assert w + t + [] + q + p == w + t + q + p;
  }

  lemma WrittenIsOrdered<T>(w: seq<T>, t: seq<T>, q: seq<T>, p: seq<T>, history: seq<T>, lost: bool)
    requires Ordered(w, t, q, p, history, lost)
    ensures Subsequence(w, history) && (!lost ==> w <= history)
  {
    hide Subsequence;
    assert w + (t + q + p) + [] == w + t + q + p;
    SubsequenceLoses(w, t + q + p, [], history);
    assert w + [] == w;
  }

  // --- The state ---

  /** A queue entry is a secure message or a video frame. */
  type Item = Entry<Option<Sent>>

  function Secure(m: Sent): Item {
    Entry(Some(m), SecureMsg)
  }

  const VIDEO: Item := Entry(None, VideoData)

  /** The secure messages among some entries, in order. */
  function Messages(items: seq<Item>): seq<Sent> {
    if items == [] then [] else MessageOf(items[0]) + Messages(items[1..])
  }

  function MessageOf(item: Item): seq<Sent> {
    if item.body.Some? then [item.body.value] else []
  }

  datatype Net = Net(
    chain: Chain,            // last_block_hash, seq and the channel
    history: seq<Sent>,      // every message produced, in the order in which the chain advanced
    holder: Option<nat>,     // the thread inside secure_send_mutex
    pending: seq<Sent>,      // what it has produced and not yet handed over
    queue: seq<Item>,
    taken: seq<Item>,        // what the send loop has taken and not yet written
    wire: seq<Item>,         // what has been written
    torn: seq<Item>,         // what the connection broke in the middle of
    running: bool,           // connected, and no transport failure noted
    lost: bool)              // a secure message was refused, cleared or not written

  datatype WriteOutcome = Written | TooLarge | Broke

  datatype Action =
    | Acquire(thread: nat)
    | Produce(thread: nat, msgType: seq<byte>, json: seq<byte>, fault: Fault)
    | Refuse(thread: nat)
    | Push(thread: nat)
    | PushVideo
    | Take
    | Write(outcome: WriteOutcome)
    | FailTransport
    | ClearQueue

  /**
   One step; an action that is not enabled changes nothing.  The flags are read before the
   queue is locked, so a push may also follow a failure.
   */
  function Step(s: Session, max: nat, net: Net, action: Action): Net {
    match action
    case Acquire(t) =>
      if net.holder.None? then net.(holder := Some(t)) else net
    case Produce(t, msgType, json, fault) =>
      if net.holder != Some(t) || net.pending != [] then net
      else
        var (chain, r) := SendSpec(s, net.chain, msgType, json, fault);
        if r.Ok? then net.(chain := chain, history := net.history + [r.value], pending := [r.value])
        else net.(chain := chain, holder := None)
    case Refuse(t) =>
      if net.holder != Some(t) || net.pending == [] || net.running then net
      else net.(pending := [], holder := None, lost := true)
    case Push(t) =>
      if net.holder != Some(t) || net.pending == [] then net
      else
        var (queue, ok) := EnqueueSpec(net.queue, Secure(net.pending[0]), max);
        net.(queue := queue, pending := [], holder := None, lost := net.lost || !ok)
    case PushVideo =>
      net.(queue := EnqueueSpec(net.queue, VIDEO, max).0)
    case Take =>
      if !net.running || net.taken != [] || net.queue == [] then net
      else net.(taken := [net.queue[0]], queue := net.queue[1..])
    case Write(outcome) =>
      if net.taken == [] then net
      else if outcome == Written then net.(wire := net.wire + net.taken, taken := [])
      else
        var dropped := net.(taken := [], lost := net.lost || Messages(net.taken) != []);
        if outcome == Broke then dropped.(torn := net.taken, running := false) else dropped
    case FailTransport => net.(running := false)
    case ClearQueue => net.(queue := [], lost := net.lost || Messages(net.queue) != [])
  }

  function Run(s: Session, max: nat, start: Chain, actions: seq<Action>): Net {
    if actions == [] then Net(start, [], None, [], [], [], [], [], true, false)
    else Step(s, max, Run(s, max, start, actions[..|actions| - 1]), actions[|actions| - 1])
  }

  // --- The invariant ---

  predicate IsItem(item: Item) {
    item.kind == if item.body.Some? then SecureMsg else VideoData
  }

  ghost predicate Typed(items: seq<Item>) {
    forall i :: 0 <= i < |items| ==> IsItem(items[i])
  }

  ghost predicate OrderInvariant(net: Net) {
    Ordered(Messages(net.wire), Messages(net.taken), Messages(net.queue), net.pending, net.history, net.lost)
  }

  ghost predicate ShapeInvariant(max: nat, net: Net) {
    && |net.queue| <= max && |net.taken| <= 1 && |net.pending| <= 1
    && Typed(net.queue) && Typed(net.taken) && Typed(net.wire) && Typed(net.torn)
    && |net.torn| <= 1 && (net.torn != [] ==> !net.running && net.taken == [])
    && (net.pending != [] ==> net.holder.Some?)
  }

  lemma {:induction false} MessagesOfConcat(a: seq<Item>, b: seq<Item>)
    ensures Messages(a + b) == Messages(a) + Messages(b)
    decreases |a|
  {
    if a == [] {
      assert a + b == b;
    } else {
      hide MessageOf;
      assert (a + b)[0] == a[0] && (a + b)[1..] == a[1..] + b;
      MessagesOfConcat(a[1..], b);
    }
  }

  /** Messages are found among the entries that eviction spares. */
  lemma {:induction false} MessagesArePreserved(items: seq<Item>)
    requires Typed(items)
    ensures Messages(items) == Messages(Preserved(items))
    decreases |items|
  {
    if items != [] {
      MessagesArePreserved(items[1..]);
      if items[0].kind != VideoData {
        MessagesOfConcat([items[0]], Preserved(items[1..]));
      }
    }
  }

  lemma EnqueueStaysTyped(queue: seq<Item>, e: Item, max: nat)
    requires Typed(queue) && IsItem(e)
    ensures Typed(EnqueueSpec(queue, e, max).0)
  {
  }

  lemma EnqueueOnMessages(queue: seq<Item>, e: Item, max: nat)
    requires Typed(queue) && IsItem(e)
    ensures var (next, ok) := EnqueueSpec(queue, e, max);
      Messages(next) == Messages(queue) + (if ok && e.body.Some? then [e.body.value] else [])
  {
    EnqueueKeepsTheRest(queue, e, max);
    EnqueueStaysTyped(queue, e, max);
    hide EnqueueSpec;
    var next := EnqueueSpec(queue, e, max).0;
    MessagesArePreserved(queue);
    MessagesArePreserved(next);
    hide Typed;
    MessagesOfConcat(Preserved(queue), [e]);
    assert Messages([e]) == if e.body.Some? then [e.body.value] else [];
    assert Preserved(queue) + [] == Preserved(queue);
  }

  lemma StepKeepsShape(s: Session, max: nat, net: Net, action: Action)
    requires ShapeInvariant(max, net)
    ensures ShapeInvariant(max, Step(s, max, net, action))
  {
    hide SendSpec;
    match action
    case Push(t) =>
      if net.pending != [] {
        EnqueueStaysTyped(net.queue, Secure(net.pending[0]), max);
        EnqueueKeepsTheRest(net.queue, Secure(net.pending[0]), max);
      }
    case PushVideo =>
      EnqueueStaysTyped(net.queue, VIDEO, max);
      EnqueueKeepsTheRest(net.queue, VIDEO, max);
    case _ =>
  }

  lemma ProduceKeepsOrder(s: Session, max: nat, net: Net, action: Action)
    requires OrderInvariant(net) && action.Produce?
    ensures OrderInvariant(Step(s, max, net, action))
  {
    hide Ordered, SendSpec, Messages;
    var (chain, r) := SendSpec(s, net.chain, action.msgType, action.json, action.fault);
    if net.holder == Some(action.thread) && net.pending == [] && r.Ok? {
      ProduceOrdered(Messages(net.wire), Messages(net.taken), Messages(net.queue), net.history, net.lost, r.value);
    }
  }

  lemma PushKeepsOrder(s: Session, max: nat, net: Net, action: Action)
    requires OrderInvariant(net) && ShapeInvariant(max, net) && action.Push?
    ensures OrderInvariant(Step(s, max, net, action))
  {
    if net.holder == Some(action.thread) && net.pending != [] {
      var w, t, q := Messages(net.wire), Messages(net.taken), Messages(net.queue);
      var m := net.pending[0];
      assert net.pending == [m];
      EnqueueOnMessages(net.queue, Secure(m), max);
      hide Ordered, EnqueueSpec, Messages;
      if EnqueueSpec(net.queue, Secure(m), max).1 {
        PushOrdered(w, t, q, [m], net.history, net.lost);
      } else {
        RefuseOrdered(w, t, q, [m], net.history, net.lost);
        assert q + [] == q;
      }
    }
  }

  lemma PushVideoKeepsOrder(s: Session, max: nat, net: Net)
    requires OrderInvariant(net) && ShapeInvariant(max, net)
    ensures OrderInvariant(Step(s, max, net, PushVideo))
  {
    EnqueueOnMessages(net.queue, VIDEO, max);
    assert Messages(net.queue) + [] == Messages(net.queue);
  }

  lemma LossKeepsOrder(s: Session, max: nat, net: Net, action: Action)
    requires OrderInvariant(net)
    requires action.Refuse? || action.ClearQueue? || (action.Write? && action.outcome != Written)
    ensures OrderInvariant(Step(s, max, net, action))
  {
    hide Ordered;
    var w, t, q := Messages(net.wire), Messages(net.taken), Messages(net.queue);
    RefuseOrdered(w, t, q, net.pending, net.history, net.lost);
    ClearOrdered(w, t, q, net.pending, net.history, net.lost);
    DropOrdered(w, t, q, net.pending, net.history, net.lost);
  }

  lemma MoveKeepsOrder(s: Session, max: nat, net: Net, action: Action)
    requires OrderInvariant(net) && ShapeInvariant(max, net)
    requires action.Acquire? || action.Take? || action.FailTransport? || (action.Write? && action.outcome == Written)
    ensures OrderInvariant(Step(s, max, net, action))
  {
    var next := Step(s, max, net, action);
    var w, t, q := Messages(net.wire), Messages(net.taken), Messages(net.queue);
    if action.Write? {
      MessagesOfConcat(net.wire, net.taken);
      hide Ordered;
      WriteOrdered(w, t, q, net.pending, net.history, net.lost);
    } else if action.Take? && net.running && net.taken == [] && net.queue != [] {
      var first, others := [net.queue[0]], net.queue[1..];
      assert net.queue == first + others;
      MessagesOfConcat(first, others);
      hide Ordered;
      TakeOrdered(w, Messages(first), Messages(others), net.pending, net.history, net.lost);
    } else {
      hide Ordered;
    }
  }

  lemma StepKeepsOrder(s: Session, max: nat, net: Net, action: Action)
    requires OrderInvariant(net) && ShapeInvariant(max, net)
    ensures OrderInvariant(Step(s, max, net, action))
  {
    hide OrderInvariant, ShapeInvariant, Step;
    if action.Produce? {
      ProduceKeepsOrder(s, max, net, action);
    } else if action.Push? {
      PushKeepsOrder(s, max, net, action);
    } else if action.PushVideo? {
      PushVideoKeepsOrder(s, max, net);
    } else if action.Refuse? || action.ClearQueue? || (action.Write? && action.outcome != Written) {
      LossKeepsOrder(s, max, net, action);
    } else {
      MoveKeepsOrder(s, max, net, action);
    }
  }

  lemma StepKeepsChain(s: Session, max: nat, start: Chain, net: Net, action: Action)
    requires ChainInvariant(s, start, net.history, net.chain) && start.seqNo < TWO_64
    ensures var next := Step(s, max, net, action); ChainInvariant(s, start, next.history, next.chain)
  {
    hide SendSpec, ChainInvariant;
    if action.Produce? {
      SendKeepsChain(s, start, net.history, net.chain, action.msgType, action.json, action.fault);
    }
  }

  ghost predicate NetInvariant(s: Session, max: nat, start: Chain, net: Net) {
    OrderInvariant(net) && ShapeInvariant(max, net) && ChainInvariant(s, start, net.history, net.chain)
  }

  lemma NetInvariantAtStart(s: Session, max: nat, start: Chain)
    requires start.seqNo < TWO_64
    ensures NetInvariant(s, max, start, Run(s, max, start, []))
  {
    NothingIsOrdered<Sent>();
    hide Ordered;
  }

  lemma {:induction false} NetInvariantHolds(s: Session, max: nat, start: Chain, actions: seq<Action>)
    requires start.seqNo < TWO_64
    ensures NetInvariant(s, max, start, Run(s, max, start, actions))
    decreases |actions|
  {
    hide OrderInvariant, ShapeInvariant, ChainInvariant, Step;
    if actions == [] {
      NetInvariantAtStart(s, max, start);
    } else {
      var n := |actions| - 1;
      var net := Run(s, max, start, actions[..n]);
      NetInvariantHolds(s, max, start, actions[..n]);
      StepKeepsOrder(s, max, net, actions[n]);
      StepKeepsShape(s, max, net, actions[n]);
      StepKeepsChain(s, max, start, net, actions[n]);
    }
  }

  // --- Main results ---

  /** Secure messages leave in the order in which the chain advanced, and the queue keeps its bound. */
  lemma WireOrderIsChainOrder(s: Session, max: nat, start: Chain, actions: seq<Action>)
    requires start.seqNo < TWO_64
    ensures var net := Run(s, max, start, actions);
      && Subsequence(Messages(net.wire), net.history)
      && |net.queue| <= max
      && (!net.lost ==> Messages(net.wire) <= net.history)
  {
    var net := Run(s, max, start, actions);
    NetInvariantHolds(s, max, start, actions);
    hide Ordered, Subsequence, ChainInvariant, Run;
    WrittenIsOrdered(Messages(net.wire), Messages(net.taken), Messages(net.queue), net.pending, net.history, net.lost);
  }

  /**
   As long as no secure message is missing in front of another one on the wire - so while none
   has been lost - the peer that folds what it decrypts into its own chain head accepts every
   message on the wire, in order, and the texts it obtains carry consecutive sequence numbers.
   The only condition is that a peer with an empty window sees a first counter below 64.
   */
  lemma PeerFollowsWire(s: Session, max: nat, start: Chain, b: Endpoint, actions: seq<Action>)
    requires start.seqNo < TWO_64 && |start.lastBlockHash| == 64
    requires Peers(start.channel, b) && b.usable && Before(start, b)
    requires var net := Run(s, max, start, actions); !net.lost || Messages(net.wire) <= net.history
    ensures var sent := Messages(Run(s, max, start, actions).wire);
      && AcceptAll(s, Receiver(b, start.lastBlockHash, []), Raws(sent)) ==
         (if StartsLate(b, sent) then None else Some(InStep(s, start, b, sent)))
      && forall i :: 0 <= i < |sent| ==>
           InStep(s, start, b, sent).plaintexts[i] == Render(sent[i].msgType, U64(start.seqNo + i), sent[i].json)
  {
    hide Run, Step, Accept, AcceptAll, InStep, OrderInvariant, ShapeInvariant, Subsequence;
    var net := Run(s, max, start, actions);
    NetInvariantHolds(s, max, start, actions);
    WireOrderIsChainOrder(s, max, start, actions);
    PrefixIsChained(s, start, net.history, net.chain, Messages(net.wire));
    hide ChainInvariant, AllChained, Messages, Render;
    ReceiverFollowsChain(s, start, b, Messages(net.wire));
    TextsInStep(s, start, b, Messages(net.wire));
  }

  // --- After a loss ---

  lemma {:induction false} IndicesGrow(f: seq<nat>, i: nat)
    requires i < |f| && forall k, l :: 0 <= k < l < |f| ==> f[k] < f[l]
    ensures f[i] >= i
  {
    if i > 0 {
      IndicesGrow(f, i - 1);
    }
  }

  lemma PrefixGoesOn<T>(w: seq<T>, history: seq<T>, n: nat)
    requires n + 1 == |w| <= |history| && w[..n] <= history && w[n] == history[n]
    ensures w <= history
  {
    assert w == w[..n] + [w[n]];
  }

  /** A subsequence that is not a prefix skips something. */
  lemma {:induction false} FirstGap<T>(w: seq<T>, history: seq<T>, f: seq<nat>) returns (i: nat)
    requires Embeds(w, history, f) && !(w <= history)
    ensures i < |w| && w[..i] <= history && i < f[i] < |history| && w[i] == history[f[i]]
    decreases |w|
  {
    var n := |w| - 1;
    assert w == w[..n] + [w[n]];
    if w[..n] <= history {
      i := n;
      IndicesGrow(f, n);
      if f[n] == n {
        PrefixGoesOn(w, history, n);
      }
    } else {
      assert Embeds(w[..n], history, f[..n]);
      i := FirstGap(w[..n], history, f[..n]);
      assert w[..n][..i] == w[..i];
    }
  }

  /** Some message is authentic for two different byte strings. */
  ghost predicate GapIsHidden(s: Session, start: Chain, history: seq<Sent>) {
    exists k :: 0 <= k < |history| && SealedTwice(s, start, history[k])
  }

  lemma GapEndsSession(s: Session, start: Chain, b: Endpoint, history: seq<Sent>, w: seq<Sent>)
    requires Peers(start.channel, b) && b.usable && Before(start, b) && |start.lastBlockHash| == 64
    requires AllChained(s, start, history) && Subsequence(w, history) && !(w <= history)
    ensures
      || AcceptAll(s, Receiver(b, start.lastBlockHash, []), Raws(w)).None?
      || GapIsHidden(s, start, history)
      || ChainRepeats(s.hash, start.lastBlockHash, history)
  {
    hide ChainRepeats, Accept, InStep, WellChained, SealedTwice, StartsLate;
    var f :| Embeds(w, history, f);
    var i := FirstGap(w, history, f);
    var k := f[i];
    var r := Receiver(b, start.lastBlockHash, []);
    assert w[..i] == history[..i];
    ChainedPrefix(s, start, history, i);
    ReceiverFollowsChain(s, start, b, history[..i]);
    SkippedIsRefused(s, start, b, history, i, k);
    OneMore(s, r, w, i);
    hide AllChained, Embeds, GapIsHidden;
    if AcceptAll(s, r, Raws(w)[..i + 1]).None? {
      RefusalIsFinal(s, r, Raws(w), i + 1);
    }
  }

  lemma OneMore(s: Session, r: Receiver, w: seq<Sent>, i: nat)
    requires i < |w|
    ensures AcceptAll(s, r, Raws(w)[..i + 1]) ==
      match AcceptAll(s, r, Raws(w[..i]))
      case None => None
      case Some(before) => Accept(s, before, w[i].message.Raw())
  {
    hide Accept;
    assert Raws(w)[..i + 1][..i] == Raws(w[..i]);
  }

  /**
   Once a secure message is lost - refused by a full queue, cleared, or oversize - the next one
   on the wire ends the session: the peer refuses it, unless it could be sealed under two
   different chain heads or the chain of hashes repeats.
   */
  lemma LossEndsSession(s: Session, max: nat, start: Chain, b: Endpoint, actions: seq<Action>)
    requires start.seqNo < TWO_64 && |start.lastBlockHash| == 64
    requires Peers(start.channel, b) && b.usable && Before(start, b)
    requires var net := Run(s, max, start, actions); !(Messages(net.wire) <= net.history)
    ensures var net := Run(s, max, start, actions);
      || AcceptAll(s, Receiver(b, start.lastBlockHash, []), Raws(Messages(net.wire))).None?
      || GapIsHidden(s, start, net.history)
      || ChainRepeats(s.hash, start.lastBlockHash, net.history)
  {
    hide Run, Step, AcceptAll, OrderInvariant, ShapeInvariant, Subsequence, GapIsHidden, ChainRepeats, WellChained;
    var net := Run(s, max, start, actions);
    NetInvariantHolds(s, max, start, actions);
    WireOrderIsChainOrder(s, max, start, actions);
    GapEndsSession(s, start, b, net.history, Messages(net.wire));
  }

  lemma TextsInStep(s: Session, start: Chain, b: Endpoint, sent: seq<Sent>)
    ensures |InStep(s, start, b, sent).plaintexts| == |sent|
    ensures forall i :: 0 <= i < |sent| ==>
      InStep(s, start, b, sent).plaintexts[i] == Render(sent[i].msgType, sent[i].seqNo, sent[i].json)
  {
  }

  lemma PrefixIsChained(s: Session, start: Chain, history: seq<Sent>, now: Chain, sent: seq<Sent>)
    requires ChainInvariant(s, start, history, now) && sent <= history
    ensures AllChained(s, start, sent)
    ensures forall i :: 0 <= i < |sent| ==> sent[i].seqNo == U64(start.seqNo + i)
  {
    forall i | 0 <= i < |sent|
      ensures WellChained(s, start, sent, i) && sent[i].seqNo == U64(start.seqNo + i)
    {
      assert WellChained(s, start, history, i);
      assert sent[..i] == history[..i];
    }
  }

  // --- The bytes on the wire ---

  /** What is framed for an entry; `frame` is the body if it is a video entry. */
  function ItemPayload(item: Item, frame: seq<byte>): seq<byte> {
    Payload(item.kind, if item.body.Some? then item.body.value.message.Raw() else frame)
  }

  function WirePayloads(wire: seq<Item>, frames: nat -> seq<byte>): (payloads: seq<seq<byte>>)
    ensures |payloads| == |wire|
  {
    seq(|wire|, i requires 0 <= i < |wire| => ItemPayload(wire[i], frames(i)))
  }

  /** The peer tells a secure message by its first byte, and cuts it off. */
  function SecurePart(payload: seq<byte>): seq<seq<byte>> {
    if payload != [] && payload[0] == 1 then [payload[1..]] else []
  }

  function SecureParts(payloads: seq<seq<byte>>): seq<seq<byte>> {
    if payloads == [] then []
    else SecureParts(payloads[..|payloads| - 1]) + SecurePart(payloads[|payloads| - 1])
  }

  lemma PartOfItem(item: Item, frame: seq<byte>)
    requires IsItem(item)
    ensures SecurePart(ItemPayload(item, frame)) == Raws(MessageOf(item))
  {
    hide EncryptedMessage.Raw;
    if item.body.Some? {
      var raw := item.body.value.message.Raw();
      assert ([1] + raw)[1..] == raw;
      assert Raws([item.body.value]) == [raw];
    } else {
      assert ItemPayload(item, frame) == [2] + frame;
    }
  }

  lemma RawsOfConcat(a: seq<Sent>, b: seq<Sent>)
    ensures Raws(a + b) == Raws(a) + Raws(b)
  {
  }

  lemma {:induction false} SecurePartsOfWire(wire: seq<Item>, frames: nat -> seq<byte>)
    requires Typed(wire)
    ensures SecureParts(WirePayloads(wire, frames)) == Raws(Messages(wire))
    decreases |wire|
  {
    if wire != [] {
      var n := |wire| - 1;
      var init, last := wire[..n], wire[n];
      assert IsItem(last);
      SecurePartsOfWire(init, frames);
      LastPayload(wire, frames);
      LastMessage(wire);
      hide ItemPayload, SecurePart, Raws, MessageOf, WirePayloads, Messages, Typed, IsItem;
      RawsOfConcat(Messages(init), MessageOf(last));
      PartOfItem(last, frames(n));
    }
  }

  lemma LastPayload(wire: seq<Item>, frames: nat -> seq<byte>)
    requires wire != []
    ensures var n, payloads := |wire| - 1, WirePayloads(wire, frames);
      payloads[..n] == WirePayloads(wire[..n], frames) && payloads[n] == ItemPayload(wire[n], frames(n))
  {
  }

  lemma LastMessage(wire: seq<Item>)
    requires wire != []
    ensures var n := |wire| - 1; Messages(wire) == Messages(wire[..n]) + MessageOf(wire[n])
  {
    hide MessageOf;
    var n := |wire| - 1;
    assert wire == wire[..n] + [wire[n]];
    MessagesOfConcat(wire[..n], [wire[n]]);
    assert Messages([wire[n]]) == MessageOf(wire[n]) + Messages([]);
  }

  /** The peer tells a video frame by its first byte. */
  function VideoPart(payload: seq<byte>): seq<seq<byte>> {
    if payload != [] && payload[0] == 2 then [payload[1..]] else []
  }

  function VideoParts(payloads: seq<seq<byte>>): seq<seq<byte>> {
    if payloads == [] then []
    else VideoParts(payloads[..|payloads| - 1]) + VideoPart(payloads[|payloads| - 1])
  }

  /** The bodies of the video entries, in order. */
  function FramesOf(wire: seq<Item>, frames: nat -> seq<byte>): seq<seq<byte>> {
    if wire == [] then []
    else
      var n := |wire| - 1;
      FramesOf(wire[..n], frames) + if wire[n].body.None? then [frames(n)] else []
  }

  lemma VideoPartOfItem(item: Item, frame: seq<byte>)
    requires IsItem(item)
    ensures VideoPart(ItemPayload(item, frame)) == if item.body.None? then [frame] else []
  {
    hide EncryptedMessage.Raw;
    if item.body.None? {
      assert ([2] + frame)[1..] == frame;
    }
  }

  /** Sorting the payloads also returns the video frames, each whole and in order. */
  lemma {:induction false} VideoPartsOfWire(wire: seq<Item>, frames: nat -> seq<byte>)
    requires Typed(wire)
    ensures VideoParts(WirePayloads(wire, frames)) == FramesOf(wire, frames)
    decreases |wire|
  {
    if wire != [] {
      var n := |wire| - 1;
      assert IsItem(wire[n]);
      VideoPartsOfWire(wire[..n], frames);
      LastPayload(wire, frames);
      hide ItemPayload, VideoPart, WirePayloads, Typed, IsItem;
      VideoPartOfItem(wire[n], frames(n));
    }
  }

  /** The bytes written: whole frames, and k bytes of the one that the connection broke in. */
  function WireBytes(net: Net, frames: nat -> seq<byte>, k: nat): seq<byte> {
    FrameAll(WirePayloads(net.wire, frames)) +
    if net.torn != [] && k <= |TornFrame(net, frames)| then TornFrame(net, frames)[..k] else []
  }

  function TornFrame(net: Net, frames: nat -> seq<byte>): seq<byte>
    requires net.torn != []
  {
    Frame(ItemPayload(net.torn[0], frames(|net.wire|)))
  }

  /** Everything fits into a length field and the peer can receive it; the torn frame is not whole. */
  ghost predicate WireFits(net: Net, frames: nat -> seq<byte>, k: nat, maxSize: nat) {
    && (forall p :: p in WirePayloads(net.wire, frames) ==> |p| < TWO_32 && Receivable(p, maxSize))
    && (net.torn != [] ==> |ItemPayload(net.torn[0], frames(|net.wire|))| < TWO_32 && k < |TornFrame(net, frames)|)
  }

  lemma WireBytesDeframe(net: Net, frames: nat -> seq<byte>, k: nat, maxSize: nat)
    requires WireFits(net, frames, k, maxSize)
    ensures DeframeAll(WireBytes(net, frames, k), maxSize) == WirePayloads(net.wire, frames)
  {
    hide WirePayloads, DeframeAll, FrameAll, ItemPayload, Receivable;
    var payloads := WirePayloads(net.wire, frames);
    if net.torn != [] {
      TornFrameIsIgnored(payloads, ItemPayload(net.torn[0], frames(|net.wire|)), k, maxSize);
    } else {
      FramingRoundTrip(payloads, maxSize);
      assert FrameAll(payloads) + [] == FrameAll(payloads);
    }
  }

  /**
   From the bytes of the connection, however they are split, to the texts: the peer that takes
   the stream apart, sorts out the secure messages and decrypts them obtains those of the
   chain, provided it can receive every payload.
   */
  lemma PeerFollowsBytes(s: Session, max: nat, start: Chain, b: Endpoint, actions: seq<Action>,
                         frames: nat -> seq<byte>, k: nat, maxSize: nat)
    requires start.seqNo < TWO_64 && |start.lastBlockHash| == 64
    requires Peers(start.channel, b) && b.usable && Before(start, b)
    requires var net := Run(s, max, start, actions);
      && (!net.lost || Messages(net.wire) <= net.history)
      && WireFits(net, frames, k, maxSize)
    ensures var net := Run(s, max, start, actions);
      var stream, sent := WireBytes(net, frames, k), Messages(net.wire);
      AcceptAll(s, Receiver(b, start.lastBlockHash, []), SecureParts(DeframeAll(stream, maxSize))) ==
      if StartsLate(b, sent) then None else Some(InStep(s, start, b, sent))
  {
    hide Run, AcceptAll, InStep, OrderInvariant, ChainInvariant, DeframeAll, SecureParts, WireBytes, WireFits;
    hide WirePayloads, Messages, Typed;
    var net := Run(s, max, start, actions);
    NetInvariantHolds(s, max, start, actions);
    PeerFollowsWire(s, max, start, b, actions);
    WireBytesDeframe(net, frames, k, maxSize);
    SecurePartsOfWire(net.wire, frames);
  }
}
