/**
 Secure messages after the handshake: each one is encrypted under the hash of everything sent
 before it, and the receiver recomputes that hash from what it decrypts.
 */
module MessageChain {
  import opened Bytes
  import opened Wrappers
  import opened Crypto
  import opened ReplayWindow
  import opened SecureChannel
  import opened ChannelRuns
  import opened ChannelContents
  import opened MessageText

  /** SHA3-512 and the channel primitives. */
  datatype Session = Session(hash: Hash64, suite: Suite)

  /** The sender: chain head, next sequence number, and the channel. */
  datatype Chain = Chain(lastBlockHash: seq<byte>, seqNo: nat, channel: Endpoint)

  /** A message as it was sent. */
  datatype Sent = Sent(msgType: seq<byte>, seqNo: nat, json: seq<byte>, aad: seq<byte>, counter: nat,
                       message: EncryptedMessage)
  {
    function Plaintext(): seq<byte> {
      Render(msgType, seqNo, json)
    }
  }

  /** Chain and sequence number advance only if the encryption succeeds; the counter also if the library fails. */
  function SendSpec(s: Session, chain: Chain, msgType: seq<byte>, json: seq<byte>, fault: Fault)
    : (Chain, Result<Sent, ChannelError>)
  {
    var plaintext := Render(msgType, chain.seqNo, json);
    var (channel, r) := EncryptSpec(s.suite, chain.channel, plaintext, chain.lastBlockHash, fault);
    match r
    case Err(error) => (chain.(channel := channel), Err(error))
    case Ok(message) =>
      (Chain(s.hash(chain.lastBlockHash + plaintext), U64(chain.seqNo + 1), channel),
       Ok(Sent(msgType, chain.seqNo, json, chain.lastBlockHash, chain.channel.sendCounter, message)))
  }

  /** The chain head after a list of plaintexts. */
  function Fold(hash: Hash64, head: seq<byte>, sent: seq<Sent>): seq<byte> {
    if sent == [] then head
    else hash(Fold(hash, head, sent[..|sent| - 1]) + sent[|sent| - 1].Plaintext())
  }

  /** Message i of a history that started from `start`. */
  ghost predicate WellChained(s: Session, start: Chain, history: seq<Sent>, i: nat)
    requires i < |history|
  {
    var m := history[i];
    && m.aad == Fold(s.hash, start.lastBlockHash, history[..i])
    && m.seqNo == U64(start.seqNo + i)
    && start.channel.sendCounter <= m.counter <= MAX_COUNTER
    && (forall k :: 0 <= k < i ==> history[k].counter < m.counter)
    && m.message == Sealed(s.suite, start.channel.(sendCounter := m.counter), m.Plaintext(), m.aad)
    && 0 < |m.Plaintext()| <= MAX_PAYLOAD
  }

  /** The history accounts for the whole state of the chain. */
  ghost predicate ChainInvariant(s: Session, start: Chain, history: seq<Sent>, now: Chain) {
    && (forall i :: 0 <= i < |history| ==> WellChained(s, start, history, i))
    && now.lastBlockHash == Fold(s.hash, start.lastBlockHash, history)
    && now.seqNo == U64(start.seqNo + |history|)
    && start.channel.sendCounter <= now.channel.sendCounter
    && now.channel == start.channel.(sendCounter := now.channel.sendCounter)
    && forall i :: 0 <= i < |history| ==> history[i].counter < now.channel.sendCounter
  }

  lemma WellChainedPrefix(s: Session, start: Chain, history: seq<Sent>, more: seq<Sent>, i: nat)
    requires i < |history| && WellChained(s, start, history, i)
    ensures WellChained(s, start, history + more, i)
  {
    assert (history + more)[..i] == history[..i];
  }

  /** m is the message that takes the chain from `now` to `next`. */
  ghost predicate IsLink(s: Session, now: Chain, m: Sent, next: Chain) {
    && m.aad == now.lastBlockHash && m.seqNo == now.seqNo
    && m.counter == now.channel.sendCounter <= MAX_COUNTER
    && m.message == Sealed(s.suite, now.channel, m.Plaintext(), m.aad)
    && 0 < |m.Plaintext()| <= MAX_PAYLOAD
    && next == Chain(s.hash(m.aad + m.Plaintext()), U64(now.seqNo + 1),
                     now.channel.(sendCounter := now.channel.sendCounter + 1))
  }

  lemma SendLinks(s: Session, now: Chain, msgType: seq<byte>, json: seq<byte>, fault: Fault)
    ensures var (next, r) := SendSpec(s, now, msgType, json, fault);
      match r
      case Ok(m) => IsLink(s, now, m, next)
      case Err(_) =>
        && next == now.(channel := next.channel)
        && next.channel == now.channel.(sendCounter := next.channel.sendCounter)
        && now.channel.sendCounter <= next.channel.sendCounter
  {
    hide Render, Sealed, U64;
  }

  lemma LinkExtends(s: Session, start: Chain, history: seq<Sent>, now: Chain, m: Sent, next: Chain)
    requires ChainInvariant(s, start, history, now) && start.seqNo < TWO_64 && IsLink(s, now, m, next)
    ensures ChainInvariant(s, start, history + [m], next)
  {
    hide Sent.Plaintext, Sealed;
    var longer := history + [m];
    assert longer[..|history|] == history;
    assert start.channel.(sendCounter := m.counter) == now.channel;
    assert WellChained(s, start, longer, |history|);
    forall i | 0 <= i < |longer| ensures WellChained(s, start, longer, i) {
      if i < |history| {
        WellChainedPrefix(s, start, history, [m], i);
      }
    }
    hide WellChained;
  }

  /** A successful send adds one well-chained message to the history. */
  lemma SendKeepsChain(s: Session, start: Chain, history: seq<Sent>, now: Chain,
                       msgType: seq<byte>, json: seq<byte>, fault: Fault)
    requires ChainInvariant(s, start, history, now) && start.seqNo < TWO_64
    ensures var (next, r) := SendSpec(s, now, msgType, json, fault);
      ChainInvariant(s, start, if r.Ok? then history + [r.value] else history, next)
  {
    SendLinks(s, now, msgType, json, fault);
    hide SendSpec, IsLink, WellChained;
    var (next, r) := SendSpec(s, now, msgType, json, fault);
    if r.Ok? {
      LinkExtends(s, start, history, now, r.value, next);
    }
  }

  // --- The receiver ---

  /** iv, tag and ciphertext cut out of the raw message. */
  function ParseRaw(raw: seq<byte>): EncryptedMessage
    requires |raw| >= IV_LEN + TAG_LEN
  {
    EncryptedMessage(raw[..IV_LEN], raw[IV_LEN + TAG_LEN..], raw[IV_LEN..IV_LEN + TAG_LEN])
  }

  lemma RawParses(m: EncryptedMessage)
    requires |m.iv| == IV_LEN && |m.tag| == TAG_LEN
    ensures |m.Raw()| >= IV_LEN + TAG_LEN && ParseRaw(m.Raw()) == m
  {
    assert m.Raw()[..IV_LEN] == m.iv;
    assert m.Raw()[IV_LEN..IV_LEN + TAG_LEN] == m.tag;
    assert m.Raw()[IV_LEN + TAG_LEN..] == m.ciphertext;
  }

  datatype Receiver = Receiver(channel: Endpoint, head: seq<byte>, plaintexts: seq<seq<byte>>)

  /** A receiver that decrypts under its own chain head and ends the session at the first failure. */
  ghost function Accept(s: Session, r: Receiver, raw: seq<byte>): Option<Receiver> {
    if |raw| < IV_LEN + TAG_LEN then Some(r)
    else
      var (channel, opened') := DecryptSpec(s.suite, r.channel, ParseRaw(raw), r.head, NoFault);
      match opened'
      case Err(_) => None
      case Ok(plaintext) => Some(Receiver(channel, s.hash(r.head + plaintext), r.plaintexts + [plaintext]))
  }

  ghost function AcceptAll(s: Session, r: Receiver, raws: seq<seq<byte>>): Option<Receiver>
    decreases |raws|
  {
    if raws == [] then Some(r)
    else
      match AcceptAll(s, r, raws[..|raws| - 1])
      case None => None
      case Some(before) => Accept(s, before, raws[|raws| - 1])
  }

  function Raws(sent: seq<Sent>): (raws: seq<seq<byte>>)
    ensures |raws| == |sent| && forall i :: 0 <= i < |raws| ==> raws[i] == sent[i].message.Raw()
  {
    seq(|sent|, i requires 0 <= i < |sent| => sent[i].message.Raw())
  }

  function Plaintexts(sent: seq<Sent>): (ps: seq<seq<byte>>)
    ensures |ps| == |sent| && forall i :: 0 <= i < |ps| ==> ps[i] == sent[i].Plaintext()
  {
    seq(|sent|, i requires 0 <= i < |sent| => sent[i].Plaintext())
  }

  function Counters(sent: seq<Sent>): set<nat> {
    set i | 0 <= i < |sent| :: sent[i].counter
  }

  /** The receiver in step with the first messages of a history. */
  ghost function InStep(s: Session, start: Chain, b: Endpoint, sent: seq<Sent>): Receiver {
    Receiver(b.(accepted := b.accepted + Counters(sent)), Fold(s.hash, start.lastBlockHash, sent), Plaintexts(sent))
  }

  /** Nothing that the receiver has accepted comes from the part of the session considered here. */
  ghost predicate Before(start: Chain, b: Endpoint) {
    forall x :: x in b.accepted ==> x < start.channel.sendCounter
  }

  /** The first message is the first at all, and beyond the initial window. */
  ghost predicate StartsLate(b: Endpoint, sent: seq<Sent>) {
    b.accepted == {} && sent != [] && sent[0].counter >= WINDOW_SIZE
  }

  ghost predicate AllChained(s: Session, start: Chain, sent: seq<Sent>) {
    forall i :: 0 <= i < |sent| ==> WellChained(s, start, sent, i)
  }

  lemma SealedShape(s: Session, start: Chain, m: Sent)
    requires m.counter <= MAX_COUNTER
    requires m.message == Sealed(s.suite, start.channel.(sendCounter := m.counter), m.Plaintext(), m.aad)
    ensures |m.message.Raw()| >= IV_LEN + TAG_LEN && ParseRaw(m.message.Raw()) == m.message
  {
    CounterOfIv(TxPrefix(s.suite, start.channel.role, start.channel.secret), m.counter);
    RawParses(m.message);
  }

  lemma FoldLength(hash: Hash64, head: seq<byte>, sent: seq<Sent>)
    requires |head| == 64
    ensures |Fold(hash, head, sent)| == 64
  {
  }

  lemma CountersGrow(sent: seq<Sent>, n: nat)
    requires n < |sent|
    ensures Counters(sent[..n + 1]) == Counters(sent[..n]) + {sent[n].counter}
  {
    var init, more := sent[..n], sent[..n + 1];
    forall i | 0 <= i < n ensures more[i] == init[i] {
    }
    assert more[n].counter in Counters(more);
    forall x | x in Counters(init) ensures x in Counters(more) {
      var i :| 0 <= i < n && init[i].counter == x;
      assert more[i].counter == x;
    }
  }

  /** Counters only grow, so the window takes the next one unless it is a very first one of 64 or more. */
  lemma NextIsFresh(s: Session, start: Chain, b: Endpoint, sent: seq<Sent>, n: nat)
    requires n < |sent| && WellChained(s, start, sent, n) && Before(start, b)
    ensures Fresh(b.accepted + Counters(sent[..n]), sent[n].counter) <==> !(n == 0 && StartsLate(b, sent))
  {
    var init := sent[..n];
    forall x | x in Counters(init) ensures x < sent[n].counter {
      var i :| 0 <= i < n && init[i].counter == x;
      assert sent[i].counter == x;
    }
    if n > 0 {
      assert init[0].counter in Counters(init);
    } else {
      assert Counters(init) == {};
    }
  }

  /** The next message of the history is taken, unless it is the very first and its counter is 64 or more. */
  lemma AcceptNext(s: Session, start: Chain, b: Endpoint, sent: seq<Sent>)
    requires Peers(start.channel, b) && b.usable && Before(start, b) && |start.lastBlockHash| == 64
    requires sent != [] && AllChained(s, start, sent)
    ensures var n := |sent| - 1;
      Accept(s, InStep(s, start, b, sent[..n]), sent[n].message.Raw()) ==
        if n == 0 && StartsLate(b, sent) then None else Some(InStep(s, start, b, sent))
  {
    var n := |sent| - 1;
    var m, init := sent[n], sent[..n];
    var r := InStep(s, start, b, init);
    assert WellChained(s, start, sent, n);
    SealedShape(s, start, m);
    FoldLength(s.hash, start.lastBlockHash, init);
    PeerDecrypts(s.suite, start.channel.(sendCounter := m.counter), r.channel, m.Plaintext(), m.aad);
    NextIsFresh(s, start, b, sent, n);
    CountersGrow(sent, n);
    assert sent[..n + 1] == sent;
    assert b.accepted + Counters(init) + {m.counter} == b.accepted + Counters(sent);
    assert Plaintexts(sent) == Plaintexts(init) + [m.Plaintext()];
    hide DecryptSpec, Sealed, Fresh;
  }

  /**
   Fed with the first messages of a history, the receiver accepts all of them and obtains their
   plaintexts in order, exactly unless the first one is the first at all and beyond the initial
   window.
   */
  lemma {:induction false} ReceiverFollowsChain(s: Session, start: Chain, b: Endpoint, sent: seq<Sent>)
    requires Peers(start.channel, b) && b.usable && Before(start, b) && |start.lastBlockHash| == 64
    requires AllChained(s, start, sent)
    ensures AcceptAll(s, Receiver(b, start.lastBlockHash, []), Raws(sent)) ==
      if StartsLate(b, sent) then None else Some(InStep(s, start, b, sent))
    decreases |sent|
  {
    hide Accept, WellChained, Sent.Plaintext;
    if sent == [] {
      assert Counters(sent) == {} && Plaintexts(sent) == [];
      assert b == b.(accepted := b.accepted + Counters(sent));
    } else {
      var n := |sent| - 1;
      var init := sent[..n];
      ChainedPrefix(s, start, sent, n);
      assert Raws(sent)[..n] == Raws(init);
      ReceiverFollowsChain(s, start, b, init);
      AcceptNext(s, start, b, sent);
      hide InStep, AllChained;
    }
  }

  lemma ChainedPrefix(s: Session, start: Chain, sent: seq<Sent>, n: nat)
    requires AllChained(s, start, sent) && n <= |sent|
    ensures AllChained(s, start, sent[..n])
  {
    forall i | 0 <= i < n ensures WellChained(s, start, sent[..n], i) {
      assert WellChained(s, start, sent, i);
      assert sent[..n][..i] == sent[..i];
    }
  }

  // --- After a loss ---

  /** What is hashed when message i is sent. */
  function ChainInput(hash: Hash64, head: seq<byte>, sent: seq<Sent>, i: nat): seq<byte>
    requires i < |sent|
  {
    Fold(hash, head, sent[..i]) + sent[i].Plaintext()
  }

  ghost predicate Collides(hash: Hash64, head: seq<byte>, sent: seq<Sent>, i: nat, j: nat)
    requires i < |sent| && j < |sent|
  {
    Collision(hash, ChainInput(hash, head, sent, i), ChainInput(hash, head, sent, j))
  }

  /** Two different inputs of the chain have one hash, or one of them hashes to the head at the start. */
  ghost predicate ChainRepeats(hash: Hash64, head: seq<byte>, sent: seq<Sent>) {
    || (exists i, j :: 0 <= i < j < |sent| && Collides(hash, head, sent, i, j))
    || (exists j :: 0 <= j < |sent| && hash(ChainInput(hash, head, sent, j)) == head)
  }

  /** The chain head never returns to an earlier value. */
  lemma {:induction false} HeadsDiffer(hash: Hash64, head: seq<byte>, sent: seq<Sent>, i: nat, j: nat)
    requires i < j <= |sent| && |head| == 64 && !ChainRepeats(hash, head, sent)
    ensures Fold(hash, head, sent[..i]) != Fold(hash, head, sent[..j])
  {
    hide Sent.Plaintext;
    assert sent[..j][..j - 1] == sent[..j - 1];
    assert Fold(hash, head, sent[..j]) == hash(ChainInput(hash, head, sent, j - 1));
    if i > 0 {
      assert sent[..i][..i - 1] == sent[..i - 1];
      assert Fold(hash, head, sent[..i]) == hash(ChainInput(hash, head, sent, i - 1));
      HeadsDiffer(hash, head, sent, i - 1, j - 1);
      FoldLength(hash, head, sent[..i - 1]);
      FoldLength(hash, head, sent[..j - 1]);
      InputsDiffer(Fold(hash, head, sent[..i - 1]), sent[i - 1].Plaintext(),
                   Fold(hash, head, sent[..j - 1]), sent[j - 1].Plaintext());
      assert !Collides(hash, head, sent, i - 1, j - 1);
    }
  }

  lemma InputsDiffer(a: seq<byte>, x: seq<byte>, b: seq<byte>, y: seq<byte>)
    requires |a| == |b| && a != b
    ensures a + x != b + y
  {
    if a + x == b + y {
      SplitConcat(a, x, b, y);
    }
  }

  /** The ciphertext and tag of a message are authentic for two different byte strings. */
  ghost predicate SealedTwice(s: Session, start: Chain, m: Sent) {
    exists x, y, q ::
      TwoAads(s.suite, TxKey(s.suite, start.channel.role, start.channel.secret), m.message, x, m.Plaintext(), y, q)
  }

  /** A receiver in step with n messages refuses every one after the next. */
  lemma SkippedIsRefused(s: Session, start: Chain, b: Endpoint, sent: seq<Sent>, n: nat, k: nat)
    requires Peers(start.channel, b) && |start.lastBlockHash| == 64
    requires AllChained(s, start, sent) && n < k < |sent|
    ensures
      || Accept(s, InStep(s, start, b, sent[..n]), sent[k].message.Raw()).None?
      || SealedTwice(s, start, sent[k])
      || ChainRepeats(s.hash, start.lastBlockHash, sent)
  {
    hide Sent.Plaintext, ChainRepeats;
    var m, r := sent[k], InStep(s, start, b, sent[..n]);
    assert WellChained(s, start, sent, k);
    SealedShape(s, start, m);
    if !ChainRepeats(s.hash, start.lastBlockHash, sent) {
      HeadsDiffer(s.hash, start.lastBlockHash, sent, n, k);
      var x, y, q := OtherPlaceIsRefused(s.suite, start.channel.(sendCounter := m.counter), r.channel,
                                         m.Plaintext(), m.aad, r.head);
    }
    hide DecryptSpec, Sealed, WellChained;
  }

  /** Once refused, the session is over. */
  lemma {:induction false} RefusalIsFinal(s: Session, r: Receiver, raws: seq<seq<byte>>, k: nat)
    requires k <= |raws| && AcceptAll(s, r, raws[..k]).None?
    ensures AcceptAll(s, r, raws).None?
    decreases |raws|
  {
    hide Accept;
    if k == |raws| {
      assert raws[..k] == raws;
    } else {
      assert raws[..|raws| - 1][..k] == raws[..k];
      RefusalIsFinal(s, r, raws[..|raws| - 1], k);
    }
  }
}
