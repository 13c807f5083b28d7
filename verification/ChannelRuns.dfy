/** Properties of the secure channel over whole runs. */
module ChannelRuns {
  import opened Bytes
  import opened Wrappers
  import opened Crypto
  import opened ReplayWindow
  import opened SecureChannel

  datatype ChannelOp =
    | EncryptOp(plaintext: seq<byte>, aad: seq<byte>, fault: Fault)
    | DecryptOp(message: EncryptedMessage, aad: seq<byte>, fault: Fault)
    | RotateOp(newKey: seq<byte>, rotateFault: RotateFault)

  ghost function After(c: Suite, e: Endpoint, op: ChannelOp): Endpoint {
    match op
    case EncryptOp(plaintext, aad, fault) => EncryptSpec(c, e, plaintext, aad, fault).0
    case DecryptOp(message, aad, fault) => DecryptSpec(c, e, message, aad, fault).0
    case RotateOp(newKey, fault) => RotateSpec(c, e, newKey, fault).0
  }

  ghost function Run(c: Suite, e: Endpoint, ops: seq<ChannelOp>): Endpoint
    decreases ops
  {
    if ops == [] then e else Run(c, After(c, e, ops[0]), ops[1..])
  }

  /** A rotation that gets as far as moving the epoch. */
  predicate Rekeys(op: ChannelOp) {
    op.RotateOp? && |op.newKey| >= KEY_LEN && !op.rotateFault.RotateSelfCheck? && !op.rotateFault.NewSecret?
  }

  /** It moves the epoch and then fails, which leaves the endpoint unusable. */
  predicate Wrecks(op: ChannelOp) {
    Rekeys(op) && Interrupts(op.rotateFault)
  }

  /** The new keys of the rotations of a usable endpoint that move its epoch, in order. */
  function NewKeys(ops: seq<ChannelOp>): seq<seq<byte>> {
    if ops == [] then []
    else if Wrecks(ops[0]) then [ops[0].newKey]
    else (if Rekeys(ops[0]) then [ops[0].newKey] else []) + NewKeys(ops[1..])
  }

  lemma NewKeysCount(ops: seq<ChannelOp>)
    requires ops != []
    ensures Rekeys(ops[0]) ==> |NewKeys(ops)| >= 1
    ensures !Wrecks(ops[0]) ==> |NewKeys(ops)| == (if Rekeys(ops[0]) then 1 else 0) + |NewKeys(ops[1..])|
  {
  }

  /** After a rotation that failed half-way nothing happens any more. */
  lemma {:induction false} UnusableIsSilent(c: Suite, e: Endpoint, ops: seq<ChannelOp>)
    requires !e.usable
    ensures Run(c, e, ops) == e && Nonces(c, e, ops) == [] && Deliveries(c, e, ops) == []
    decreases ops
  {
    if ops != [] {
      UnusableStep(c, e, ops[0]);
      hide After, Taken, Consumed;
      UnusableIsSilent(c, e, ops[1..]);
    }
  }

  lemma UnusableStep(c: Suite, e: Endpoint, op: ChannelOp)
    requires !e.usable
    ensures After(c, e, op) == e && Taken(c, e, op).None? && Consumed(c, e, op).None?
  {
    hide Sealed, BackendOpen, Value;
  }

  // --- Nonces ---

  datatype Nonce = Nonce(epoch: nat, iv: seq<byte>)

  /** The nonce an operation takes: by encryptions only, also by those that fail afterwards. */
  function Taken(c: Suite, e: Endpoint, op: ChannelOp): Option<Nonce> {
    if op.EncryptOp? && EncryptSpec(c, e, op.plaintext, op.aad, op.fault).0.sendCounter > e.sendCounter
    then Some(Nonce(e.epoch, Iv(TxPrefix(c, e.role, e.secret), e.sendCounter)))
    else None
  }

  ghost function Nonces(c: Suite, e: Endpoint, ops: seq<ChannelOp>): seq<Nonce>
    decreases ops
  {
    if ops == [] then []
    else
      var taken := Taken(c, e, ops[0]);
      (if taken.Some? then [taken.value] else []) + Nonces(c, After(c, e, ops[0]), ops[1..])
  }

  /** A message carries the nonce its encryption took, and its counter survives the 32-bit cast. */
  lemma BuiltIvParsesBack(c: Suite, e: Endpoint, plaintext: seq<byte>, aad: seq<byte>, fault: Fault)
    ensures var r := EncryptSpec(c, e, plaintext, aad, fault).1;
      r.Ok? ==>
        && Taken(c, e, EncryptOp(plaintext, aad, fault)) == Some(Nonce(e.epoch, r.value.iv))
        && |r.value.iv| == IV_LEN
        && r.value.iv[..PREFIX_LEN] == TxPrefix(c, e.role, e.secret)
        && Value(r.value.iv[PREFIX_LEN..]) == e.sendCounter
  {
    if e.sendCounter <= MAX_COUNTER {
      CounterOfIv(TxPrefix(c, e.role, e.secret), e.sendCounter);
    }
  }

  lemma CounterOfIv(prefix: seq<byte>, counter: nat)
    requires |prefix| == PREFIX_LEN && counter <= MAX_COUNTER
    ensures var iv := Iv(prefix, counter);
      |iv| == IV_LEN && iv[..PREFIX_LEN] == prefix && iv[PREFIX_LEN..] == BigEndian(counter, COUNTER_LEN) &&
      Value(iv[PREFIX_LEN..]) == counter
  {
    Pow256Values();
    ValueOfBigEndian(counter, COUNTER_LEN);
  }

  /** n is taken no earlier than from state e on. */
  predicate NotBefore(e: Endpoint, n: Nonce) {
    n.epoch > e.epoch || (n.epoch == e.epoch && |n.iv| == IV_LEN && Value(n.iv[PREFIX_LEN..]) >= e.sendCounter)
  }

  /** n carries the epoch and the counter of e. */
  predicate NonceOf(e: Endpoint, n: Nonce) {
    n.epoch == e.epoch && |n.iv| == IV_LEN && Value(n.iv[PREFIX_LEN..]) == e.sendCounter
  }

  /** What an encryption moves. */
  lemma EncryptMoves(c: Suite, e: Endpoint, plaintext: seq<byte>, aad: seq<byte>, fault: Fault)
    ensures var next, taken :=
        EncryptSpec(c, e, plaintext, aad, fault).0, Taken(c, e, EncryptOp(plaintext, aad, fault));
      && next == e.(sendCounter := e.sendCounter + if taken.Some? then 1 else 0)
      && (taken.Some? ==> NonceOf(e, taken.value))
  {
    if Taken(c, e, EncryptOp(plaintext, aad, fault)).Some? {
      CounterOfIv(TxPrefix(c, e.role, e.secret), e.sendCounter);
    }
    hide Sealed, Iv, Value, TxPrefix;
  }

  /** How one operation moves the epoch and the counter. */
  lemma StepTakes(c: Suite, e: Endpoint, op: ChannelOp)
    requires e.usable && (Rekeys(op) ==> e.epoch + 1 < TWO_32)
    ensures var next, taken := After(c, e, op), Taken(c, e, op);
      && next.usable == !Wrecks(op)
      && if Rekeys(op) then taken.None? && next.epoch == e.epoch + 1
         else
           && next.epoch == e.epoch
           && next.sendCounter == e.sendCounter + (if taken.Some? then 1 else 0)
           && (taken.Some? ==> NonceOf(e, taken.value))
  {
    hide EncryptSpec, DecryptSpec, NonceOf, Taken;
    match op
    case EncryptOp(plaintext, aad, fault) => EncryptMoves(c, e, plaintext, aad, fault);
    case DecryptOp(m, aad, fault) => DecryptMoves(c, e, m, aad, fault); NothingTaken(c, e, op);
    case RotateOp(_, _) => NothingTaken(c, e, op);
  }

  lemma NothingTaken(c: Suite, e: Endpoint, op: ChannelOp)
    requires !op.EncryptOp?
    ensures Taken(c, e, op).None?
  {
  }

  lemma {:induction false} NoncesComeLater(c: Suite, e: Endpoint, ops: seq<ChannelOp>, i: nat)
    requires e.usable && e.epoch + |NewKeys(ops)| < TWO_32 && i < |Nonces(c, e, ops)|
    ensures NotBefore(e, Nonces(c, e, ops)[i])
    decreases ops
  {
    NewKeysCount(ops);
    StepTakes(c, e, ops[0]);
    hide After, Taken, NewKeys;
    var taken, next := Taken(c, e, ops[0]), After(c, e, ops[0]);
    if !next.usable {
      UnusableIsSilent(c, next, ops[1..]);
    } else if taken.None? || i > 0 {
      var k := if taken.Some? then i - 1 else i;
      assert Nonces(c, e, ops)[i] == Nonces(c, next, ops[1..])[k];
      NoncesComeLater(c, next, ops[1..], k);
    }
  }

  lemma LaterDiffers(e: Endpoint, next: Endpoint, n: Nonce, later: Nonce)
    requires NonceOf(e, n) && NotBefore(next, later)
    requires next.epoch == e.epoch && next.sendCounter > e.sendCounter
    ensures n != later
  {
  }

  /** With fewer than 2^32 rotations no (epoch, IV) pair is ever taken twice. */
  lemma {:induction false} NonceUniqueness(c: Suite, e: Endpoint, ops: seq<ChannelOp>, i: nat, j: nat)
    requires e.usable && e.epoch + |NewKeys(ops)| < TWO_32
    requires i < j < |Nonces(c, e, ops)|
    ensures Nonces(c, e, ops)[i] != Nonces(c, e, ops)[j]
    decreases ops
  {
    NewKeysCount(ops);
    StepTakes(c, e, ops[0]);
    hide After, Taken, NewKeys, NonceOf, NotBefore;
    var taken, next := Taken(c, e, ops[0]), After(c, e, ops[0]);
    var rest := Nonces(c, next, ops[1..]);
    if !next.usable {
      UnusableIsSilent(c, next, ops[1..]);
    } else if taken.None? {
      NonceUniqueness(c, next, ops[1..], i, j);
    } else {
      assert Nonces(c, e, ops)[j] == rest[j - 1];
      if i > 0 {
        assert Nonces(c, e, ops)[i] == rest[i - 1];
        NonceUniqueness(c, next, ops[1..], i - 1, j - 1);
      } else {
        NoncesComeLater(c, next, ops[1..], j - 1);
        LaterDiffers(e, next, taken.value, rest[j - 1]);
      }
    }
  }

  // --- Accepted counters ---

  /** The (epoch, counter) pair an operation adds to the window. */
  ghost function Consumed(c: Suite, e: Endpoint, op: ChannelOp): Option<(nat, nat)> {
    if op.DecryptOp? && DecryptSpec(c, e, op.message, op.aad, op.fault).1.Ok?
    then Some((e.epoch, Value(op.message.iv[PREFIX_LEN..])))
    else None
  }

  ghost function Deliveries(c: Suite, e: Endpoint, ops: seq<ChannelOp>): seq<(nat, nat)>
    decreases ops
  {
    if ops == [] then []
    else
      var consumed := Consumed(c, e, ops[0]);
      (if consumed.Some? then [consumed.value] else []) + Deliveries(c, After(c, e, ops[0]), ops[1..])
  }

  /** What a decryption moves. */
  lemma DecryptMoves(c: Suite, e: Endpoint, m: EncryptedMessage, aad: seq<byte>, fault: Fault)
    ensures var next, consumed := DecryptSpec(c, e, m, aad, fault).0, Consumed(c, e, DecryptOp(m, aad, fault));
      if consumed.None? then next == e
      else
        && next == e.(accepted := e.accepted + {consumed.value.1})
        && consumed.value.0 == e.epoch && consumed.value.1 !in e.accepted
  {
    hide Value, BackendOpen, RxPrefix, RxKey, EffectiveAad;
  }

  /** How one operation moves the epoch and the window. */
  lemma StepConsumes(c: Suite, e: Endpoint, op: ChannelOp)
    requires e.usable && (Rekeys(op) ==> e.epoch + 1 < TWO_32)
    ensures var next, consumed := After(c, e, op), Consumed(c, e, op);
      && next.usable == !Wrecks(op)
      && if Rekeys(op) then consumed.None? && next.epoch == e.epoch + 1
         else if consumed.None? then next.epoch == e.epoch && next.accepted == e.accepted
         else
           && next.epoch == e.epoch == consumed.value.0
           && consumed.value.1 !in e.accepted && next.accepted == e.accepted + {consumed.value.1}
  {
    hide EncryptSpec, DecryptSpec, Consumed;
    match op
    case EncryptOp(plaintext, aad, fault) => EncryptMoves(c, e, plaintext, aad, fault); NothingConsumed(c, e, op);
    case DecryptOp(m, aad, fault) => DecryptMoves(c, e, m, aad, fault);
    case RotateOp(_, _) => NothingConsumed(c, e, op);
  }

  lemma NothingConsumed(c: Suite, e: Endpoint, op: ChannelOp)
    requires !op.DecryptOp?
    ensures Consumed(c, e, op).None?
  {
  }

  lemma {:induction false} DeliveriesAreNew(c: Suite, e: Endpoint, ops: seq<ChannelOp>, i: nat)
    requires e.usable && e.epoch + |NewKeys(ops)| < TWO_32 && i < |Deliveries(c, e, ops)|
    ensures var d := Deliveries(c, e, ops)[i]; d.0 > e.epoch || (d.0 == e.epoch && d.1 !in e.accepted)
    decreases ops
  {
    NewKeysCount(ops);
    StepConsumes(c, e, ops[0]);
    hide After, Consumed, NewKeys;
    var consumed, next := Consumed(c, e, ops[0]), After(c, e, ops[0]);
    if !next.usable {
      UnusableIsSilent(c, next, ops[1..]);
    } else if consumed.None? || i > 0 {
      var k := if consumed.Some? then i - 1 else i;
      assert Deliveries(c, e, ops)[i] == Deliveries(c, next, ops[1..])[k];
      DeliveriesAreNew(c, next, ops[1..], k);
    }
  }

  /** With fewer than 2^32 rotations no counter is accepted twice in one epoch. */
  lemma {:induction false} NoCounterAcceptedTwice(c: Suite, e: Endpoint, ops: seq<ChannelOp>, i: nat, j: nat)
    requires e.usable && e.epoch + |NewKeys(ops)| < TWO_32
    requires i < j < |Deliveries(c, e, ops)|
    ensures Deliveries(c, e, ops)[i] != Deliveries(c, e, ops)[j]
    decreases ops
  {
    NewKeysCount(ops);
    StepConsumes(c, e, ops[0]);
    hide After, Consumed, NewKeys;
    var consumed, next := Consumed(c, e, ops[0]), After(c, e, ops[0]);
    var rest := Deliveries(c, next, ops[1..]);
    if !next.usable {
      UnusableIsSilent(c, next, ops[1..]);
    } else if consumed.None? {
      NoCounterAcceptedTwice(c, next, ops[1..], i, j);
    } else {
      assert Deliveries(c, e, ops)[j] == rest[j - 1];
      if i > 0 {
        assert Deliveries(c, e, ops)[i] == rest[i - 1];
        NoCounterAcceptedTwice(c, next, ops[1..], i - 1, j - 1);
      } else {
        DeliveriesAreNew(c, next, ops[1..], j - 1);
      }
    }
  }

  /**
   When is a counter consumed although the message does not authenticate?  Exactly for an
   empty ciphertext in a build that decrypts through the FIPS module, whose failure value is
   the empty plaintext.
   */
  lemma ConsumedWithoutAuthentication(c: Suite, e: Endpoint, m: EncryptedMessage, aad: seq<byte>)
    requires c.open(RxKey(c, e.role, e.secret), m.iv, EffectiveAad(e.epoch, aad), m.ciphertext, m.tag).None?
    requires |m.iv| == IV_LEN && m.iv[..PREFIX_LEN] == RxPrefix(c, e.role, e.secret)
    requires |m.tag| == TAG_LEN && |m.ciphertext| <= MAX_PAYLOAD && |aad| <= MAX_AAD
    requires Fresh(e.accepted, Value(m.iv[PREFIX_LEN..])) && e.usable
    ensures DecryptSpec(c, e, m, aad, NoFault).0 != e <==> c.viaFipsModule && m.ciphertext == []
    ensures DecryptSpec(c, e, m, aad, NoFault).1.Ok? <==> c.viaFipsModule && m.ciphertext == []
  {
    assert Value(m.iv[PREFIX_LEN..]) in e.accepted + {Value(m.iv[PREFIX_LEN..])};
  }

  /** Such a message: the empty ciphertext under counter 0, which a new endpoint then counts as received. */
  lemma EmptyCiphertextIsConsumed(c: Suite, e: Endpoint, tag: seq<byte>)
    requires c.viaFipsModule && e.usable && e.accepted == {} && |tag| == TAG_LEN
    requires var iv := Iv(RxPrefix(c, e.role, e.secret), 0);
      c.open(RxKey(c, e.role, e.secret), iv, EffectiveAad(e.epoch, []), [], tag).None?
    ensures var m := EncryptedMessage(Iv(RxPrefix(c, e.role, e.secret), 0), [], tag);
      DecryptSpec(c, e, m, [], NoFault) == (e.(accepted := {0}), Ok([]))
  {
    CounterOfIv(RxPrefix(c, e.role, e.secret), 0);
    assert e.accepted + {0} == {0};
    hide Iv, RxPrefix, RxKey, EffectiveAad, Value;
  }

  // --- Two endpoints ---

  function Opposite(role: Role): Role {
    if role == DroneClient then ServerResponder else DroneClient
  }

  ghost predicate Peers(a: Endpoint, b: Endpoint) {
    b.role == Opposite(a.role) && a.secret == b.secret && a.epoch == b.epoch
  }

  lemma PeersMirrorKeys(c: Suite, a: Endpoint, b: Endpoint)
    requires Peers(a, b)
    ensures TxKey(c, a.role, a.secret) == RxKey(c, b.role, b.secret)
    ensures TxPrefix(c, a.role, a.secret) == RxPrefix(c, b.role, b.secret)
    ensures RxKey(c, a.role, a.secret) == TxKey(c, b.role, b.secret)
    ensures RxPrefix(c, a.role, a.secret) == TxPrefix(c, b.role, b.secret)
  {
  }

  /** Secret and epoch after a list of accepted rotation keys. */
  function Rekeyed(c: Suite, secret: seq<byte>, epoch: nat, keys: seq<seq<byte>>): (seq<byte>, nat)
    decreases keys
  {
    if keys == [] then (secret, epoch)
    else Rekeyed(c, c.rekey(secret, keys[0]), (epoch + 1) % TWO_32, keys[1..])
  }

  lemma StepFollowsKeys(c: Suite, e: Endpoint, op: ChannelOp)
    requires e.usable
    ensures var next := After(c, e, op);
      && next.role == e.role && next.usable == !Wrecks(op)
      && (next.secret, next.epoch) ==
         if Rekeys(op) then (c.rekey(e.secret, op.newKey), (e.epoch + 1) % TWO_32) else (e.secret, e.epoch)
  {
  }

  /** Secret and epoch after a run depend on nothing but the keys of the rotations. */
  lemma {:induction false} RunFollowsKeys(c: Suite, e: Endpoint, ops: seq<ChannelOp>)
    requires e.usable
    ensures (Run(c, e, ops).secret, Run(c, e, ops).epoch) == Rekeyed(c, e.secret, e.epoch, NewKeys(ops))
    ensures Run(c, e, ops).role == e.role
    ensures Run(c, e, ops).usable <==> forall i :: 0 <= i < |ops| ==> !Wrecks(ops[i])
    decreases ops
  {
    if ops != [] {
      var op, next := ops[0], After(c, e, ops[0]);
      StepFollowsKeys(c, e, op);
      hide After;
      if Wrecks(op) {
        UnusableIsSilent(c, next, ops[1..]);
        assert NewKeys(ops) == [op.newKey];
        assert Rekeyed(c, e.secret, e.epoch, [op.newKey]) ==
               Rekeyed(c, c.rekey(e.secret, op.newKey), (e.epoch + 1) % TWO_32, [op.newKey][1..]);
      } else {
        RunFollowsKeys(c, next, ops[1..]);
        assert ops == [op] + ops[1..];
        if Rekeys(op) {
          assert NewKeys(ops)[1..] == NewKeys(ops[1..]);
        } else {
          assert NewKeys(ops) == NewKeys(ops[1..]);
        }
      }
    }
  }

  /** Peers that rotate with the same keys stay peers, whatever else each of them does. */
  lemma PeersStayInStep(c: Suite, a: Endpoint, b: Endpoint, opsA: seq<ChannelOp>, opsB: seq<ChannelOp>)
    requires Peers(a, b) && a.usable && b.usable && NewKeys(opsA) == NewKeys(opsB)
    ensures Peers(Run(c, a, opsA), Run(c, b, opsB))
  {
    RunFollowsKeys(c, a, opsA);
    RunFollowsKeys(c, b, opsB);
  }

  // --- Exactly-once delivery ---

  /** A peer opens what its partner sealed, provided the counter is fresh and the AAD short. */
  lemma PeerDecrypts(c: Suite, a: Endpoint, b: Endpoint, plaintext: seq<byte>, aad: seq<byte>)
    requires Peers(a, b) && a.sendCounter <= MAX_COUNTER && 0 < |plaintext| <= MAX_PAYLOAD
    ensures var m := Sealed(c, a, plaintext, aad);
      DecryptSpec(c, b, m, aad, NoFault) ==
        if |aad| > MAX_AAD then (b, Err(AadTooLong))
        else if !b.usable then (b, Err(KeyTampered))
        else if !Fresh(b.accepted, a.sendCounter) then (b, Err(ReplayDetected))
        else (b.(accepted := b.accepted + {a.sendCounter}), Ok(plaintext))
  {
    var m := Sealed(c, a, plaintext, aad);
    PeersMirrorKeys(c, a, b);
    CounterOfIv(TxPrefix(c, a.role, a.secret), a.sendCounter);
    var key, full := TxKey(c, a.role, a.secret), EffectiveAad(a.epoch, aad);
    assert c.seal(key, m.iv, full, plaintext) == (m.ciphertext, m.tag);
    assert c.open(key, m.iv, full, m.ciphertext, m.tag) == Some(plaintext);
  }

  /** What a sender at counter 0 is given to send in one epoch. */
  datatype Batch = Batch(plaintexts: seq<seq<byte>>, aads: seq<seq<byte>>) {
    ghost predicate Sendable() {
      && |plaintexts| == |aads| <= TWO_32
      && forall i :: 0 <= i < |plaintexts| ==> 0 < |plaintexts[i]| <= MAX_PAYLOAD
    }

    /** The i-th message. */
    function Message(c: Suite, a: Endpoint, i: nat): EncryptedMessage
      requires i < |plaintexts| == |aads|
    {
      Sealed(c, a.(sendCounter := i), plaintexts[i], aads[i])
    }

    predicate Indexed(arrivals: seq<nat>) {
      forall i :: 0 <= i < |arrivals| ==> arrivals[i] < |plaintexts|
    }
  }

  /** Fault-free calls of encrypt return the messages of the batch one after the other. */
  lemma BatchIsEncrypted(c: Suite, a: Endpoint, batch: Batch, i: nat)
    requires batch.Sendable() && i < |batch.plaintexts| && a.usable
    ensures EncryptSpec(c, a.(sendCounter := i), batch.plaintexts[i], batch.aads[i], NoFault) ==
            (a.(sendCounter := i + 1), Ok(batch.Message(c, a, i)))
  {
    assert 0 < |batch.plaintexts[i]|;
  }

  /** State and results of a receiver to which the messages arrive in the given order of indices. */
  ghost function Receive(c: Suite, a: Endpoint, b: Endpoint, batch: Batch, arrivals: seq<nat>)
    : (r: (Endpoint, seq<Result<seq<byte>, ChannelError>>))
    requires batch.Sendable() && batch.Indexed(arrivals)
    ensures |r.1| == |arrivals|
    decreases |arrivals|
  {
    if arrivals == [] then (b, [])
    else
      var x := arrivals[|arrivals| - 1];
      var (before, results) := Receive(c, a, b, batch, arrivals[..|arrivals| - 1]);
      var (after, result) := DecryptSpec(c, before, batch.Message(c, a, x), batch.aads[x], NoFault);
      (after, results + [result])
  }

  predicate FirstArrival(arrivals: seq<nat>, i: nat)
    requires i < |arrivals|
  {
    arrivals[i] !in arrivals[..i]
  }

  /** A new message decrypts to its plaintext and a repeated one is reported as a replay. */
  ghost predicate OnceAt(batch: Batch, arrivals: seq<nat>, i: nat, result: Result<seq<byte>, ChannelError>)
    requires batch.Indexed(arrivals) && i < |arrivals|
  {
    result == if FirstArrival(arrivals, i) then Ok(batch.plaintexts[arrivals[i]]) else Err(ReplayDetected)
  }

  ghost predicate OnceOnly(batch: Batch, arrivals: seq<nat>, results: seq<Result<seq<byte>, ChannelError>>)
    requires batch.Indexed(arrivals) && |results| == |arrivals|
  {
    forall i :: 0 <= i < |arrivals| ==> OnceAt(batch, arrivals, i, results[i])
  }

  /** A first arrival is below 64 if it is the very first, and not 64 or more below an earlier one. */
  ghost predicate OnTimeAt(arrivals: seq<nat>, i: nat)
    requires i < |arrivals|
  {
    FirstArrival(arrivals, i) ==>
      && (i == 0 ==> arrivals[i] < WINDOW_SIZE)
      && forall j :: 0 <= j < i ==> arrivals[j] < arrivals[i] + WINDOW_SIZE
  }

  ghost predicate OnTime(arrivals: seq<nat>) {
    forall i :: 0 <= i < |arrivals| ==> OnTimeAt(arrivals, i)
  }

  ghost predicate ShortAads(batch: Batch, arrivals: seq<nat>)
    requires batch.Sendable() && batch.Indexed(arrivals)
  {
    forall i :: 0 <= i < |arrivals| ==> |batch.aads[arrivals[i]]| <= MAX_AAD
  }

  function Elements(arrivals: seq<nat>): set<nat> {
    set x | x in arrivals
  }

  /**
   Each message is delivered once and each duplicate refused, for every arrival order, exactly
   when every first arrival is on time and every additional data is short enough.
   */
  lemma {:induction false} ExactlyOnceDelivery(c: Suite, a: Endpoint, b: Endpoint, batch: Batch, arrivals: seq<nat>)
    requires batch.Sendable() && batch.Indexed(arrivals)
    requires Peers(a, b) && b.accepted == {} && b.usable
    ensures var (after, results) := Receive(c, a, b, batch, arrivals);
      && (OnceOnly(batch, arrivals, results) <==> OnTime(arrivals) && ShortAads(batch, arrivals))
      && (OnceOnly(batch, arrivals, results) ==> after == b.(accepted := Elements(arrivals)))
    decreases |arrivals|
  {
    if arrivals == [] {
      assert b == b.(accepted := Elements(arrivals));
    } else {
      var n := |arrivals| - 1;
      ExactlyOnceDelivery(c, a, b, batch, arrivals[..n]);
      SplitConditions(batch, arrivals);
      SplitOutcome(batch, arrivals, Receive(c, a, b, batch, arrivals).1);
      if OnTime(arrivals[..n]) && ShortAads(batch, arrivals[..n]) {
        LastArrival(c, a, b, batch, arrivals);
      }
    }
  }

  lemma PrefixArrival(arrivals: seq<nat>, n: nat, i: nat)
    requires i < n <= |arrivals|
    ensures FirstArrival(arrivals[..n], i) == FirstArrival(arrivals, i)
    ensures OnTimeAt(arrivals[..n], i) == OnTimeAt(arrivals, i)
  {
    assert arrivals[..n][..i] == arrivals[..i];
  }

  lemma SplitConditions(batch: Batch, arrivals: seq<nat>)
    requires batch.Sendable() && batch.Indexed(arrivals) && arrivals != []
    ensures var n := |arrivals| - 1;
      && (OnTime(arrivals) <==> OnTime(arrivals[..n]) && OnTimeAt(arrivals, n))
      && (ShortAads(batch, arrivals) <==>
          ShortAads(batch, arrivals[..n]) && |batch.aads[arrivals[n]]| <= MAX_AAD)
  {
    var n := |arrivals| - 1;
    forall i | 0 <= i < n ensures OnTimeAt(arrivals[..n], i) == OnTimeAt(arrivals, i) {
      PrefixArrival(arrivals, n, i);
    }
    forall i | 0 <= i < n ensures arrivals[..n][i] == arrivals[i] {
    }
  }

  lemma SplitOutcome(batch: Batch, arrivals: seq<nat>, results: seq<Result<seq<byte>, ChannelError>>)
    requires arrivals != [] && |results| == |arrivals| && batch.Indexed(arrivals)
    ensures var n := |arrivals| - 1;
      OnceOnly(batch, arrivals, results) <==>
        OnceOnly(batch, arrivals[..n], results[..n]) && OnceAt(batch, arrivals, n, results[n])
  {
    var n := |arrivals| - 1;
    forall i | 0 <= i < n
      ensures OnceAt(batch, arrivals[..n], i, results[..n][i]) == OnceAt(batch, arrivals, i, results[i])
    {
      PrefixArrival(arrivals, n, i);
    }
  }

  /** The last arrival, when everything before it was delivered as it should be. */
  lemma LastArrival(c: Suite, a: Endpoint, b: Endpoint, batch: Batch, arrivals: seq<nat>)
    requires batch.Sendable() && batch.Indexed(arrivals) && arrivals != [] && Peers(a, b) && b.usable
    requires var init := arrivals[..|arrivals| - 1];
      Receive(c, a, b, batch, init).0 == b.(accepted := Elements(init))
    ensures var n := |arrivals| - 1;
      var (after, results) := Receive(c, a, b, batch, arrivals);
      var good := OnceAt(batch, arrivals, n, results[n]);
      && (good <==> OnTimeAt(arrivals, n) && |batch.aads[arrivals[n]]| <= MAX_AAD)
      && (good ==> after == b.(accepted := Elements(arrivals)))
  {
    hide DecryptSpec, Sealed, Fresh, OnTimeAt;
    var n := |arrivals| - 1;
    var x := arrivals[n];
    OneArrival(c, a, b.(accepted := Elements(arrivals[..n])), batch, x);
    FreshIsOnTime(arrivals, n);
    ElementsGrow(arrivals);
    hide Elements;
  }

  lemma OneArrival(c: Suite, a: Endpoint, b: Endpoint, batch: Batch, x: nat)
    requires batch.Sendable() && x < |batch.plaintexts| && Peers(a, b) && b.usable
    ensures DecryptSpec(c, b, batch.Message(c, a, x), batch.aads[x], NoFault) ==
      if |batch.aads[x]| > MAX_AAD then (b, Err(AadTooLong))
      else if !Fresh(b.accepted, x) then (b, Err(ReplayDetected))
      else (b.(accepted := b.accepted + {x}), Ok(batch.plaintexts[x]))
  {
    hide DecryptSpec, Sealed, Fresh;
    PeerDecrypts(c, a.(sendCounter := x), b, batch.plaintexts[x], batch.aads[x]);
  }

  lemma ElementsGrow(arrivals: seq<nat>)
    requires arrivals != []
    ensures var n := |arrivals| - 1; Elements(arrivals) == Elements(arrivals[..n]) + {arrivals[n]}
    ensures !FirstArrival(arrivals, |arrivals| - 1) ==> Elements(arrivals) == Elements(arrivals[..|arrivals| - 1])
  {
    assert arrivals == arrivals[..|arrivals| - 1] + [arrivals[|arrivals| - 1]];
  }

  lemma FreshIsOnTime(arrivals: seq<nat>, n: nat)
    requires n < |arrivals|
    ensures Fresh(Elements(arrivals[..n]), arrivals[n]) <==> FirstArrival(arrivals, n) && OnTimeAt(arrivals, n)
    ensures !FirstArrival(arrivals, n) ==> OnTimeAt(arrivals, n)
  {
    var seen := Elements(arrivals[..n]);
    forall j | 0 <= j < n ensures arrivals[j] in seen {
      assert arrivals[j] == arrivals[..n][j];
    }
    if n > 0 {
      assert arrivals[0] in seen;
    }
  }

  /** A receiver that has accepted nothing accepts nothing from counter 64 on. */
  lemma {:induction false} LateStartDeliversNothing(c: Suite, a: Endpoint, b: Endpoint, batch: Batch,
                                                    arrivals: seq<nat>)
    requires batch.Sendable() && batch.Indexed(arrivals)
    requires Peers(a, b) && b.accepted == {} && b.usable
    requires forall i :: 0 <= i < |arrivals| ==> arrivals[i] >= WINDOW_SIZE
    ensures var (after, results) := Receive(c, a, b, batch, arrivals);
      after == b && forall i :: 0 <= i < |results| ==> results[i].Err?
    decreases |arrivals|
  {
    if arrivals != [] {
      var n := |arrivals| - 1;
      LateStartDeliversNothing(c, a, b, batch, arrivals[..n]);
      OneArrival(c, a, b, batch, arrivals[n]);
      hide DecryptSpec;
    }
  }

  // --- Forged messages in between ---

  /** What arrives: a message of the batch, or anything else. */
  datatype Incoming = Genuine(index: nat) | Forged(message: EncryptedMessage, aad: seq<byte>)

  /** The message does not authenticate, and it is not the empty one of a FIPS build. */
  predicate Powerless(c: Suite, e: Endpoint, m: EncryptedMessage, aad: seq<byte>) {
    && c.open(RxKey(c, e.role, e.secret), m.iv, EffectiveAad(e.epoch, aad), m.ciphertext, m.tag).None?
    && (c.viaFipsModule ==> m.ciphertext != [])
  }

  ghost predicate Expected(c: Suite, b: Endpoint, batch: Batch, incoming: seq<Incoming>) {
    forall i :: 0 <= i < |incoming| ==>
      match incoming[i]
      case Genuine(x) => x < |batch.plaintexts|
      case Forged(m, aad) => Powerless(c, b, m, aad)
  }

  function GenuineOnes(incoming: seq<Incoming>): seq<nat> {
    if incoming == [] then []
    else
      var last := incoming[|incoming| - 1];
      GenuineOnes(incoming[..|incoming| - 1]) + if last.Genuine? then [last.index] else []
  }

  lemma {:induction false} GenuineAreIndexed(c: Suite, b: Endpoint, batch: Batch, incoming: seq<Incoming>)
    requires Expected(c, b, batch, incoming)
    ensures batch.Indexed(GenuineOnes(incoming))
  {
    if incoming != [] {
      GenuineAreIndexed(c, b, batch, incoming[..|incoming| - 1]);
      hide Powerless;
      assert incoming[|incoming| - 1].Genuine? ==> incoming[|incoming| - 1].index < |batch.plaintexts|;
    }
  }

  /** State after everything that arrived, and the results of the genuine messages. */
  ghost function ReceiveAmid(c: Suite, a: Endpoint, b: Endpoint, batch: Batch, incoming: seq<Incoming>)
    : (Endpoint, seq<Result<seq<byte>, ChannelError>>)
    requires batch.Sendable() && Expected(c, b, batch, incoming)
    decreases |incoming|
  {
    if incoming == [] then (b, [])
    else
      var (before, results) := ReceiveAmid(c, a, b, batch, incoming[..|incoming| - 1]);
      match incoming[|incoming| - 1]
      case Genuine(x) =>
        var (after, result) := DecryptSpec(c, before, batch.Message(c, a, x), batch.aads[x], NoFault);
        (after, results + [result])
      case Forged(m, aad) => (DecryptSpec(c, before, m, aad, NoFault).0, results)
  }

  lemma ForgedStep(c: Suite, e: Endpoint, m: EncryptedMessage, aad: seq<byte>)
    requires Powerless(c, e, m, aad)
    ensures DecryptSpec(c, e, m, aad, NoFault).0 == e && DecryptSpec(c, e, m, aad, NoFault).1.Err?
  {
    hide Value, RxKey, RxPrefix, EffectiveAad, Fresh;
  }

  lemma {:induction false} ReceiveMovesWindowOnly(c: Suite, a: Endpoint, b: Endpoint, batch: Batch, arrivals: seq<nat>)
    requires batch.Sendable() && batch.Indexed(arrivals)
    ensures var after := Receive(c, a, b, batch, arrivals).0; after == b.(accepted := after.accepted)
    decreases |arrivals|
  {
    if arrivals != [] {
      var n := |arrivals| - 1;
      var x := arrivals[n];
      ReceiveMovesWindowOnly(c, a, b, batch, arrivals[..n]);
      DecryptMoves(c, Receive(c, a, b, batch, arrivals[..n]).0, batch.Message(c, a, x), batch.aads[x], NoFault);
      hide DecryptSpec, Consumed;
    }
  }

  /**
   Forged messages, wherever they arrive, change neither the state of the receiver nor what
   becomes of the genuine ones; so these are delivered exactly once under the same condition.
   */
  lemma {:induction false} ForgeriesChangeNothing(c: Suite, a: Endpoint, b: Endpoint, batch: Batch,
                                                  incoming: seq<Incoming>)
    requires batch.Sendable() && Expected(c, b, batch, incoming)
    ensures batch.Indexed(GenuineOnes(incoming))
    ensures ReceiveAmid(c, a, b, batch, incoming) == Receive(c, a, b, batch, GenuineOnes(incoming))
    decreases |incoming|
  {
    GenuineAreIndexed(c, b, batch, incoming);
    if incoming != [] {
      var n := |incoming| - 1;
      var init := incoming[..n];
      ForgeriesChangeNothing(c, a, b, batch, init);
      ReceiveMovesWindowOnly(c, a, b, batch, GenuineOnes(init));
      if incoming[n].Forged? {
        var m, aad := incoming[n].message, incoming[n].aad;
        assert Powerless(c, b, m, aad);
        ForgedStep(c, Receive(c, a, b, batch, GenuineOnes(init)).0, m, aad);
        assert GenuineOnes(incoming) == GenuineOnes(init);
      } else {
        var all := GenuineOnes(incoming);
        assert all == GenuineOnes(init) + [incoming[n].index];
        assert all[..|all| - 1] == GenuineOnes(init);
      }
      hide DecryptSpec, Powerless;
    }
  }

  /** Delivery exactly once in the presence of forged messages. */
  lemma DeliveryAmidForgeries(c: Suite, a: Endpoint, b: Endpoint, batch: Batch, incoming: seq<Incoming>)
    requires batch.Sendable() && Expected(c, b, batch, incoming)
    requires Peers(a, b) && b.accepted == {} && b.usable
    ensures var (after, results) := ReceiveAmid(c, a, b, batch, incoming);
      var arrivals := GenuineOnes(incoming);
      && batch.Indexed(arrivals) && |results| == |arrivals|
      && (OnceOnly(batch, arrivals, results) <==> OnTime(arrivals) && ShortAads(batch, arrivals))
      && (OnceOnly(batch, arrivals, results) ==> after == b.(accepted := Elements(arrivals)))
  {
    ForgeriesChangeNothing(c, a, b, batch, incoming);
    ExactlyOnceDelivery(c, a, b, batch, GenuineOnes(incoming));
    hide OnceOnly, OnTime, ShortAads, Expected, ReceiveAmid, Receive;
  }
}
