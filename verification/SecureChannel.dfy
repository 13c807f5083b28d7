/**
 The secure channel: directional keys, counter nonces, key epochs and the anti-replay
 window.  The functions say what each operation means for the abstract state of an
 endpoint; the class carries the fields the operations update.
 */
module SecureChannel {
  import opened Bytes
  import opened Wrappers
  import opened Crypto
  import opened ReplayWindow

  const KEY_LEN: nat := 32
  const IV_LEN: nat := 12
  const TAG_LEN: nat := 16
  const PREFIX_LEN: nat := 8
  const COUNTER_LEN: nat := 4
  const ZERO_PREFIX: seq<byte> := [0, 0, 0, 0, 0, 0, 0, 0]
  const MAX_PAYLOAD: nat := 1024 * 1024
  const MAX_AAD: nat := 1024
  const MAX_COUNTER: nat := 0xFFFF_FFFF

  datatype Role = DroneClient | ServerResponder

  datatype ChannelError =
    | EmptyPlaintext | PlaintextTooLarge | KeyTampered | CounterExhausted | CryptoFailure
    | BadTag | CiphertextTooLarge | AadTooLong | BadIv | BadPrefix | ReplayDetected | InvalidTag
    | KeyTooShort

  datatype EncryptedMessage = EncryptedMessage(iv: seq<byte>, ciphertext: seq<byte>, tag: seq<byte>) {
    function Raw(): seq<byte> {
      iv + tag + ciphertext
    }
  }

  // --- Key material ---

  function Outbound(role: Role): Direction {
    if role == DroneClient then DroneToServer else ServerToDrone
  }

  function Inbound(role: Role): Direction {
    if role == DroneClient then ServerToDrone else DroneToServer
  }

  function TxKey(c: Suite, role: Role, secret: seq<byte>): seq<byte> {
    c.derive(secret, TrafficKey(Outbound(role)), KEY_LEN)
  }

  function RxKey(c: Suite, role: Role, secret: seq<byte>): seq<byte> {
    c.derive(secret, TrafficKey(Inbound(role)), KEY_LEN)
  }

  function TxPrefix(c: Suite, role: Role, secret: seq<byte>): (p: seq<byte>)
    ensures |p| == PREFIX_LEN
  {
    c.derive(secret, IvPrefix(Outbound(role)), PREFIX_LEN)
  }

  function RxPrefix(c: Suite, role: Role, secret: seq<byte>): (p: seq<byte>)
    ensures |p| == PREFIX_LEN
  {
    c.derive(secret, IvPrefix(Inbound(role)), PREFIX_LEN)
  }

  function Iv(prefix: seq<byte>, counter: nat): seq<byte> {
    prefix + BigEndian(counter, COUNTER_LEN)
  }

  function EffectiveAad(epoch: nat, aad: seq<byte>): seq<byte> {
    Ascii("HSC2") + BigEndian(epoch, 4) + aad
  }

  // --- What the operations mean ---

  /**
   An endpoint: its keys follow from role and secret, its window is a set of counters.  It is
   unusable after a rotation that failed between discarding the old keys and deriving the new.
   */
  datatype Endpoint = Endpoint(role: Role, secret: seq<byte>, epoch: nat, sendCounter: nat, accepted: set<nat>,
                               usable: bool)

  /** What can go wrong during one operation: the self-check of the keys, or the library. */
  datatype Fault = NoFault | SelfCheck | Library

  /** Rotation can also fail in one of the four derivations that follow the new secret. */
  datatype RotateFault = NoRotateFault | RotateSelfCheck | NewSecret | Derivation(done: nat)

  predicate FailsCheck(e: Endpoint, fault: Fault) {
    !e.usable || fault.SelfCheck?
  }

  /** The counter is taken after the self-check and before the library is called. */
  function EncryptSpec(c: Suite, e: Endpoint, plaintext: seq<byte>, aad: seq<byte>, fault: Fault)
    : (Endpoint, Result<EncryptedMessage, ChannelError>)
  {
    if plaintext == [] then (e, Err(EmptyPlaintext))
    else if |plaintext| > MAX_PAYLOAD then (e, Err(PlaintextTooLarge))
    else if FailsCheck(e, fault) then (e, Err(KeyTampered))
    else if e.sendCounter > MAX_COUNTER then (e, Err(CounterExhausted))
    else
      var next := e.(sendCounter := e.sendCounter + 1);
      if fault.Library? then (next, Err(CryptoFailure)) else (next, Ok(Sealed(c, e, plaintext, aad)))
  }

  /** The message an endpoint makes of a plaintext at its present counter. */
  function Sealed(c: Suite, e: Endpoint, plaintext: seq<byte>, aad: seq<byte>): EncryptedMessage {
    var iv := Iv(TxPrefix(c, e.role, e.secret), e.sendCounter);
    var (ct, tag) := c.seal(TxKey(c, e.role, e.secret), iv, EffectiveAad(e.epoch, aad), plaintext);
    EncryptedMessage(iv, ct, tag)
  }

  /** Both decryption back ends: OpenSSL directly, or through the FIPS module. */
  function BackendOpen(c: Suite, key: seq<byte>, iv: seq<byte>, aad: seq<byte>,
                       ct: seq<byte>, tag: seq<byte>, fault: bool): Result<seq<byte>, ChannelError>
  {
    var unsealed := c.open(key, iv, aad, ct, tag);
    if c.viaFipsModule then
      var plaintext := if fault || unsealed.None? then [] else unsealed.value;
      if plaintext == [] && ct != [] then Err(InvalidTag) else Ok(plaintext)
    else if fault then Err(CryptoFailure)
    else if unsealed.None? then Err(InvalidTag)
    else Ok(unsealed.value)
  }

  ghost function DecryptSpec(c: Suite, e: Endpoint, m: EncryptedMessage, aad: seq<byte>, fault: Fault)
    : (Endpoint, Result<seq<byte>, ChannelError>)
  {
    if |m.tag| != TAG_LEN then (e, Err(BadTag))
    else if |m.ciphertext| > MAX_PAYLOAD then (e, Err(CiphertextTooLarge))
    else if |aad| > MAX_AAD then (e, Err(AadTooLong))
    else if FailsCheck(e, fault) then (e, Err(KeyTampered))
    else if |m.iv| != IV_LEN then (e, Err(BadIv))
    else if m.iv[..PREFIX_LEN] != RxPrefix(c, e.role, e.secret) then (e, Err(BadPrefix))
    else if !Fresh(e.accepted, Value(m.iv[PREFIX_LEN..])) then (e, Err(ReplayDetected))
    else
      match BackendOpen(c, RxKey(c, e.role, e.secret), m.iv, EffectiveAad(e.epoch, aad), m.ciphertext, m.tag,
                        fault.Library?)
      case Err(error) => (e, Err(error))
      case Ok(plaintext) => (e.(accepted := e.accepted + {Value(m.iv[PREFIX_LEN..])}), Ok(plaintext))
  }

  function RotateSpec(c: Suite, e: Endpoint, newKey: seq<byte>, fault: RotateFault)
    : (Endpoint, Result<(), ChannelError>)
  {
    if |newKey| < KEY_LEN then (e, Err(KeyTooShort))
    else if !e.usable || fault.RotateSelfCheck? then (e, Err(KeyTampered))
    else if fault.NewSecret? then (e, Err(CryptoFailure))
    else (Installed(e, c.rekey(e.secret, newKey), fault), if Interrupts(fault) then Err(CryptoFailure) else Ok(()))
  }

  /** A failed derivation leaves the new secret and epoch with the old counter and window, and no keys. */
  function Installed(e: Endpoint, secret: seq<byte>, fault: RotateFault): Endpoint {
    var next := e.(secret := secret, epoch := (e.epoch + 1) % TWO_32);
    if Interrupts(fault) then next.(usable := false) else next.(sendCounter := 0, accepted := {})
  }

  predicate Interrupts(fault: RotateFault) {
    fault.Derivation? && fault.done < 4
  }

  // --- The fields and the code ---

  class SecureChannel {
    const crypto: Suite
    const role: Role
    var sessionSecret: seq<byte>
    var txKey: seq<byte>
    var rxKey: seq<byte>
    var txKeyBackup: seq<byte>
    var rxKeyBackup: seq<byte>
    var txIvPrefix: seq<byte>
    var rxIvPrefix: seq<byte>
    var sendCounter: nat
    var recvCounter: int
    var keyEpoch: nat
    var replayWindowInitialized: bool
    var replayWindowTop: nat
    var replayWindowBitmap: bv64
    ghost var accepted: set<nat>

    /** Keys, prefixes and backups are those of a secret. */
    ghost predicate KeysOf(secret: seq<byte>)
      reads this`txKey, this`rxKey, this`txIvPrefix, this`rxIvPrefix, this`txKeyBackup, this`rxKeyBackup
    {
      && txKey == TxKey(crypto, role, secret) && rxKey == RxKey(crypto, role, secret)
      && txIvPrefix == TxPrefix(crypto, role, secret) && rxIvPrefix == RxPrefix(crypto, role, secret)
      && txKeyBackup == txKey && rxKeyBackup == rxKey
    }

    ghost predicate WindowValid()
      reads this`replayWindowInitialized, this`replayWindowTop, this`replayWindowBitmap, this`recvCounter, this`accepted
    {
      && Represents(replayWindowInitialized, replayWindowTop, replayWindowBitmap, accepted)
      && recvCounter == (if replayWindowInitialized then replayWindowTop else -1)
    }

    ghost predicate Valid()
      reads this
    {
      && (Usable() ==> KeysOf(sessionSecret))
      && WindowValid() && keyEpoch < TWO_32
      && |txIvPrefix| == PREFIX_LEN && |rxIvPrefix| == PREFIX_LEN
    }

    /** Keys and backups are there. */
    predicate Usable()
      reads this`txKey, this`rxKey, this`txKeyBackup, this`rxKeyBackup
    {
      && |txKey| == KEY_LEN && |rxKey| == KEY_LEN && |txKeyBackup| == KEY_LEN && |rxKeyBackup| == KEY_LEN
      && txKey == txKeyBackup && rxKey == rxKeyBackup
    }

    ghost function Abs(): Endpoint
      reads this
    {
      Endpoint(role, sessionSecret, keyEpoch, sendCounter, accepted, Usable())
    }

    constructor (crypto: Suite, sessionKey: seq<byte>, role: Role)
      requires |sessionKey| >= KEY_LEN
      ensures Valid() && this.crypto == crypto
      ensures Abs() == Endpoint(role, sessionKey[..KEY_LEN], 0, 0, {}, true)
    {
      hide TxKey, RxKey, TxPrefix, RxPrefix;
      this.crypto, this.role := crypto, role;
      sessionSecret := sessionKey[..KEY_LEN];
      sendCounter, keyEpoch := 0, 0;
      txKey, rxKey, txKeyBackup, rxKeyBackup := [], [], [], [];
      txIvPrefix, rxIvPrefix := ZERO_PREFIX, ZERO_PREFIX;
      new;
      var derived := DeriveDirectionalMaterial(sessionSecret, NoRotateFault);
      assert derived;
      ResetReplayWindow();
    }

    /** The constructor with its length check. */
    static method Open(crypto: Suite, sessionKey: seq<byte>, role: Role)
      returns (r: Result<SecureChannel, ChannelError>)
      ensures |sessionKey| < KEY_LEN ==> r == Err(KeyTooShort)
      ensures |sessionKey| >= KEY_LEN ==>
        r.Ok? && fresh(r.value) && r.value.Valid() && r.value.crypto == crypto &&
        r.value.Abs() == Endpoint(role, sessionKey[..KEY_LEN], 0, 0, {}, true)
    {
      if |sessionKey| < KEY_LEN {
        return Err(KeyTooShort);
      }
      var channel := new SecureChannel(crypto, sessionKey, role);
      return Ok(channel);
    }

    /** Stops at the derivation that fails; the backups are made last. */
    method DeriveDirectionalMaterial(secret: seq<byte>, fault: RotateFault) returns (ok: bool)
      requires |txIvPrefix| == PREFIX_LEN && |rxIvPrefix| == PREFIX_LEN
      modifies this`txKey, this`rxKey, this`txIvPrefix, this`rxIvPrefix, this`txKeyBackup, this`rxKeyBackup
      ensures ok <==> !Interrupts(fault)
      ensures |txIvPrefix| == PREFIX_LEN && |rxIvPrefix| == PREFIX_LEN
      ensures if ok then KeysOf(secret) && Usable() else old(txKeyBackup) == [] ==> !Usable()
    {
      if fault == Derivation(0) {
        return false;
      }
      txKey := crypto.derive(secret, TrafficKey(Outbound(role)), KEY_LEN);
      if fault == Derivation(1) {
        return false;
      }
      rxKey := crypto.derive(secret, TrafficKey(Inbound(role)), KEY_LEN);
      if fault == Derivation(2) {
        return false;
      }
      var txPrefix := crypto.derive(secret, IvPrefix(Outbound(role)), PREFIX_LEN);
      if fault == Derivation(3) {
        return false;
      }
      var rxPrefix := crypto.derive(secret, IvPrefix(Inbound(role)), PREFIX_LEN);
      txIvPrefix, rxIvPrefix := txPrefix, rxPrefix;
      txKeyBackup, rxKeyBackup := txKey, rxKey;
      return true;
    }

    /** The self-check: lengths, comparison with the backups, and the canaries, which only `fault` can upset. */
    method VerifyKeyIntegrity(canariesFail: bool) returns (ok: bool)
      ensures ok <==> Usable() && !canariesFail
    {
      if |txKey| != KEY_LEN || |rxKey| != KEY_LEN || |txKeyBackup| != KEY_LEN || |rxKeyBackup| != KEY_LEN {
        return false;
      }
      if txKey != txKeyBackup || rxKey != rxKeyBackup {
        return false;
      }
      return !canariesFail;
    }

    /** Fills the last four bytes from the least significant one backwards. */
    static method BuildIv(prefix: seq<byte>, counter: nat) returns (iv: seq<byte>)
      requires |prefix| == PREFIX_LEN
      ensures iv == Iv(prefix, counter)
    {
      var tail: seq<byte> := [0, 0, 0, 0];
      BigEndian4(counter);
      var i := 0;
      while i < COUNTER_LEN
        invariant 0 <= i <= COUNTER_LEN && |tail| == COUNTER_LEN
        invariant forall k :: COUNTER_LEN - i <= k < COUNTER_LEN ==> tail[k] == BigEndian(counter, COUNTER_LEN)[k]
      {
        Pow256Values();
        tail := tail[COUNTER_LEN - 1 - i := counter / Pow256(i) % 256];
        i := i + 1;
      }
      assert tail == BigEndian(counter, COUNTER_LEN);
      iv := prefix + tail;
    }

    method BuildEffectiveAad(aad: seq<byte>) returns (effective: seq<byte>)
      ensures effective == EffectiveAad(keyEpoch, aad)
    {
      effective := Ascii("HSC2");
      effective := AppendU32(effective, keyEpoch);
      effective := effective + aad;
    }

    /** Reads the counter back from a nonce of the peer. */
    method ParseRxCounter(iv: seq<byte>) returns (r: Result<nat, ChannelError>)
      requires |rxIvPrefix| == PREFIX_LEN
      ensures |iv| != IV_LEN ==> r == Err(BadIv)
      ensures |iv| == IV_LEN && iv[..PREFIX_LEN] != rxIvPrefix ==> r == Err(BadPrefix)
      ensures |iv| == IV_LEN && iv[..PREFIX_LEN] == rxIvPrefix ==> r == Ok(Value(iv[PREFIX_LEN..]))
    {
      if |iv| != IV_LEN {
        return Err(BadIv);
      }
      var i := 0;
      while i < PREFIX_LEN
        invariant 0 <= i <= PREFIX_LEN
        invariant iv[..i] == rxIvPrefix[..i]
      {
        if iv[i] != rxIvPrefix[i] {
          assert iv[..PREFIX_LEN][i] != rxIvPrefix[i];
          return Err(BadPrefix);
        }
        i := i + 1;
      }
      var counter: nat := 0;
      i := 0;
      while i < COUNTER_LEN
        invariant 0 <= i <= COUNTER_LEN
        invariant counter == Value(iv[PREFIX_LEN..PREFIX_LEN + i])
      {
        assert iv[PREFIX_LEN..PREFIX_LEN + i + 1][..i] == iv[PREFIX_LEN..PREFIX_LEN + i];
        counter := counter * 256 + iv[PREFIX_LEN + i] as int;
        i := i + 1;
      }
      assert iv[PREFIX_LEN..PREFIX_LEN + 4] == iv[PREFIX_LEN..];
      return Ok(counter);
    }

    method ResetReplayWindow()
      modifies this`replayWindowInitialized, this`replayWindowTop, this`replayWindowBitmap, this`recvCounter,
        this`accepted
      ensures WindowValid() && accepted == {}
    {
      replayWindowInitialized, replayWindowTop, replayWindowBitmap := false, 0, 0;
      recvCounter := -1;
      accepted := {};
    }

    /** The read-only test before decryption. */
    method CanAttemptDecryptForCounter(counter: nat) returns (ok: bool)
      requires WindowValid()
      ensures ok <==> Fresh(accepted, counter)
    {
      if !replayWindowInitialized {
        return counter < WINDOW_SIZE;
      }
      if counter > replayWindowTop {
        return true;
      }
      var delta := replayWindowTop - counter;
      if delta >= WINDOW_SIZE {
        return false;
      }
      var marked := TestBit(replayWindowBitmap, delta);
      assert marked <==> counter in accepted by {
        assert delta in Distances(replayWindowTop, accepted) <==> counter in accepted;
      }
      return !marked;
    }

    /** The accepting step decides the same predicate and records exactly this counter. */
    method AcceptReplayCounter(counter: nat) returns (ok: bool)
      requires WindowValid()
      modifies this`replayWindowInitialized, this`replayWindowTop, this`replayWindowBitmap, this`recvCounter,
        this`accepted
      ensures WindowValid()
      ensures ok <==> Fresh(old(accepted), counter)
      ensures accepted == if ok then old(accepted) + {counter} else old(accepted)
    {
      if !replayWindowInitialized {
        if counter >= WINDOW_SIZE {
          return false;
        }
        FirstRepresents(counter);
        replayWindowInitialized, replayWindowTop, replayWindowBitmap := true, counter, 1;
        recvCounter := counter;
        accepted := accepted + {counter};
        return true;
      }
      if counter > replayWindowTop {
        var shift := counter - replayWindowTop;
        var next := ShiftIn(replayWindowBitmap, shift);
        AdvanceRepresents(replayWindowTop, replayWindowBitmap, accepted, counter, next);
        replayWindowBitmap := next;
        replayWindowTop := counter;
        recvCounter := counter;
        accepted := accepted + {counter};
        return true;
      }
      var delta := replayWindowTop - counter;
      if delta >= WINDOW_SIZE {
        return false;
      }
      var marked := TestBit(replayWindowBitmap, delta);
      assert marked <==> counter in accepted by {
        assert delta in Distances(replayWindowTop, accepted) <==> counter in accepted;
      }
      if marked {
        return false;
      }
      var next := SetBit(replayWindowBitmap, delta);
      FillRepresents(replayWindowTop, replayWindowBitmap, accepted, counter, next);
      replayWindowBitmap := next;
      accepted := accepted + {counter};
      return true;
    }

    method Encrypt(plaintext: seq<byte>, aad: seq<byte>, fault: Fault)
      returns (r: Result<EncryptedMessage, ChannelError>)
      requires Valid()
      modifies this
      ensures Valid()
      ensures (Abs(), r) == EncryptSpec(crypto, old(Abs()), plaintext, aad, fault)
    {
      if plaintext == [] {
        return Err(EmptyPlaintext);
      }
      if |plaintext| > MAX_PAYLOAD {
        return Err(PlaintextTooLarge);
      }
      var intact := VerifyKeyIntegrity(fault.SelfCheck?);
      if !intact {
        return Err(KeyTampered);
      }
      var currentCounter := sendCounter;
      if currentCounter > MAX_COUNTER {
        return Err(CounterExhausted);
      }
      sendCounter := currentCounter + 1;
      var iv := BuildIv(txIvPrefix, currentCounter);
      var effectiveAad := BuildEffectiveAad(aad);
      if fault.Library? {
        return Err(CryptoFailure);
      }
      var (ciphertext, tag) := crypto.seal(txKey, iv, effectiveAad, plaintext);
      return Ok(EncryptedMessage(iv, ciphertext, tag));
    }

    method Decrypt(iv: seq<byte>, ciphertext: seq<byte>, tag: seq<byte>, aad: seq<byte>, fault: Fault)
      returns (r: Result<seq<byte>, ChannelError>)
      requires Valid()
      modifies this
      ensures Valid()
      ensures (Abs(), r) == DecryptSpec(crypto, old(Abs()), EncryptedMessage(iv, ciphertext, tag), aad, fault)
    {
      hide TxKey, RxKey, TxPrefix, BackendOpen, EffectiveAad, Represents, Fresh;
      if |tag| != TAG_LEN {
        return Err(BadTag);
      }
      if |ciphertext| > MAX_PAYLOAD {
        return Err(CiphertextTooLarge);
      }
      if |aad| > MAX_AAD {
        return Err(AadTooLong);
      }
      var intact := VerifyKeyIntegrity(fault.SelfCheck?);
      if !intact {
        return Err(KeyTampered);
      }
      var parsed := ParseRxCounter(iv);
      if parsed.Err? {
        return Err(parsed.error);
      }
      var counter := parsed.value;
      var attempt := CanAttemptDecryptForCounter(counter);
      if !attempt {
        return Err(ReplayDetected);
      }
      var effectiveAad := BuildEffectiveAad(aad);
      var unsealed := BackendOpen(crypto, rxKey, iv, effectiveAad, ciphertext, tag, fault.Library?);
      if unsealed.Err? {
        return Err(unsealed.error);
      }
      var taken := AcceptReplayCounter(counter);
      // The second rejection cannot occur: both tests decide one predicate.
      assert taken;
      return Ok(unsealed.value);
    }

    method RotateKey(newKey: seq<byte>, fault: RotateFault) returns (r: Result<(), ChannelError>)
      requires Valid()
      modifies this
      ensures Valid()
      ensures (Abs(), r) == RotateSpec(crypto, old(Abs()), newKey, fault)
    {
      hide Installed;
      if |newKey| < KEY_LEN {
        return Err(KeyTooShort);
      }
      var intact := VerifyKeyIntegrity(fault.RotateSelfCheck?);
      if !intact {
        return Err(KeyTampered);
      }
      if fault.NewSecret? {
        return Err(CryptoFailure);
      }
      var nextSessionSecret := crypto.rekey(sessionSecret, newKey);
      var installed := InstallSecret(nextSessionSecret, fault);
      return if installed then Ok(()) else Err(CryptoFailure);
    }

    method DiscardKeys()
      modifies this`txKey, this`rxKey, this`txKeyBackup, this`rxKeyBackup
      ensures txKey == rxKey == txKeyBackup == rxKeyBackup == []
    {
      txKey, rxKey, txKeyBackup, rxKeyBackup := [], [], [], [];
    }

    /** The old keys are gone before the new ones are derived. */
    method InstallSecret(nextSessionSecret: seq<byte>, fault: RotateFault) returns (ok: bool)
      requires Valid() && Usable()
      modifies this
      ensures Valid()
      ensures Abs() == Installed(old(Abs()), nextSessionSecret, fault) && (ok <==> !Interrupts(fault))
    {
      hide KeysOf, Usable, WindowValid, Interrupts, TxKey, RxKey, TxPrefix, RxPrefix;
      DiscardKeys();
      sessionSecret := nextSessionSecret;
      keyEpoch := (keyEpoch + 1) % TWO_32;
      ok := DeriveDirectionalMaterial(sessionSecret, fault);
      if ok {
        sendCounter := 0;
        ResetReplayWindow();
      }
    }
  }
}
