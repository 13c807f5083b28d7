/** The drone object: handshake handlers, session state, and secure messages. */
module HesiaDrone {
  import opened Bytes
  import opened Wrappers
  import opened Crypto
  import opened Protocol
  import opened Channel = SecureChannel
  import opened ChannelRuns
  import opened Handshake
  import opened MessageChain
  import opened MessageText
  import Freshness = SessionCache

  lemma FirstEncryption(c: Suite, e: Endpoint, aad: seq<byte>, fault: Fault)
    requires e.sendCounter == 0 && e.usable
    ensures var (next, r) := EncryptSpec(c, e, BETA, aad, fault);
      && next == e.(sendCounter := if fault.SelfCheck? then 0 else 1)
      && if fault.NoFault? then r == Ok(Sealed(c, e, BETA, aad)) else r.Err?
  {
    hide Sealed;
  }

  /** The first message of a session. */
  function TestMessage(cfg: Config, sessionKey: seq<byte>, lastBlockHash: seq<byte>): EncryptedMessage {
    Sealed(cfg.session.suite, Endpoint(DroneClient, sessionKey, 0, 0, {}, true), BETA, lastBlockHash)
  }

  /**
   A server that holds the same session key opens the test message as "beta", under the same
   chain head; from there on the two ends are in step.
   */
  lemma TestMessageOpens(cfg: Config, sessionKey: seq<byte>, head: seq<byte>)
    requires |head| == 64
    ensures var server := Endpoint(ServerResponder, sessionKey, 0, 0, {}, true);
      var start := Chain(head, 0, Endpoint(DroneClient, sessionKey, 0, 1, {}, true));
      var (after, r) := DecryptSpec(cfg.session.suite, server, TestMessage(cfg, sessionKey, head), head, NoFault);
      && r == Ok([98, 101, 116, 97]) && after.usable && Peers(start.channel, after)
      && Before(start, after) && after.accepted == {0}
  {
    var drone := Endpoint(DroneClient, sessionKey, 0, 0, {}, true);
    var server := Endpoint(ServerResponder, sessionKey, 0, 0, {}, true);
    PeerDecrypts(cfg.session.suite, drone, server, BETA, head);
    hide DecryptSpec, Sealed;
  }

  class HesiaDrone {
    const cfg: Config
    const sessions: Freshness.SessionCache
    var phase: Phase
    var lastBlockHash: seq<byte>
    var sessionKey: seq<byte>
    var sessionId: seq<byte>
    var transcriptHash: seq<byte>
    var helloRandom: seq<byte>
    var exporterBound: bool
    var secureChannel: Channel.SecureChannel?
    var videoKey: seq<byte>
    var seqNo: nat

    ghost function Abs(): Drone
      reads this
    {
      Drone(phase, lastBlockHash, sessionKey, sessionId, transcriptHash, helloRandom, exporterBound)
    }

    ghost predicate ChannelReady()
      reads this, secureChannel
    {
      secureChannel != null && secureChannel.Valid() && secureChannel.crypto == cfg.session.suite
    }

    ghost predicate Valid()
      reads this, secureChannel
    {
      && (sessionKey == [] || |sessionKey| == KEY_LEN)
      && (Rank(phase) >= 4 ==> |sessionKey| == KEY_LEN)
      && (Rank(phase) >= 5 ==> ChannelReady())
    }

    ghost function ChainState(): Chain
      requires secureChannel != null
      reads this, secureChannel
    {
      Chain(lastBlockHash, seqNo, secureChannel.Abs())
    }

    constructor (cfg: Config, sessions: Freshness.SessionCache, exporterBound: bool)
      ensures this.cfg == cfg && this.sessions == sessions
      ensures Valid() && Abs() == Start(exporterBound) && seqNo == 0
    {
      this.cfg, this.sessions, this.exporterBound := cfg, sessions, exporterBound;
      phase, lastBlockHash, seqNo := Idle, seq(64, i => 0), 0;
      sessionKey, sessionId, transcriptHash, helloRandom, secureChannel, videoKey := [], [], [], [], null, [];
    }

    method BuildHello(random: Option<seq<byte>>) returns (r: Result<HelloMessage, HandshakeError>)
      requires Valid()
      modifies this
      ensures Valid() && (Abs(), r) == HelloSpec(cfg, old(Abs()), random)
    {
      if phase != Idle {
        return Err(InvalidState);
      }
      if random.None? {
        return Err(NoRandomness);
      }
      helloRandom := random.value;
      phase := HelloSent;
      var features := 1;
      if |cfg.exporter| == 32 {
        features := features + 2;
        if cfg.requireExporterBinding {
          features := features + 4;
        }
      }
      return Ok(HelloMessage(helloRandom, 1, features));
    }

    method HandleHelloAck(ack: HelloAck) returns (r: Result<(), HandshakeError>)
      requires Valid()
      modifies this
      ensures Valid() && (Abs(), r) == HelloAckSpec(cfg, old(Abs()), ack)
    {
      if phase != HelloSent {
        return Err(InvalidState);
      }
      var expected := cfg.Hash(helloRandom + DRONE_SALT);
      if ack.responseHash != expected {
        return Err(AuthenticationFailed);
      }
      exporterBound := ack.offersExporterBinding;
      if !exporterBound {
        return Err(NoExporterBinding);
      }
      if |cfg.exporter| != EXPORTER_LEN {
        return Err(NoExporterBinding);
      }
      phase := KeyExchange;
      return Ok(());
    }

    /** The cache is consulted, and changed, only in the right state; a later failure does not undo it. */
    method HandleKeyInit(init: KeyInit, now: nat, e: Option<Encapsulation>) returns (r: Result<KeyResp, HandshakeError>)
      requires Valid()
      modifies this, sessions
      ensures Valid()
      ensures var (used, verdict) := Freshness.CheckSpec(old(sessions.usedSessions), init, now);
        && (Abs(), r) == KeyInitSpec(cfg, old(Abs()), init, verdict.Ok?, e)
        && sessions.usedSessions == if old(phase) == KeyExchange then used else old(sessions.usedSessions)
    {
      if phase != KeyExchange {
        return Err(InvalidState);
      }
      var verdict := sessions.CheckFreshness(init, now);
      if verdict.Err? {
        return Err(NotFresh);
      }
      if |init.kyberPubkey| == 0 || |init.kyberPubkey| > 16 * 1024 {
        return Err(BadKeyInit);
      }
      if |init.nonceS| < 16 || |init.nonceS| > 64 {
        return Err(BadKeyInit);
      }
      var context := ContextLabel() + init.kyberPubkey + init.nonceS + init.sessionId;
      if init.contextHash != cfg.Hash(context) {
        return Err(BadContext);
      }
      if e.None? {
        return Err(NoRandomness);
      }
      if !exporterBound || |cfg.exporter| != EXPORTER_LEN {
        return Err(NoExporterBinding);
      }
      var key := cfg.sessionKdf(e.value.shared, Salt(cfg, init, e.value.nonceD));
      if |key| != KEY_LEN {
        return Err(KdfFailed);
      }
      sessionKey, sessionId, transcriptHash := key, init.sessionId, [];
      var responseData := e.value.ciphertext + e.value.nonceD + init.sessionId + key;
      return Ok(KeyResp(e.value.ciphertext, e.value.nonceD, init.sessionId, cfg.Hash(responseData)));
    }

    method HandleKeyConfirm(kc: KeyConfirm, expected: seq<byte>, now: nat) returns (r: Result<(), HandshakeError>)
      requires Valid()
      modifies this
      ensures Valid() && (Abs(), r) == KeyConfirmSpec(cfg, old(Abs()), kc, expected, now)
    {
      if phase != KeyExchange {
        return Err(InvalidState);
      }
      if sessionId == [] || kc.sessionId != sessionId {
        return Err(BadKeyConfirm);
      }
      if |kc.transcriptHash| != TRANSCRIPT_LEN || |expected| != TRANSCRIPT_LEN || kc.transcriptHash != expected {
        return Err(BadKeyConfirm);
      }
      if kc.timestamp == 0 {
        if cfg.prodFuse {
          return Err(BadTimestamp);
        }
      } else if Freshness.TimestampError(kc.timestamp, now).Some? {
        return Err(BadTimestamp);
      }
      var signedPayload := sessionId + expected;
      signedPayload := AppendU64(signedPayload, kc.timestamp);
      var ok := cfg.verify(cfg.serverPubkey, signedPayload, kc.signature);
      if !ok && !cfg.prodFuse {
        ok := cfg.verify(cfg.serverPubkey, sessionId + expected, kc.signature);
      }
      if !ok {
        return Err(InvalidSignature);
      }
      transcriptHash := expected;
      phase := KeyConfirmed;
      return Ok(());
    }

    method BuildDroneAuth(e: Option<Evidence>) returns (r: Result<SignedDroneAuth, HandshakeError>)
      requires Valid()
      modifies this
      ensures Valid() && (Abs(), r) == DroneAuthSpec(cfg, old(Abs()), e)
    {
      if phase != KeyConfirmed {
        return Err(InvalidState);
      }
      if sessionKey == [] || |sessionId| < 16 || |transcriptHash| != TRANSCRIPT_LEN {
        return Err(InvalidState);
      }
      if e.None? {
        return Err(NoEvidence);
      }
      var pufInfo := transcriptHash;
      pufInfo := pufInfo + e.value.firmwareHash;
      pufInfo := pufInfo + e.value.bootMeasureDigest;
      pufInfo := pufInfo + cfg.peerCert;
      var pufResponse := cfg.puf(sessionId, pufInfo);
      var block := DroneAuth(cfg.droneId, cfg.dronePubkey, e.value.firmwareHash, pufResponse, lastBlockHash,
                             sessionId, transcriptHash, cfg.peerCert, e.value.bootMeasureDigest,
                             e.value.teeAttestationPubkey);
      var payload := BuildSignedDroneAuthPayload(block);
      var signature := cfg.sign(payload);
      var attestation := [];
      if cfg.attest.Some? {
        attestation := cfg.attest.value(payload);
        if attestation == [] {
          return Err(NoEvidence);
        }
      }
      lastBlockHash := cfg.Hash(payload);
      phase := DroneAuthSent;
      return Ok(SignedDroneAuth(block, signature, attestation));
    }

    /** On success the secure channel exists, and its first counter is spent on the test message. */
    method HandleServerAuth(block: ServerAuth, policyHash: seq<byte>, fault: Fault)
      returns (r: Result<EncryptedMessage, HandshakeError>)
      requires Valid()
      modifies this
      ensures Valid()
      ensures var (d, verdict) := ServerAuthSpec(cfg, old(Abs()), block, policyHash);
        && Abs() == d
        && (verdict.Err? ==>
              r == Err(verdict.error) && secureChannel == old(secureChannel) && videoKey == old(videoKey))
        && (verdict.Ok? ==>
              && secureChannel != null && fresh(secureChannel)
              && secureChannel.Abs() ==
                 Endpoint(DroneClient, sessionKey, 0, if fault.SelfCheck? then 0 else 1, {}, true)
              && videoKey == cfg.videoKdf(sessionKey)
              && r == if !fault.NoFault? then Err(ChannelFailed)
                      else Ok(TestMessage(cfg, d.sessionKey, d.lastBlockHash)))
    {
      hide TestMessage, ServerAuth.Payload;
      var verdict, payload := CheckServerAuth(block, policyHash);
      if verdict.Err? {
        return Err(verdict.error);
      }
      lastBlockHash := cfg.Hash(payload);
      phase := ServerAuthVerified;
      r := StartChannel(fault);
    }

    /** The checks of SERVER_AUTH, in order. */
    method CheckServerAuth(block: ServerAuth, policyHash: seq<byte>)
      returns (verdict: Result<(), HandshakeError>, payload: seq<byte>)
      ensures verdict == ServerAuthSpec(cfg, Abs(), block, policyHash).1
      ensures verdict.Ok? ==> payload == block.Payload()
    {
      payload := [];
      if phase != DroneAuthSent {
        return Err(InvalidState), [];
      }
      if block.serverPubkey != cfg.serverPubkey {
        return Err(AuthenticationFailed), [];
      }
      if block.policyHash != policyHash {
        return Err(PolicyMismatch), [];
      }
      payload := BuildServerAuthPayload(block);
      var valid := cfg.verify(cfg.serverPubkey, payload, block.signature);
      if !valid {
        return Err(InvalidSignature), [];
      }
      if block.lastBlockHash != lastBlockHash {
        return Err(BrokenChain), [];
      }
      return Ok(()), payload;
    }

    /** The channel under the session key, and the test message on it. */
    method StartChannel(fault: Fault) returns (r: Result<EncryptedMessage, HandshakeError>)
      requires |sessionKey| == KEY_LEN
      modifies this`secureChannel, this`videoKey
      ensures ChannelReady() && fresh(secureChannel)
      ensures secureChannel.Abs() ==
        Endpoint(DroneClient, sessionKey, 0, if fault.SelfCheck? then 0 else 1, {}, true)
      ensures videoKey == cfg.videoKdf(sessionKey)
      ensures r == if !fault.NoFault? then Err(ChannelFailed) else Ok(TestMessage(cfg, sessionKey, lastBlockHash))
    {
      var channel := new Channel.SecureChannel(cfg.session.suite, sessionKey, DroneClient);
      assert sessionKey[..KEY_LEN] == sessionKey;
      FirstEncryption(cfg.session.suite, channel.Abs(), lastBlockHash, fault);
      hide EncryptSpec, Sealed;
      videoKey := cfg.videoKdf(sessionKey);
      var encrypted := channel.Encrypt(BETA, lastBlockHash, fault);
      secureChannel := channel;
      r := if encrypted.Ok? then Ok(encrypted.value) else Err(ChannelFailed);
    }

    method FinalizeConfirmOk(response: seq<byte>) returns (r: Result<(), HandshakeError>)
      requires Valid()
      modifies this
      ensures Valid() && (Abs(), r) == ConfirmOkSpec(old(Abs()), response)
    {
      if phase != ServerAuthVerified {
        return Err(InvalidState);
      }
      if response != OK_BYTES {
        return Err(AuthenticationFailed);
      }
      phase := InSession;
      return Ok(());
    }

    /** Encrypts under the chain head, then advances chain and sequence number; on failure at most the counter moves. */
    method SendSecureMessage(msgType: seq<byte>, json: seq<byte>, fault: Fault)
      returns (r: Result<EncryptedMessage, HandshakeError>)
      requires Valid()
      modifies this, secureChannel
      ensures Valid() && phase == old(phase) && secureChannel == old(secureChannel)
      ensures old(phase) != InSession ==> r == Err(InvalidState) && Abs() == old(Abs()) && seqNo == old(seqNo)
      ensures old(phase) == InSession ==>
        var (chain, sent) := SendSpec(cfg.session, old(ChainState()), msgType, json, fault);
        ChainState() == chain && r == if sent.Ok? then Ok(sent.value.message) else Err(ChannelFailed)
    {
      if phase != InSession {
        return Err(InvalidState);
      }
      var plaintext := Render(msgType, seqNo, json);
      var encrypted := secureChannel.Encrypt(plaintext, lastBlockHash, fault);
      if encrypted.Err? {
        return Err(ChannelFailed);
      }
      var combined := lastBlockHash + plaintext;
      lastBlockHash := cfg.Hash(combined);
      seqNo := U64(seqNo + 1);
      return Ok(encrypted.value);
    }
  }
}
