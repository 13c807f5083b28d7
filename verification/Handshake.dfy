/** The drone's handshake: seven states, each left only by the check of the next message. */
module Handshake {
  import opened Bytes
  import opened Wrappers
  import opened Crypto
  import opened Protocol
  import opened SecureChannel
  import Freshness = SessionCache
  import Chaining = MessageChain

  datatype Phase =
    | Idle | HelloSent | KeyExchange | KeyConfirmed | DroneAuthSent | ServerAuthVerified | InSession

  datatype HandshakeError =
    | InvalidState | NoRandomness | AuthenticationFailed | NoExporterBinding | NotFresh | BadKeyInit
    | BadContext | KdfFailed | BadKeyConfirm | BadTimestamp | NoEvidence | PolicyMismatch
    | InvalidSignature | BrokenChain | ChannelFailed

  /** What a drone is built with, and the primitives it uses. */
  datatype Config = Config(
    session: Chaining.Session,
    verify: (seq<byte>, seq<byte>, seq<byte>) -> bool,
    sessionKdf: (seq<byte>, seq<byte>) -> seq<byte>,
    videoKdf: seq<byte> -> seq<byte>,
    sign: seq<byte> -> seq<byte>, attest: Option<seq<byte> -> seq<byte>>, requireExporterBinding: bool,
    serverPubkey: seq<byte>, prodFuse: bool, exporter: seq<byte>, peerCert: seq<byte>,
    droneId: seq<byte>, dronePubkey: seq<byte>,
    puf: (seq<byte>, seq<byte>) -> seq<byte>)
  {
    function Hash(x: seq<byte>): seq<byte> {
      session.hash(x)
    }
  }

  datatype Drone = Drone(
    phase: Phase, lastBlockHash: seq<byte>, sessionKey: seq<byte>, sessionId: seq<byte>,
    transcriptHash: seq<byte>, helloRandom: seq<byte>, exporterBound: bool)

  const DRONE_SALT: seq<byte> := [0x44, 0x52, 0x4F, 0x4E, 0x45, 0x5F, 0x53, 0x41, 0x4C, 0x54]
  const OK_BYTES: seq<byte> := [0x4F, 0x4B]
  const BETA: seq<byte> := [0x62, 0x65, 0x74, 0x61]
  const EXPORTER_LEN: nat := 32
  const TRANSCRIPT_LEN: nat := 64

  function Start(exporterBound: bool): Drone {
    Drone(Idle, seq(64, i => 0), [], [], [], [], exporterBound)
  }

  // --- What the handlers mean ---

  /** Exporter binding is offered with a 32-byte exporter only, and required only if it is offered. */
  function Features(cfg: Config): nat {
    if |cfg.exporter| != EXPORTER_LEN then 1 else if cfg.requireExporterBinding then 7 else 3
  }

  function HelloSpec(cfg: Config, d: Drone, random: Option<seq<byte>>)
    : (Drone, Result<HelloMessage, HandshakeError>)
  {
    if d.phase != Idle then (d, Err(InvalidState))
    else if random.None? then (d, Err(NoRandomness))
    else (d.(phase := HelloSent, helloRandom := random.value), Ok(HelloMessage(random.value, 1, Features(cfg))))
  }

  function HelloAckSpec(cfg: Config, d: Drone, ack: HelloAck): (Drone, Result<(), HandshakeError>) {
    if d.phase != HelloSent then (d, Err(InvalidState))
    else if ack.responseHash != cfg.Hash(d.helloRandom + DRONE_SALT) then (d, Err(AuthenticationFailed))
    else
      var d' := d.(exporterBound := ack.offersExporterBinding);
      if !ack.offersExporterBinding || |cfg.exporter| != EXPORTER_LEN then (d', Err(NoExporterBinding))
      else (d'.(phase := KeyExchange), Ok(()))
  }

  /** Encapsulation and nonce of one KEY_INIT; None when the library fails. */
  datatype Encapsulation = Encapsulation(ciphertext: seq<byte>, shared: seq<byte>, nonceD: seq<byte>)

  function ContextLabel(): seq<byte> {
    Ascii("HESIA_CTX_v1")
  }

  function Salt(cfg: Config, init: KeyInit, nonceD: seq<byte>): seq<byte> {
    init.nonceS + nonceD + init.sessionId + cfg.exporter
  }

  /** `isNew` is the verdict of the session cache, which is consulted first. */
  function KeyInitSpec(cfg: Config, d: Drone, init: KeyInit, isNew: bool, e: Option<Encapsulation>)
    : (Drone, Result<KeyResp, HandshakeError>)
  {
    if d.phase != KeyExchange then (d, Err(InvalidState))
    else if !isNew then (d, Err(NotFresh))
    else if |init.kyberPubkey| == 0 || |init.kyberPubkey| > 16 * 1024 || |init.nonceS| < 16 || |init.nonceS| > 64 then
      (d, Err(BadKeyInit))
    else if init.contextHash != cfg.Hash(ContextLabel() + init.kyberPubkey + init.nonceS + init.sessionId) then
      (d, Err(BadContext))
    else if e.None? then (d, Err(NoRandomness))
    else if !d.exporterBound || |cfg.exporter| != EXPORTER_LEN then (d, Err(NoExporterBinding))
    else
      var key := cfg.sessionKdf(e.value.shared, Salt(cfg, init, e.value.nonceD));
      if |key| != KEY_LEN then (d, Err(KdfFailed))
      else
        (d.(sessionKey := key, sessionId := init.sessionId, transcriptHash := []),
         Ok(KeyResp(e.value.ciphertext, e.value.nonceD, init.sessionId,
                    cfg.Hash(e.value.ciphertext + e.value.nonceD + init.sessionId + key))))
  }

  function ConfirmPayload(sessionId: seq<byte>, transcriptHash: seq<byte>, timestamp: nat): seq<byte> {
    sessionId + transcriptHash + BigEndian(timestamp, 8)
  }

  /** The server signed session id and transcript; outside production also without the timestamp. */
  predicate ConfirmSigned(cfg: Config, sessionId: seq<byte>, transcriptHash: seq<byte>, kc: KeyConfirm) {
    || cfg.verify(cfg.serverPubkey, ConfirmPayload(sessionId, transcriptHash, kc.timestamp), kc.signature)
    || (!cfg.prodFuse && cfg.verify(cfg.serverPubkey, sessionId + transcriptHash, kc.signature))
  }

  function KeyConfirmSpec(cfg: Config, d: Drone, kc: KeyConfirm, expected: seq<byte>, now: nat)
    : (Drone, Result<(), HandshakeError>)
  {
    if d.phase != KeyExchange then (d, Err(InvalidState))
    else if d.sessionId == [] || kc.sessionId != d.sessionId then (d, Err(BadKeyConfirm))
    else if |kc.transcriptHash| != TRANSCRIPT_LEN || kc.transcriptHash != expected then (d, Err(BadKeyConfirm))
    else if kc.timestamp == 0 && cfg.prodFuse then (d, Err(BadTimestamp))
    else if Freshness.TimestampError(kc.timestamp, now).Some? then (d, Err(BadTimestamp))
    else if !ConfirmSigned(cfg, d.sessionId, expected, kc) then (d, Err(InvalidSignature))
    else (d.(transcriptHash := expected, phase := KeyConfirmed), Ok(()))
  }

  /** Measurements for one DRONE_AUTH; None when any of them, or the PUF, cannot be obtained. */
  datatype Evidence = Evidence(firmwareHash: seq<byte>, bootMeasureDigest: seq<byte>, teeAttestationPubkey: seq<byte>)

  /** The PUF is challenged with the session: its id as salt, and everything measured as info. */
  function PufInfo(cfg: Config, d: Drone, e: Evidence): seq<byte> {
    d.transcriptHash + e.firmwareHash + e.bootMeasureDigest + cfg.peerCert
  }

  function AuthBlock(cfg: Config, d: Drone, e: Evidence): DroneAuth {
    DroneAuth(cfg.droneId, cfg.dronePubkey, e.firmwareHash, cfg.puf(d.sessionId, PufInfo(cfg, d, e)),
              d.lastBlockHash, d.sessionId,
              d.transcriptHash, cfg.peerCert, e.bootMeasureDigest, e.teeAttestationPubkey)
  }

  function Attestation(cfg: Config, block: DroneAuth): seq<byte> {
    if cfg.attest.Some? then cfg.attest.value(block.Payload()) else []
  }

  /** An empty attestation counts as a failure; the state does not move then. */
  function DroneAuthSpec(cfg: Config, d: Drone, e: Option<Evidence>)
    : (Drone, Result<SignedDroneAuth, HandshakeError>)
  {
    if d.phase != KeyConfirmed then (d, Err(InvalidState))
    else if d.sessionKey == [] || |d.sessionId| < 16 || |d.transcriptHash| != TRANSCRIPT_LEN then (d, Err(InvalidState))
    else if e.None? then (d, Err(NoEvidence))
    else
      var block := AuthBlock(cfg, d, e.value);
      if cfg.attest.Some? && Attestation(cfg, block) == [] then (d, Err(NoEvidence))
      else
        (d.(lastBlockHash := cfg.Hash(block.Payload()), phase := DroneAuthSent),
         Ok(SignedDroneAuth(block, cfg.sign(block.Payload()), Attestation(cfg, block))))
  }

  predicate ServerSigned(cfg: Config, block: ServerAuth) {
    cfg.verify(cfg.serverPubkey, block.Payload(), block.signature)
  }

  function ServerAuthSpec(cfg: Config, d: Drone, block: ServerAuth, policyHash: seq<byte>)
    : (Drone, Result<(), HandshakeError>)
  {
    if d.phase != DroneAuthSent then (d, Err(InvalidState))
    else if block.serverPubkey != cfg.serverPubkey then (d, Err(AuthenticationFailed))
    else if block.policyHash != policyHash then (d, Err(PolicyMismatch))
    else if !ServerSigned(cfg, block) then (d, Err(InvalidSignature))
    else if block.lastBlockHash != d.lastBlockHash then (d, Err(BrokenChain))
    else (d.(lastBlockHash := cfg.Hash(block.Payload()), phase := ServerAuthVerified), Ok(()))
  }

  function ConfirmOkSpec(d: Drone, response: seq<byte>): (Drone, Result<(), HandshakeError>) {
    if d.phase != ServerAuthVerified then (d, Err(InvalidState))
    else if response != OK_BYTES then (d, Err(AuthenticationFailed))
    else (d.(phase := InSession), Ok(()))
  }

  // --- Runs ---

  datatype Event =
    | Hello(random: Option<seq<byte>>)
    | Ack(ack: HelloAck)
    | Init(init: KeyInit, isNew: bool, encapsulation: Option<Encapsulation>)
    | Confirm(confirm: KeyConfirm, expected: seq<byte>, now: nat)
    | Auth(evidence: Option<Evidence>)
    | Server(block: ServerAuth, policyHash: seq<byte>)
    | ConfirmOk(response: seq<byte>)

  /** A KEY_INIT that was answered, the verdict of the cache on it, and the answer. */
  datatype Exchange = Exchange(init: KeyInit, isNew: bool, e: Encapsulation, response: KeyResp)

  /** A session with what it accepted and sent on the way. */
  datatype History = History(
    drone: Drone,
    hello: Option<HelloMessage>,
    ack: Option<HelloAck>,
    exchange: Option<Exchange>,
    confirm: Option<(KeyConfirm, nat)>,         // with the time at which it came
    auth: Option<SignedDroneAuth>,
    server: Option<(ServerAuth, seq<byte>)>,    // with the drone's own policy hash
    answer: Option<seq<byte>>)

  function Step(cfg: Config, h: History, event: Event): History {
    match event
    case Hello(random) =>
      var (d, r) := HelloSpec(cfg, h.drone, random);
      h.(drone := d, hello := if r.Ok? then Some(r.value) else h.hello)
    case Ack(ack) =>
      var (d, r) := HelloAckSpec(cfg, h.drone, ack);
      h.(drone := d, ack := if r.Ok? then Some(ack) else h.ack)
    case Init(init, isNew, e) =>
      var (d, r) := KeyInitSpec(cfg, h.drone, init, isNew, e);
      h.(drone := d, exchange := if r.Ok? then Some(Exchange(init, isNew, e.value, r.value)) else h.exchange)
    case Confirm(kc, expected, now) =>
      var (d, r) := KeyConfirmSpec(cfg, h.drone, kc, expected, now);
      h.(drone := d, confirm := if r.Ok? then Some((kc, now)) else h.confirm)
    case Auth(e) =>
      var (d, r) := DroneAuthSpec(cfg, h.drone, e);
      h.(drone := d, auth := if r.Ok? then Some(r.value) else h.auth)
    case Server(block, policyHash) =>
      var (d, r) := ServerAuthSpec(cfg, h.drone, block, policyHash);
      h.(drone := d, server := if r.Ok? then Some((block, policyHash)) else h.server)
    case ConfirmOk(response) =>
      var (d, r) := ConfirmOkSpec(h.drone, response);
      h.(drone := d, answer := if r.Ok? then Some(response) else h.answer)
  }

  function Run(cfg: Config, exporterBound: bool, events: seq<Event>): History {
    if events == [] then History(Start(exporterBound), None, None, None, None, None, None, None)
    else Step(cfg, Run(cfg, exporterBound, events[..|events| - 1]), events[|events| - 1])
  }

  function Rank(p: Phase): nat {
    match p
    case Idle => 0 case HelloSent => 1 case KeyExchange => 2 case KeyConfirmed => 3
    case DroneAuthSent => 4 case ServerAuthVerified => 5 case InSession => 6
  }

  // --- What holds from each state on, written out ---

  /** HELLO carried the random bytes kept; bit 2 offers, bit 4 requires the binding to the exporter. */
  predicate Greeted(cfg: Config, h: History) {
    && h.hello.Some? && h.hello.value.random == h.drone.helloRandom && h.hello.value.version == 1
    && h.hello.value.features % 2 == 1
    && (h.hello.value.features / 2 % 2 == 1 <==> |cfg.exporter| == 32)
    && (h.hello.value.features / 4 % 2 == 1 <==> |cfg.exporter| == 32 && cfg.requireExporterBinding)
  }

  /** HELLO_ACK answered exactly these bytes and offered the binding. */
  predicate Acknowledged(cfg: Config, h: History) {
    && h.ack.Some? && h.ack.value.responseHash == cfg.session.hash(h.drone.helloRandom + Ascii("DRONE_SALT"))
    && h.ack.value.offersExporterBinding && h.drone.exporterBound && |cfg.exporter| == 32
  }

  /** Key and session id are those of the last KEY_INIT, which was new, with the exporter of this connection. */
  predicate KeyDerived(cfg: Config, h: History) {
    h.exchange.Some? &&
    var Exchange(init, isNew, e, response) := h.exchange.value;
    && isNew && h.drone.sessionId == init.sessionId
    && 0 < |init.kyberPubkey| <= 16384 && 16 <= |init.nonceS| <= 64
    && init.contextHash ==
       cfg.session.hash(Ascii("HESIA_CTX_v1") + init.kyberPubkey + init.nonceS + init.sessionId)
    && h.drone.sessionKey == cfg.sessionKdf(e.shared, init.nonceS + e.nonceD + init.sessionId + cfg.exporter)
    && |h.drone.sessionKey| == 32
    && response.kyberCiphertext == e.ciphertext && response.nonceD == e.nonceD
    && response.sessionId == init.sessionId
    && response.responseHash ==
       cfg.session.hash(e.ciphertext + e.nonceD + init.sessionId + h.drone.sessionKey)
  }

  /** The server signed this session id and this transcript, lately; only outside production without a time. */
  predicate KeyAgreed(cfg: Config, h: History) {
    h.confirm.Some? &&
    var (kc, now) := h.confirm.value;
    && kc.sessionId == h.drone.sessionId != [] && kc.transcriptHash == h.drone.transcriptHash
    && |h.drone.transcriptHash| == 64
    && (|| cfg.verify(cfg.serverPubkey,
                      h.drone.sessionId + h.drone.transcriptHash + BigEndian(kc.timestamp, 8), kc.signature)
        || (!cfg.prodFuse && cfg.verify(cfg.serverPubkey, h.drone.sessionId + h.drone.transcriptHash, kc.signature)))
    && if kc.timestamp == 0 then !cfg.prodFuse
       else kc.timestamp <= U64(now + 30_000) && now <= kc.timestamp + 300_000
  }

  /** The drone signed its block for this session, chained to the initial zeros. */
  predicate AuthBound(cfg: Config, h: History) {
    h.auth.Some? &&
    var SignedDroneAuth(block, signature, attestation) := h.auth.value;
    && |h.drone.sessionId| >= 16
    && block.sessionId == h.drone.sessionId && block.transcriptHash == h.drone.transcriptHash
    && block.droneId == cfg.droneId && block.dronePubkey == cfg.dronePubkey
    && block.serverCertSha256 == cfg.peerCert && block.lastBlockHash == seq(64, i => 0)
    && block.pufResponse ==
       cfg.puf(h.drone.sessionId, h.drone.transcriptHash + block.firmwareHash + block.bootMeasureDigest + cfg.peerCert)
    && signature == cfg.sign(block.Payload())
    && (cfg.attest.Some? ==> attestation == cfg.attest.value(block.Payload()) != [])
  }

  /** The server answered exactly this block, under the drone's policy, with its signature. */
  predicate ServerBound(cfg: Config, h: History) {
    h.auth.Some? && h.server.Some? &&
    var (block, policyHash) := h.server.value;
    && cfg.verify(cfg.serverPubkey, block.Payload(), block.signature)
    && block.serverPubkey == cfg.serverPubkey && block.policyHash == policyHash
    && block.lastBlockHash == cfg.session.hash(h.auth.value.block.Payload())
    && h.drone.lastBlockHash == cfg.session.hash(block.Payload())
  }

  predicate HandshakeInvariant(cfg: Config, h: History) {
    var rank := Rank(h.drone.phase);
    && (rank >= 1 ==> Greeted(cfg, h))
    && (rank >= 2 ==> Acknowledged(cfg, h))
    && (h.drone.sessionId != [] || rank >= 3 ==> rank >= 2 && KeyDerived(cfg, h))
    && (rank >= 3 ==> KeyAgreed(cfg, h))
    && (rank <= 3 ==> h.drone.lastBlockHash == seq(64, i => 0))
    && (rank >= 4 ==> AuthBound(cfg, h))
    && (rank == 4 ==> h.drone.lastBlockHash == cfg.session.hash(h.auth.value.block.Payload()))
    && (rank >= 5 ==> ServerBound(cfg, h))
    && (rank == 6 ==> h.answer == Some([79, 75]))
  }

  /** Whatever the order of calls, the state moves by single steps forward. */
  lemma StepAdvances(cfg: Config, h: History, event: Event)
    ensures var next := Step(cfg, h, event);
      Rank(h.drone.phase) <= Rank(next.drone.phase) <= Rank(h.drone.phase) + 1
  {
  }

  lemma GreetingKeepsInvariant(cfg: Config, h: History, event: Event)
    requires HandshakeInvariant(cfg, h) && (event.Hello? || event.Ack?)
    ensures HandshakeInvariant(cfg, Step(cfg, h, event))
  {
    assert Ascii("DRONE_SALT") == DRONE_SALT;
  }

  lemma KeyStepsKeepInvariant(cfg: Config, h: History, event: Event)
    requires HandshakeInvariant(cfg, h) && (event.Init? || event.Confirm?)
    ensures HandshakeInvariant(cfg, Step(cfg, h, event))
  {
    hide Ascii, BigEndian;
  }

  lemma AuthKeepsInvariant(cfg: Config, h: History, event: Event)
    requires HandshakeInvariant(cfg, h) && event.Auth?
    ensures HandshakeInvariant(cfg, Step(cfg, h, event))
  {
    hide Ascii, BigEndian, DroneAuth.Payload;
  }

  lemma LastStepsKeepInvariant(cfg: Config, h: History, event: Event)
    requires HandshakeInvariant(cfg, h) && (event.Server? || event.ConfirmOk?)
    ensures HandshakeInvariant(cfg, Step(cfg, h, event))
  {
    hide Ascii, BigEndian, DroneAuth.Payload, ServerAuth.Payload;
  }

  /**
   In every run of handler calls, in whatever order, a session that is established answered the
   drone's own greeting, has a key derived from the KEY_INIT of its session id and from the TLS
   exporter, the server's signature over that session id and its transcript, and over the hash
   of the very block with which the drone authenticated that session and transcript.
   */
  lemma {:induction false} HandshakeIsAuthentic(cfg: Config, exporterBound: bool, events: seq<Event>)
    ensures HandshakeInvariant(cfg, Run(cfg, exporterBound, events))
    decreases |events|
  {
    if events != [] {
      var n := |events| - 1;
      HandshakeIsAuthentic(cfg, exporterBound, events[..n]);
      hide Step, HandshakeInvariant;
      var h := Run(cfg, exporterBound, events[..n]);
      if events[n].Hello? || events[n].Ack? {
        GreetingKeepsInvariant(cfg, h, events[n]);
      } else if events[n].Init? || events[n].Confirm? {
        KeyStepsKeepInvariant(cfg, h, events[n]);
      } else if events[n].Auth? {
        AuthKeepsInvariant(cfg, h, events[n]);
      } else {
        LastStepsKeepInvariant(cfg, h, events[n]);
      }
    }
  }

  // --- The handshake with an honest server ---

  /** What both sides contribute. */
  datatype Script = Script(
    random: seq<byte>, ack: HelloAck, init: KeyInit, e: Encapsulation, confirm: KeyConfirm, now: nat,
    evidence: Evidence, server: ServerAuth)
  {
    function SessionKey(cfg: Config): seq<byte> {
      cfg.sessionKdf(e.shared, init.nonceS + e.nonceD + init.sessionId + cfg.exporter)
    }

    /** The drone's block, written out. */
    function Block(cfg: Config): DroneAuth {
      var info := confirm.transcriptHash + evidence.firmwareHash + evidence.bootMeasureDigest + cfg.peerCert;
      DroneAuth(cfg.droneId, cfg.dronePubkey, evidence.firmwareHash, cfg.puf(init.sessionId, info), seq(64, i => 0),
                init.sessionId, confirm.transcriptHash, cfg.peerCert, evidence.bootMeasureDigest,
                evidence.teeAttestationPubkey)
    }

    predicate KeysFit(cfg: Config) {
      && |cfg.exporter| == 32 && ack.offersExporterBinding
      && ack.responseHash == cfg.session.hash(random + Ascii("DRONE_SALT"))
      && 0 < |init.kyberPubkey| <= 16384 && 16 <= |init.nonceS| <= 64 && |init.sessionId| >= 16
      && init.contextHash ==
         cfg.session.hash(Ascii("HESIA_CTX_v1") + init.kyberPubkey + init.nonceS + init.sessionId)
      && |SessionKey(cfg)| == 32
    }

    predicate ConfirmFits(cfg: Config) {
      && confirm.sessionId == init.sessionId && |confirm.transcriptHash| == 64
      && 0 < confirm.timestamp <= U64(now + 30_000) && now <= confirm.timestamp + 300_000
      && cfg.verify(cfg.serverPubkey,
                    init.sessionId + confirm.transcriptHash + BigEndian(confirm.timestamp, 8), confirm.signature)
    }

    predicate AuthFits(cfg: Config) {
      && (cfg.attest.Some? ==> cfg.attest.value(Block(cfg).Payload()) != [])
      && server.serverPubkey == cfg.serverPubkey
      && server.lastBlockHash == cfg.session.hash(Block(cfg).Payload())
      && cfg.verify(cfg.serverPubkey, server.Payload(), server.signature)
    }

    function Events(): seq<Event> {
      [Hello(Some(random)), Ack(ack), Init(init, true, Some(e)), Confirm(confirm, confirm.transcriptHash, now),
       Auth(Some(evidence)), Server(server, server.policyHash), ConfirmOk([79, 75])]
    }
  }

  lemma RunGoesOn(cfg: Config, bound: bool, events: seq<Event>, n: nat)
    requires n < |events|
    ensures Run(cfg, bound, events[..n + 1]) == Step(cfg, Run(cfg, bound, events[..n]), events[n])
  {
    assert events[..n + 1][..n] == events[..n];
  }

  lemma GreetingSucceeds(cfg: Config, bound: bool, s: Script)
    requires s.KeysFit(cfg)
    ensures Run(cfg, bound, s.Events()[..2]).drone == Drone(KeyExchange, seq(64, i => 0), [], [], [], s.random, true)
  {
    assert Ascii("DRONE_SALT") == DRONE_SALT;
    hide Ascii;
    RunGoesOn(cfg, bound, s.Events(), 0);
    RunGoesOn(cfg, bound, s.Events(), 1);
  }

  lemma KeyPartSucceeds(cfg: Config, bound: bool, s: Script)
    requires s.KeysFit(cfg) && s.ConfirmFits(cfg)
    ensures Run(cfg, bound, s.Events()[..4]).drone ==
      Drone(KeyConfirmed, seq(64, i => 0), s.SessionKey(cfg), s.init.sessionId, s.confirm.transcriptHash, s.random,
            true)
  {
    GreetingSucceeds(cfg, bound, s);
    hide Run, Ascii, BigEndian;
    RunGoesOn(cfg, bound, s.Events(), 2);
    RunGoesOn(cfg, bound, s.Events(), 3);
  }

  /** With a server that keeps to the protocol the seven calls establish the session, under the common key. */
  lemma HonestHandshakeSucceeds(cfg: Config, bound: bool, s: Script)
    requires s.KeysFit(cfg) && s.ConfirmFits(cfg) && s.AuthFits(cfg)
    ensures Run(cfg, bound, s.Events()).drone ==
      Drone(InSession, cfg.session.hash(s.server.Payload()), s.SessionKey(cfg), s.init.sessionId,
            s.confirm.transcriptHash, s.random, true)
  {
    var events := s.Events();
    KeyPartSucceeds(cfg, bound, s);
    hide Ascii, BigEndian, DroneAuth.Payload, ServerAuth.Payload, Run;
    RunGoesOn(cfg, bound, events, 4);
    assert Run(cfg, bound, events[..5]).drone.lastBlockHash == cfg.session.hash(s.Block(cfg).Payload());
    RunGoesOn(cfg, bound, events, 5);
    RunGoesOn(cfg, bound, events, 6);
    assert events[..7] == events;
  }

  // --- Agreement of two sessions ---

  predicate SameSignedContent(a: History, b: History)
    requires a.auth.Some? && b.auth.Some?
  {
    && a.auth.value.block == b.auth.value.block
    && a.drone.sessionId == b.drone.sessionId && a.drone.transcriptHash == b.drone.transcriptHash
  }

  /**
   Two sessions that accepted one server-signed payload agree on the session id, the
   transcript, and all ten fields of DRONE_AUTH; otherwise the proof returns a collision.
   */
  lemma SessionAgreement(cfg: Config, cfg': Config, bound: bool, bound': bool, events: seq<Event>, events': seq<Event>)
    returns (x: seq<byte>, y: seq<byte>)
    requires cfg.session.hash == cfg'.session.hash
    requires Rank(Run(cfg, bound, events).drone.phase) >= 5 && Rank(Run(cfg', bound', events').drone.phase) >= 5
    requires var h, h' := Run(cfg, bound, events), Run(cfg', bound', events');
      h.server.Some? && h'.server.Some? && h.server.value.0.Payload() == h'.server.value.0.Payload() &&
      Short(h.server.value.0.Fields()) && Short(h'.server.value.0.Fields())
    requires var h, h' := Run(cfg, bound, events), Run(cfg', bound', events');
      h.auth.Some? && h'.auth.Some? && Short(h.auth.value.block.Fields()) && Short(h'.auth.value.block.Fields())
    ensures SameSignedContent(Run(cfg, bound, events), Run(cfg', bound', events')) ||
            Collision(cfg.session.hash, x, y)
  {
    var h, h' := Run(cfg, bound, events), Run(cfg', bound', events');
    HandshakeIsAuthentic(cfg, bound, events);
    HandshakeIsAuthentic(cfg', bound', events');
    hide Run;
    ServerAuthPayloadInjective(h.server.value.0, h'.server.value.0);
    x, y := h.auth.value.block.Payload(), h'.auth.value.block.Payload();
    if x == y {
      DroneAuthPayloadInjective(h.auth.value.block, h'.auth.value.block);
    }
  }
}
