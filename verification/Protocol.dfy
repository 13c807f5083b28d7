/** The handshake messages and the byte strings that are signed. */
module Protocol {
  import opened Bytes
  import opened Wrappers

  /** Feature bits: 1 for the protocol, 2 for exporter binding offered, 4 for exporter binding required. */
  datatype HelloMessage = HelloMessage(random: seq<byte>, version: nat, features: nat)

  datatype HelloAck = HelloAck(responseHash: seq<byte>, offersExporterBinding: bool)

  datatype KeyInit = KeyInit(kyberPubkey: seq<byte>, nonceS: seq<byte>, sessionId: seq<byte>,
                             timestamp: nat, contextHash: seq<byte>)

  datatype KeyResp = KeyResp(kyberCiphertext: seq<byte>, nonceD: seq<byte>, sessionId: seq<byte>,
                             responseHash: seq<byte>)

  datatype KeyConfirm = KeyConfirm(sessionId: seq<byte>, transcriptHash: seq<byte>, signature: seq<byte>,
                                   timestamp: nat)

  /** The ten signed fields of DRONE_AUTH, in the order in which they are signed. */
  datatype DroneAuth = DroneAuth(
    droneId: seq<byte>, dronePubkey: seq<byte>, firmwareHash: seq<byte>, pufResponse: seq<byte>,
    lastBlockHash: seq<byte>, sessionId: seq<byte>, transcriptHash: seq<byte>, serverCertSha256: seq<byte>,
    bootMeasureDigest: seq<byte>, teeAttestationPubkey: seq<byte>)
  {
    function Fields(): seq<seq<byte>> {
      [droneId, dronePubkey, firmwareHash, pufResponse, lastBlockHash, sessionId, transcriptHash,
       serverCertSha256, bootMeasureDigest, teeAttestationPubkey]
    }

    function Payload(): seq<byte> {
      LenPrefixed(Fields())
    }
  }

  /** DRONE_AUTH with the drone's signature and, if the policy asks for it, that of the secure world. */
  datatype SignedDroneAuth = SignedDroneAuth(block: DroneAuth, signature: seq<byte>, attestation: seq<byte>)

  datatype ServerAuth = ServerAuth(serverId: seq<byte>, serverPubkey: seq<byte>, missionId: seq<byte>,
                                   policyHash: seq<byte>, lastBlockHash: seq<byte>, signature: seq<byte>)
  {
    function Fields(): seq<seq<byte>> {
      [serverId, serverPubkey, missionId, policyHash, lastBlockHash]
    }

    function Payload(): seq<byte> {
      LenPrefixed(Fields())
    }
  }

  /** Each field preceded by its length as a 32-bit big-endian number. */
  function LenPrefixed(fields: seq<seq<byte>>): seq<byte> {
    if fields == [] then [] else BigEndian(|fields[0]|, 4) + fields[0] + LenPrefixed(fields[1..])
  }

  ghost predicate Short(fields: seq<seq<byte>>) {
    forall i :: 0 <= i < |fields| ==> |fields[i]| < TWO_32
  }

  lemma SplitThree(m: seq<byte>, a: seq<byte>, x: seq<byte>, n: seq<byte>, b: seq<byte>, y: seq<byte>)
    requires m + a + x == n + b + y && |m| == |n|
    ensures m == n && a + x == b + y
  {
    assert m + a + x == m + (a + x);
    assert n + b + y == n + (b + y);
    SplitConcat(m, a + x, n, b + y);
  }

  lemma FirstFieldInjective(a: seq<byte>, x: seq<byte>, b: seq<byte>, y: seq<byte>)
    requires |a| < TWO_32 && |b| < TWO_32
    requires BigEndian(|a|, 4) + a + x == BigEndian(|b|, 4) + b + y
    ensures a == b && x == y
  {
    hide BigEndian;
    SplitThree(BigEndian(|a|, 4), a, x, BigEndian(|b|, 4), b, y);
    Pow256Values();
    hide Pow256;
    BigEndianInjective(|a|, |b|, 4);
    SplitConcat(a, x, b, y);
  }

  /** Equally many fields below 2^32 bytes are recovered from their encoding. */
  lemma {:induction false} LenPrefixedInjective(a: seq<seq<byte>>, b: seq<seq<byte>>)
    requires |a| == |b| && Short(a) && Short(b) && LenPrefixed(a) == LenPrefixed(b)
    ensures a == b
    decreases |a|
  {
    if a != [] {
      FirstFieldInjective(a[0], LenPrefixed(a[1..]), b[0], LenPrefixed(b[1..]));
      hide BigEndian;
      LenPrefixedInjective(a[1..], b[1..]);
      assert a == [a[0]] + a[1..] && b == [b[0]] + b[1..];
    }
  }

  lemma {:induction false} LenPrefixedAppend(fields: seq<seq<byte>>, value: seq<byte>)
    ensures LenPrefixed(fields + [value]) == LenPrefixed(fields) + (BigEndian(|value|, 4) + value)
    decreases |fields|
  {
    if fields == [] {
      assert fields + [value] == [value];
      assert [value][1..] == [];
      assert LenPrefixed([value]) == BigEndian(|value|, 4) + value + LenPrefixed([]);
    } else {
      assert (fields + [value])[1..] == fields[1..] + [value];
      LenPrefixedAppend(fields[1..], value);
    }
  }

  /** Appends one field; `fields` are the ones already in `out`. */
  method AppendLenPrefixed(out: seq<byte>, value: seq<byte>, ghost fields: seq<seq<byte>>) returns (r: seq<byte>)
    requires out == LenPrefixed(fields)
    ensures r == LenPrefixed(fields + [value])
  {
    r := AppendU32(out, |value|);
    r := r + value;
    LenPrefixedAppend(fields, value);
    assert r == out + (BigEndian(|value|, 4) + value);
  }

  method BuildSignedDroneAuthPayload(auth: DroneAuth) returns (payload: seq<byte>)
    ensures payload == auth.Payload()
  {
    ghost var f := auth.Fields();
    payload := [];
    payload := AppendLenPrefixed(payload, auth.droneId, f[..0]);
    assert f[..0] + [auth.droneId] == f[..1];
    payload := AppendLenPrefixed(payload, auth.dronePubkey, f[..1]);
    assert f[..1] + [auth.dronePubkey] == f[..2];
    payload := AppendLenPrefixed(payload, auth.firmwareHash, f[..2]);
    assert f[..2] + [auth.firmwareHash] == f[..3];
    payload := AppendLenPrefixed(payload, auth.pufResponse, f[..3]);
    assert f[..3] + [auth.pufResponse] == f[..4];
    payload := AppendLenPrefixed(payload, auth.lastBlockHash, f[..4]);
    assert f[..4] + [auth.lastBlockHash] == f[..5];
    payload := AppendLenPrefixed(payload, auth.sessionId, f[..5]);
    assert f[..5] + [auth.sessionId] == f[..6];
    payload := AppendLenPrefixed(payload, auth.transcriptHash, f[..6]);
    assert f[..6] + [auth.transcriptHash] == f[..7];
    payload := AppendLenPrefixed(payload, auth.serverCertSha256, f[..7]);
    assert f[..7] + [auth.serverCertSha256] == f[..8];
    payload := AppendLenPrefixed(payload, auth.bootMeasureDigest, f[..8]);
    assert f[..8] + [auth.bootMeasureDigest] == f[..9];
    payload := AppendLenPrefixed(payload, auth.teeAttestationPubkey, f[..9]);
    assert f[..9] + [auth.teeAttestationPubkey] == f;
  }

  method BuildServerAuthPayload(block: ServerAuth) returns (payload: seq<byte>)
    ensures payload == block.Payload()
  {
    ghost var f := block.Fields();
    payload := [];
    payload := AppendLenPrefixed(payload, block.serverId, f[..0]);
    assert f[..0] + [block.serverId] == f[..1];
    payload := AppendLenPrefixed(payload, block.serverPubkey, f[..1]);
    assert f[..1] + [block.serverPubkey] == f[..2];
    payload := AppendLenPrefixed(payload, block.missionId, f[..2]);
    assert f[..2] + [block.missionId] == f[..3];
    payload := AppendLenPrefixed(payload, block.policyHash, f[..3]);
    assert f[..3] + [block.policyHash] == f[..4];
    payload := AppendLenPrefixed(payload, block.lastBlockHash, f[..4]);
    assert f[..4] + [block.lastBlockHash] == f;
  }

  /** Takes n fields from the front of some bytes, and wants nothing to be left. */
  function ReadFields(bytes: seq<byte>, n: nat): Option<seq<seq<byte>>> {
    if n == 0 then (if bytes == [] then Some([]) else None)
    else if |bytes| < 4 || |bytes| < 4 + Value(bytes[..4]) then None
    else
      var length := Value(bytes[..4]);
      match ReadFields(bytes[4 + length..], n - 1)
      case None => None
      case Some(others) => Some([bytes[4..4 + length]] + others)
  }

  lemma {:induction false} FieldsReadBack(fields: seq<seq<byte>>)
    requires Short(fields)
    ensures ReadFields(LenPrefixed(fields), |fields|) == Some(fields)
    decreases |fields|
  {
    if fields != [] {
      FieldsReadBack(fields[1..]);
      hide BigEndian, ReadFields;
      FirstFieldReadsBack(fields[0], LenPrefixed(fields[1..]), |fields|);
      assert fields == [fields[0]] + fields[1..];
    }
  }

  lemma FirstFieldReadsBack(first: seq<byte>, others: seq<byte>, n: nat)
    requires |first| < TWO_32 && n > 0
    ensures ReadFields(BigEndian(|first|, 4) + first + others, n) ==
      match ReadFields(others, n - 1) case None => None case Some(fields) => Some([first] + fields)
  {
    Pow256Values();
    ValueOfBigEndian(|first|, 4);
    FirstFieldSlices(first, others);
    hide BigEndian, Value, Pow256;
  }

  lemma FirstFieldSlices(first: seq<byte>, others: seq<byte>)
    ensures var bytes := BigEndian(|first|, 4) + first + others;
      && |bytes| == 4 + |first| + |others|
      && bytes[..4] == BigEndian(|first|, 4) && bytes[4..4 + |first|] == first && bytes[4 + |first|..] == others
  {
    hide BigEndian;
  }

  /** A verifier that takes the payload apart finds the ten fields in their places. */
  lemma DroneAuthReadsBack(a: DroneAuth)
    requires Short(a.Fields())
    ensures ReadFields(a.Payload(), 10) ==
      Some([a.droneId, a.dronePubkey, a.firmwareHash, a.pufResponse, a.lastBlockHash, a.sessionId, a.transcriptHash,
            a.serverCertSha256, a.bootMeasureDigest, a.teeAttestationPubkey])
  {
    FieldsReadBack(a.Fields());
  }

  lemma ServerAuthReadsBack(a: ServerAuth)
    requires Short(a.Fields())
    ensures ReadFields(a.Payload(), 5) == Some([a.serverId, a.serverPubkey, a.missionId, a.policyHash, a.lastBlockHash])
  {
    FieldsReadBack(a.Fields());
  }

  /** The signed payload of DRONE_AUTH determines each of its ten fields. */
  lemma DroneAuthPayloadInjective(a: DroneAuth, b: DroneAuth)
    requires Short(a.Fields()) && Short(b.Fields()) && a.Payload() == b.Payload()
    ensures a == b
  {
    LenPrefixedInjective(a.Fields(), b.Fields());
    var f, g := a.Fields(), b.Fields();
    assert f[0] == g[0] && f[1] == g[1] && f[2] == g[2] && f[3] == g[3] && f[4] == g[4];
    assert f[5] == g[5] && f[6] == g[6] && f[7] == g[7] && f[8] == g[8] && f[9] == g[9];
  }

  /** The payload signed by the server determines the chain hash it answers. */
  lemma ServerAuthPayloadInjective(a: ServerAuth, b: ServerAuth)
    requires Short(a.Fields()) && Short(b.Fields()) && a.Payload() == b.Payload()
    ensures a.serverId == b.serverId && a.serverPubkey == b.serverPubkey && a.missionId == b.missionId
    ensures a.policyHash == b.policyHash && a.lastBlockHash == b.lastBlockHash
  {
    LenPrefixedInjective(a.Fields(), b.Fields());
    var f, g := a.Fields(), b.Fields();
    assert f[0] == g[0] && f[1] == g[1] && f[2] == g[2] && f[3] == g[3] && f[4] == g[4];
  }
}
