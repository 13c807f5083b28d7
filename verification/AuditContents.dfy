/** Reading the audit log back: every event that was recorded, decrypted, with its time, in order. */
module AuditContents {
  import opened Bytes
  import opened Wrappers
  import opened Crypto
  import opened AuditLog

  // --- Reading records from a file ---

  /** The first record of a file, by the offsets of the format. */
  function ReadRecord(file: seq<byte>): Option<(Record, seq<byte>)> {
    if |file| < 111 || file[..5] != [72, 69, 83, 50, 2] then None
    else
      var length, sigLength := Value(file[25..29]), Value(file[109..111]);
      if |file| < 111 + sigLength + length then None
      else
        var signature, ciphertext := file[111..111 + sigLength], file[111 + sigLength..111 + sigLength + length];
        Some((Record(Value(file[5..13]), file[13..25], file[29..45], file[45..77], ciphertext, signature),
              file[111 + sigLength + length..]))
  }

  function ReadAll(file: seq<byte>): seq<Record>
    decreases |file|
  {
    match ReadRecord(file)
    case None => []
    case Some((r, rest)) => [r] + ReadAll(rest)
  }

  lemma HeaderFields(r: Record)
    requires r.Fits()
    ensures var h := r.Header();
      && |h| == 77 && h[..5] == [72, 69, 83, 50, 2]
      && h[5..13] == BigEndian(r.time, 8) && h[13..25] == r.nonce && h[25..29] == BigEndian(|r.ciphertext|, 4)
      && h[29..45] == r.tag && h[45..77] == r.prev
  {
    hide BigEndian;
  }

  lemma BodyFields(hash: Hash32, r: Record, tail: seq<byte>)
    requires r.Fits()
    ensures var f, s := r.Encode(hash) + tail, 111 + |r.signature|;
      && |f| == s + |r.ciphertext| + |tail|
      && f[..77] == r.Header() && f[109..111] == BigEndian(|r.signature|, 2)
      && f[111..s] == r.signature && f[s..s + |r.ciphertext|] == r.ciphertext && f[s + |r.ciphertext|..] == tail
  {
    HeaderFields(r);
    hide Record.Header, Record.HashInput, BigEndian;
    var f := r.Encode(hash) + tail;
    var digest := hash(r.HashInput());
    assert f == r.Header() + digest + BigEndian(|r.signature|, 2) + (r.signature + (r.ciphertext + tail));
  }

  lemma NumbersReadBack(r: Record)
    requires r.Fits()
    ensures Value(BigEndian(r.time, 8)) == r.time && Value(BigEndian(|r.ciphertext|, 4)) == |r.ciphertext|
    ensures Value(BigEndian(|r.signature|, 2)) == |r.signature|
  {
    Pow256Values();
    assert Pow256(8) == TWO_64 by {
      assert Pow256(6) == 256 * Pow256(5) && Pow256(8) == 256 * Pow256(7);
    }
    ValueOfBigEndian(r.time, 8);
    ValueOfBigEndian(|r.ciphertext|, 4);
    ValueOfBigEndian(|r.signature|, 2);
  }

  /** A written record is read back field by field, whatever follows it in the file. */
  lemma RecordReadsBack(hash: Hash32, r: Record, tail: seq<byte>)
    requires r.Fits()
    ensures ReadRecord(r.Encode(hash) + tail) == Some((r, tail))
  {
    HeaderFields(r);
    BodyFields(hash, r, tail);
    NumbersReadBack(r);
    var f := r.Encode(hash) + tail;
    hide Record.Header, Record.HashInput, Record.Encode, BigEndian, Value;
    HeaderSlices(f, r.Header());
  }

  /** The hash field covers everything before it, and the ciphertext. */
  lemma HashFieldCovers(hash: Hash32, r: Record, tail: seq<byte>)
    requires r.Fits()
    ensures var f := r.Encode(hash) + tail;
      |f| >= 111 && f[77..109] == hash(f[..77] + r.ciphertext)
  {
    HeaderFields(r);
    BodyFields(hash, r, tail);
    hide Record.Header, BigEndian;
    var digest := hash(r.HashInput());
    assert r.Encode(hash) + tail ==
           r.Header() + digest + (BigEndian(|r.signature|, 2) + r.signature + r.ciphertext + tail);
  }

  lemma HeaderSlices(f: seq<byte>, h: seq<byte>)
    requires |f| >= 77 && |h| == 77 && f[..77] == h
    ensures f[..5] == h[..5] && f[5..13] == h[5..13] && f[13..25] == h[13..25] && f[25..29] == h[25..29]
    ensures f[29..45] == h[29..45] && f[45..77] == h[45..77]
  {
  }

  lemma {:induction false} LogReadsBack(hash: Hash32, records: seq<Record>, tail: seq<byte>)
    requires AllFit(records)
    ensures ReadAll(EncodeAll(hash, records) + tail) == records + ReadAll(tail)
    decreases |records|
  {
    hide Record.Encode, ReadRecord;
    if records == [] {
      assert EncodeAll(hash, records) + tail == tail;
    } else {
      var n := |records| - 1;
      var encoded := records[n].Encode(hash);
      assert EncodeAll(hash, records) + tail == EncodeAll(hash, records[..n]) + (encoded + tail);
      LogReadsBack(hash, records[..n], encoded + tail);
      RecordReadsBack(hash, records[n], tail);
      assert records == records[..n] + [records[n]];
    }
  }

  // --- What was to be recorded ---

  datatype Event = Event(time: nat, plaintext: seq<byte>, nonce: seq<byte>, signature: seq<byte>)

  /** The events of the appends that reach the file. */
  function Events(key: seq<byte>, ops: seq<AuditOp>): seq<Event> {
    if ops == [] then []
    else Events(key, ops[..|ops| - 1]) + EventOf(key, ops[|ops| - 1])
  }

  /** It reaches the file with a key of 32 bytes, a nonce, a signature of at most 65535 bytes, and a file that opens. */
  function EventOf(key: seq<byte>, op: AuditOp): seq<Event> {
    match op
    case Restart => []
    case Append(plaintext, env) =>
      if |key| == 32 && env.nonce.Some? && env.signature.Some? && |env.signature.value| < 65536 && env.logOpens
      then [Event(env.time, plaintext, env.nonce.value, env.signature.value)] else []
  }

  /** The record decrypts to the text of the event and carries its time. */
  ghost predicate Tells(c: Suite, key: seq<byte>, r: Record, e: Event) {
    && c.open(key, r.nonce, [], r.ciphertext, r.tag) == Some(e.plaintext)
    && r.time == e.time && r.nonce == e.nonce && r.signature == e.signature
  }

  ghost predicate TellsAll(c: Suite, key: seq<byte>, records: seq<Record>, events: seq<Event>) {
    |records| == |events| && forall i :: 0 <= i < |records| ==> Tells(c, key, records[i], events[i])
  }

  lemma RecordTells(c: Suite, key: seq<byte>, lastHash: seq<byte>, plaintext: seq<byte>, env: Env)
    requires env.nonce.Some? && env.signature.Some?
    ensures Tells(c, key, NewRecord(c, key, lastHash, plaintext, env),
                  Event(env.time, plaintext, env.nonce.value, env.signature.value))
  {
    var r := NewRecord(c, key, lastHash, plaintext, env);
    assert c.seal(key, r.nonce, [], plaintext) == (r.ciphertext, r.tag);
  }

  lemma {:induction false} RecordsTellEvents(c: Suite, hash: Hash32, key: seq<byte>, ops: seq<AuditOp>)
    ensures TellsAll(c, key, Runs(c, hash, key, ops).records, Events(key, ops))
    decreases |ops|
  {
    if ops != [] {
      var n := |ops| - 1;
      var run, op := Runs(c, hash, key, ops[..n]), ops[n];
      RecordsTellEvents(c, hash, key, ops[..n]);
      if WritesRecord(key, op) {
        RecordTells(c, key, run.state.lastHash, op.plaintext, op.env);
      }
      hide Tells, NewRecord, AppendSpec, Scan;
    }
  }

  /**
   After any run of appends and restarts the file, read from its bytes, holds exactly the events
   of the appends that reached it: in order, decrypting to their texts, with their times.
   */
  lemma FileTellsEvents(c: Suite, hash: Hash32, key: seq<byte>, ops: seq<AuditOp>)
    requires OpsFit(ops)
    ensures TellsAll(c, key, ReadAll(Runs(c, hash, key, ops).state.log), Events(key, ops))
  {
    RunInvariantHolds(c, hash, key, ops);
    var run := Runs(c, hash, key, ops);
    LogReadsBack(hash, run.records, []);
    RecordsTellEvents(c, hash, key, ops);
    hide Runs, TellsAll, EncodeAll, Events;
    assert EncodeAll(hash, run.records) + [] == EncodeAll(hash, run.records);
    assert ReadAll([]) == [];
  }
}
