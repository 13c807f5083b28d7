/**
 The hash-chained audit log: the binary record format, the append operation, and the scan
 at start-up that recovers the head of the chain from the file.
 */
module AuditLog {
  import opened Bytes
  import opened Wrappers
  import opened Crypto

  const HASH_LEN: nat := 32
  const NONCE_LEN: nat := 12
  const TAG_LEN: nat := 16
  const HEADER_LEN: nat := 77
  const FIXED_LEN: nat := 111
  const MAX_SIGNATURE: nat := 0xFFFF
  const MAGIC: seq<byte> := [72, 69, 83, 50]
  const VERSION: byte := 2

  function ZeroHash(): (z: seq<byte>)
    ensures |z| == HASH_LEN
  {
    seq(HASH_LEN, i => 0)
  }

  // --- Records and logs ---

  datatype Record = Record(time: nat, nonce: seq<byte>, tag: seq<byte>, prev: seq<byte>,
                           ciphertext: seq<byte>, signature: seq<byte>)
  {
    /** The sizes that the format has room for. */
    ghost predicate Fits() {
      && time < TWO_64 && |nonce| == NONCE_LEN && |tag| == TAG_LEN && |prev| == HASH_LEN
      && |ciphertext| < TWO_32 && |signature| <= MAX_SIGNATURE
    }

    function Header(): seq<byte> {
      MAGIC + [VERSION] + BigEndian(time, 8) + nonce + BigEndian(|ciphertext|, 4) + tag + prev
    }

    function HashInput(): seq<byte> {
      Header() + ciphertext
    }

    function Encode(hash: Hash32): seq<byte> {
      Header() + hash(HashInput()) + BigEndian(|signature|, 2) + signature + ciphertext
    }
  }

  ghost predicate AllFit(records: seq<Record>) {
    forall i :: 0 <= i < |records| ==> records[i].Fits()
  }

  function EncodeAll(hash: Hash32, records: seq<Record>): seq<byte> {
    if records == [] then []
    else EncodeAll(hash, records[..|records| - 1]) + records[|records| - 1].Encode(hash)
  }

  /** The chain head: the hash of the last record, or zeros. */
  function Head(hash: Hash32, records: seq<Record>): (h: seq<byte>)
    ensures |h| == HASH_LEN
  {
    if records == [] then ZeroHash() else hash(records[|records| - 1].HashInput())
  }

  /** Every record names the hash of its predecessor. */
  ghost predicate Linked(hash: Hash32, records: seq<Record>) {
    forall i :: 0 <= i < |records| ==> records[i].prev == Head(hash, records[..i])
  }

  // --- The scan at start-up ---

  /** What the scan returns for a file, `last` being the hash found so far. */
  function Scan(file: seq<byte>, last: seq<byte>): (h: seq<byte>)
    ensures |last| == HASH_LEN ==> |h| == HASH_LEN
    decreases |file|
  {
    if |file| < FIXED_LEN || file[..4] != MAGIC || file[4] != VERSION then last
    else Scan(From(file, FIXED_LEN + Value(file[109..111]) + Value(file[25..29])), file[77..109])
  }

  /** What is left to read after a seek; beyond the end nothing is. */
  function From(file: seq<byte>, position: nat): seq<byte> {
    if position <= |file| then file[position..] else []
  }

  predicate RecordAt(file: seq<byte>, position: nat) {
    && position + FIXED_LEN <= |file|
    && file[position] == 72 && file[position + 1] == 69 && file[position + 2] == 83 && file[position + 3] == 50
    && file[position + 4] == VERSION
  }

  lemma ScanStops(file: seq<byte>, position: nat, last: seq<byte>)
    requires !RecordAt(file, position)
    ensures Scan(From(file, position), last) == last
  {
    hide Value;
    var rest := From(file, position);
    if |rest| >= FIXED_LEN {
      assert rest[..4] == file[position..position + 4];
    }
  }

  lemma SeekAgain(file: seq<byte>, position: nat, n: nat)
    requires position <= |file|
    ensures From(From(file, position), n) == From(file, position + n)
  {
  }

  lemma SliceOfRest(file: seq<byte>, position: nat, i: nat, j: nat)
    requires i <= j && position + j <= |file|
    ensures file[position..][i..j] == file[position + i..position + j]
  {
  }

  lemma FieldsAt(file: seq<byte>, position: nat)
    requires RecordAt(file, position)
    ensures var rest := From(file, position);
      && FIXED_LEN <= |rest| && rest[..4] == MAGIC && rest[4] == VERSION
      && rest[25..29] == file[position + 25..position + 29]
      && rest[109..111] == file[position + 109..position + 111]
      && rest[77..109] == file[position + 77..position + 109]
  {
    SliceOfRest(file, position, 25, 29);
    SliceOfRest(file, position, 77, 109);
    SliceOfRest(file, position, 109, 111);
    assert file[position..][..4] == MAGIC;
  }

  lemma ScanSteps(file: seq<byte>, position: nat, last: seq<byte>)
    requires RecordAt(file, position)
    ensures var size :=
        FIXED_LEN + Value(file[position + 109..position + 111]) + Value(file[position + 25..position + 29]);
      Scan(From(file, position), last) == Scan(From(file, position + size), file[position + 77..position + 109])
  {
    hide Value, Scan, From;
    FieldsAt(file, position);
    var rest := From(file, position);
    ScanUnfolds(rest, last);
    SeekAgain(file, position, FIXED_LEN + Value(rest[109..111]) + Value(rest[25..29]));
  }

  lemma ScanUnfolds(rest: seq<byte>, last: seq<byte>)
    requires FIXED_LEN <= |rest| && rest[..4] == MAGIC && rest[4] == VERSION
    ensures Scan(rest, last) ==
            Scan(From(rest, FIXED_LEN + Value(rest[109..111]) + Value(rest[25..29])), rest[77..109])
  {
  }

  /** The loop over the file; a seek beyond the end makes only the next read fail. */
  method LoadLastHash(file: seq<byte>) returns (lastHash: seq<byte>)
    ensures lastHash == Scan(file, ZeroHash())
  {
    hide Scan, Value;
    lastHash := ZeroHash();
    var position: nat := 0;
    while true
      invariant Scan(From(file, position), lastHash) == Scan(file, ZeroHash())
      decreases |file| - position
    {
      if !RecordAt(file, position) {
        ScanStops(file, position, lastHash);
      } else {
        ScanSteps(file, position, lastHash);
      }
      if position + 4 > |file| {
        break;
      }
      if !(file[position] == 72 && file[position + 1] == 69 && file[position + 2] == 83 && file[position + 3] == 50) {
        break;
      }
      if position + 5 > |file| || file[position + 4] != 2 {
        break;
      }
      if position + 111 > |file| {
        break;
      }
      var ctLen := ReadU32(file[position + 25..position + 29]);
      var sigLen := ReadU16(file[position + 109..position + 111]);
      lastHash := file[position + 77..position + 109];
      position := position + 111 + sigLen + ctLen;
    }
  }

  method ReadU32(p: seq<byte>) returns (v: nat)
    requires |p| == 4
    ensures v == Value(p)
  {
    Value4(p);
    v := p[0] as int * 0x100_0000 + p[1] as int * 0x1_0000 + p[2] as int * 256 + p[3] as int;
  }

  method ReadU16(p: seq<byte>) returns (v: nat)
    requires |p| == 2
    ensures v == Value(p)
  {
    assert p[..1] == [p[0]] && p[..1][..0] == [];
    assert Value(p[..1]) == p[0];
    v := p[0] as int * 256 + p[1] as int;
  }

  /** The fields of an encoded record sit where the scan looks for them. */
  lemma HeaderLayout(r: Record)
    requires r.Fits()
    ensures var h := r.Header();
      |h| == HEADER_LEN && h[..4] == MAGIC && h[4] == VERSION &&
      h[25..29] == BigEndian(|r.ciphertext|, 4) && h[45..77] == r.prev
  {
    assert r.Header()[..4] == MAGIC;
  }

  lemma EncodeParts(hash: Hash32, r: Record, tail: seq<byte>)
    requires r.Fits()
    ensures |r.Encode(hash)| == FIXED_LEN + |r.signature| + |r.ciphertext|
    ensures var f := r.Encode(hash) + tail;
      && f[..77] == r.Header() && f[77..109] == hash(r.HashInput())
      && f[109..111] == BigEndian(|r.signature|, 2) && f[|r.Encode(hash)|..] == tail
  {
    HeaderLayout(r);
    var f, header, digest := r.Encode(hash) + tail, r.Header(), hash(r.HashInput());
    assert f == header + digest + (BigEndian(|r.signature|, 2) + r.signature + r.ciphertext + tail);
  }

  lemma EncodeLayout(hash: Hash32, r: Record, tail: seq<byte>)
    requires r.Fits()
    ensures var f := r.Encode(hash) + tail;
      && |r.Encode(hash)| == FIXED_LEN + |r.signature| + |r.ciphertext|
      && f[..4] == MAGIC && f[4] == VERSION && f[77..109] == hash(r.HashInput())
      && Value(f[25..29]) == |r.ciphertext| && Value(f[109..111]) == |r.signature|
      && f[|r.Encode(hash)|..] == tail
  {
    hide Record.Encode, Record.Header, Record.HashInput;
    HeaderLayout(r);
    EncodeParts(hash, r, tail);
    Pow256Values();
    ValueOfBigEndian(|r.ciphertext|, 4);
    ValueOfBigEndian(|r.signature|, 2);
    var f := r.Encode(hash) + tail;
    assert f[..4] == f[..77][..4] && f[25..29] == f[..77][25..29] && f[4] == f[..77][4];
  }

  /** The scan steps over one well-formed record. */
  lemma ScanSkips(hash: Hash32, r: Record, tail: seq<byte>, last: seq<byte>)
    requires r.Fits()
    ensures Scan(r.Encode(hash) + tail, last) == Scan(tail, hash(r.HashInput()))
  {
    EncodeLayout(hash, r, tail);
  }

  lemma {:induction false} ScanOfPrefix(hash: Hash32, records: seq<Record>, tail: seq<byte>, last: seq<byte>)
    requires AllFit(records)
    ensures Scan(EncodeAll(hash, records) + tail, last) ==
            Scan(tail, if records == [] then last else Head(hash, records))
    decreases |records|
  {
    hide Scan;
    hide Record.Encode;
    if records == [] {
      assert EncodeAll(hash, records) + tail == tail;
    } else {
      var n := |records| - 1;
      var encoded := records[n].Encode(hash);
      assert EncodeAll(hash, records) + tail == EncodeAll(hash, records[..n]) + (encoded + tail);
      ScanOfPrefix(hash, records[..n], encoded + tail, last);
      ScanSkips(hash, records[n], tail, if n == 0 then last else Head(hash, records[..n]));
    }
  }

  /** On a completely written log the scan finds the hash of the last record. */
  lemma ScanFindsHead(hash: Hash32, records: seq<Record>)
    requires AllFit(records)
    ensures Scan(EncodeAll(hash, records), ZeroHash()) == Head(hash, records)
  {
    ScanOfPrefix(hash, records, [], ZeroHash());
    assert EncodeAll(hash, records) + [] == EncodeAll(hash, records);
  }

  /** Behind the records, anything that does not start like a record ends the scan. */
  lemma ScanStopsAtDamage(hash: Hash32, records: seq<Record>, tail: seq<byte>)
    requires AllFit(records)
    requires |tail| < 111 || tail[..5] != [72, 69, 83, 50, 2]
    ensures Scan(EncodeAll(hash, records) + tail, ZeroHash()) == Head(hash, records)
  {
    ScanOfPrefix(hash, records, tail, ZeroHash());
    if |tail| >= 111 {
      assert tail[..5] == tail[..4] + [tail[4]];
    }
    hide EncodeAll;
  }

  /**
   A last record that was cut off counts from its 111th byte on: from there its hash is the head,
   although the record is not complete.
   */
  lemma ScanOnCutRecord(hash: Hash32, records: seq<Record>, r: Record, k: nat)
    requires AllFit(records) && r.Fits() && k <= |r.Encode(hash)|
    ensures Scan(EncodeAll(hash, records) + r.Encode(hash)[..k], ZeroHash()) ==
            if k < 111 then Head(hash, records) else hash(r.HashInput())
  {
    hide Record.Encode, Record.HashInput, EncodeAll, Scan;
    var cut := r.Encode(hash)[..k];
    if k < 111 {
      ScanStopsAtDamage(hash, records, cut);
    } else {
      ScanOfPrefix(hash, records, cut, ZeroHash());
      CutRecordScans(hash, r, k, if records == [] then ZeroHash() else Head(hash, records));
    }
  }

  lemma CutRecordScans(hash: Hash32, r: Record, k: nat, last: seq<byte>)
    requires r.Fits() && 111 <= k <= |r.Encode(hash)|
    ensures Scan(r.Encode(hash)[..k], last) == hash(r.HashInput())
  {
    hide Record.Encode, Record.HashInput, Scan, Value;
    EncodeLayout(hash, r, []);
    var whole, cut := r.Encode(hash) + [], r.Encode(hash)[..k];
    CutKeepsFields(whole, k);
    assert whole[..k] == cut;
    ScanUnfolds(cut, last);
    ScanOfNothing(hash(r.HashInput()));
  }

  lemma CutKeepsFields(whole: seq<byte>, k: nat)
    requires 111 <= k <= |whole|
    ensures var cut := whole[..k];
      && cut[..4] == whole[..4] && cut[4] == whole[4] && cut[25..29] == whole[25..29]
      && cut[77..109] == whole[77..109] && cut[109..111] == whole[109..111]
  {
  }

  lemma ScanOfNothing(last: seq<byte>)
    ensures Scan([], last) == last
  {
  }

  // --- Appending ---

  /** What the outside world does during one append. */
  datatype Env = Env(time: nat, nonce: Option<seq<byte>>, signature: Option<seq<byte>>, logOpens: bool,
                     exportFails: bool)

  datatype AuditError = BadKey | NoRandomness | SigningFailed | SignatureTooLarge | LogNotWritable | ExportFailed

  datatype AuditState = AuditState(lastHash: seq<byte>, log: seq<byte>)

  predicate Writes(key: seq<byte>, env: Env) {
    && |key| == 32 && env.nonce.Some? && env.signature.Some? && |env.signature.value| <= MAX_SIGNATURE
    && env.logOpens
  }

  function NewRecord(c: Suite, key: seq<byte>, lastHash: seq<byte>, plaintext: seq<byte>, env: Env): Record
    requires env.nonce.Some? && env.signature.Some?
  {
    var (ciphertext, tag) := c.seal(key, env.nonce.value, [], plaintext);
    Record(env.time, env.nonce.value, tag, lastHash, ciphertext, env.signature.value)
  }

  /** A record reaches the file first and the chain head in memory last. */
  function AppendSpec(c: Suite, hash: Hash32, key: seq<byte>, s: AuditState, plaintext: seq<byte>, env: Env)
    : AuditState
  {
    if !Writes(key, env) then s
    else
      var r := NewRecord(c, key, s.lastHash, plaintext, env);
      AuditState(if env.exportFails then s.lastHash else hash(r.HashInput()), s.log + r.Encode(hash))
  }

  class SecurityAudit {
    const suite: Suite
    const hash: Hash32
    const enabled: bool
    const key: seq<byte>
    var lastHash: seq<byte>
    var log: seq<byte>

    ghost function Abs(): AuditState
      reads this
    {
      AuditState(lastHash, log)
    }

    ghost predicate Valid()
      reads this
    {
      enabled ==> |lastHash| == HASH_LEN
    }

    /** A log that is switched off does not look at the file. */
    constructor (suite: Suite, hash: Hash32, enabled: bool, key: seq<byte>, log: seq<byte>)
      ensures Valid()
      ensures this.suite == suite && this.hash == hash && this.enabled == enabled && this.key == key
      ensures Abs() == AuditState(if enabled then Scan(log, ZeroHash()) else [], log)
    {
      this.suite, this.hash, this.enabled, this.key, this.log := suite, hash, enabled, key, log;
      lastHash := [];
      new;
      if enabled {
        lastHash := LoadLastHash(log);
      }
    }

    method AppendEncryptedRecord(plaintext: seq<byte>, env: Env) returns (r: Result<(), AuditError>)
      requires Valid()
      modifies this
      ensures Valid()
      ensures Abs() == if enabled then AppendSpec(suite, hash, key, old(Abs()), plaintext, env) else old(Abs())
      ensures r.Ok? <==> !enabled || (Writes(key, env) && !env.exportFails)
    {
      if !enabled {
        return Ok(());
      }
      if |key| != 32 {
        return Err(BadKey);
      }
      if env.nonce.None? {
        return Err(NoRandomness);
      }
      var nonce := env.nonce.value;
      var (ciphertext, tag) := suite.seal(key, nonce, [], plaintext);
      var header := MAGIC;
      header := header + [2];
      header := AppendU64(header, env.time);
      header := header + nonce;
      header := AppendU32(header, |ciphertext|);
      header := header + tag;
      header := header + lastHash;
      var hashInput := header + ciphertext;
      var recordHash := hash(hashInput);
      if env.signature.None? {
        return Err(SigningFailed);
      }
      var sig := env.signature.value;
      if |sig| > 0xFFFF {
        return Err(SignatureTooLarge);
      }
      if !env.logOpens {
        return Err(LogNotWritable);
      }
      ghost var written := NewRecord(suite, key, lastHash, plaintext, env);
      assert header == written.Header();
      BigEndianHead(|sig|, 2);
      BigEndianHead(|sig|, 1);
      Pow256Values();
      var lenBytes: seq<byte> := [|sig| / 256 % 256, |sig| % 256];
      var encoded := header + recordHash + lenBytes + sig + ciphertext;
      assert lenBytes == BigEndian(|sig|, 2);
      log := log + encoded;
      if env.exportFails {
        return Err(ExportFailed);
      }
      lastHash := recordHash;
      return Ok(());
    }
  }

  // --- Runs of appends and restarts ---

  datatype AuditOp = Append(plaintext: seq<byte>, env: Env) | Restart

  datatype AuditRun = AuditRun(state: AuditState, records: seq<Record>)

  function Start(): AuditRun {
    AuditRun(AuditState(ZeroHash(), []), [])
  }

  function Step(c: Suite, hash: Hash32, key: seq<byte>, run: AuditRun, op: AuditOp): AuditRun {
    match op
    case Restart => AuditRun(AuditState(Scan(run.state.log, ZeroHash()), run.state.log), run.records)
    case Append(plaintext, env) =>
      if !Writes(key, env) then run
      else
        AuditRun(AppendSpec(c, hash, key, run.state, plaintext, env),
                 run.records + [NewRecord(c, key, run.state.lastHash, plaintext, env)])
  }

  function Runs(c: Suite, hash: Hash32, key: seq<byte>, ops: seq<AuditOp>): AuditRun {
    if ops == [] then Start()
    else Step(c, hash, key, Runs(c, hash, key, ops[..|ops| - 1]), ops[|ops| - 1])
  }

  ghost predicate OpFits(op: AuditOp) {
    op.Append? ==>
      && op.env.time < TWO_64 && |op.plaintext| < TWO_32
      && (op.env.nonce.Some? ==> |op.env.nonce.value| == NONCE_LEN)
  }

  ghost predicate OpsFit(ops: seq<AuditOp>) {
    forall i :: 0 <= i < |ops| ==> OpFits(ops[i])
  }

  // --- When does the chain hold?  Said of the operations alone ---

  predicate WritesRecord(key: seq<byte>, op: AuditOp) {
    op.Append? && Writes(key, op.env)
  }

  /** The record is in the file, and the export then fails. */
  predicate FailsAfterWrite(key: seq<byte>, op: AuditOp) {
    WritesRecord(key, op) && op.env.exportFails
  }

  /** From operation i to j nothing was written and nobody restarted. */
  predicate Quiet(key: seq<byte>, ops: seq<AuditOp>, i: nat, j: nat)
    requires j <= |ops|
  {
    forall k :: i <= k < j ==> !ops[k].Restart? && !WritesRecord(key, ops[k])
  }

  /** The last write failed in the export, and there was no restart since. */
  predicate HeadLags(key: seq<byte>, ops: seq<AuditOp>) {
    exists i :: 0 <= i < |ops| && LagStartsAt(key, ops, i)
  }

  predicate LagStartsAt(key: seq<byte>, ops: seq<AuditOp>, i: nat)
    requires i < |ops|
  {
    FailsAfterWrite(key, ops[i]) && Quiet(key, ops, i + 1, |ops|)
  }

  /** Some write failed in the export, and the next write came without a restart between. */
  predicate ChainBreaks(key: seq<byte>, ops: seq<AuditOp>) {
    exists j :: 0 <= j < |ops| && BreaksAt(key, ops, j)
  }

  predicate BreaksAt(key: seq<byte>, ops: seq<AuditOp>, j: nat)
    requires j < |ops|
  {
    WritesRecord(key, ops[j]) && HeadLags(key, ops[..j])
  }

  lemma LagsAfterOne(key: seq<byte>, ops: seq<AuditOp>)
    requires ops != []
    ensures var n := |ops| - 1;
      HeadLags(key, ops) <==>
        FailsAfterWrite(key, ops[n]) ||
        (!ops[n].Restart? && !WritesRecord(key, ops[n]) && HeadLags(key, ops[..n]))
  {
    var n := |ops| - 1;
    var init := ops[..n];
    forall i | 0 <= i < n
      ensures LagStartsAt(key, ops, i) <==>
        !ops[n].Restart? && !WritesRecord(key, ops[n]) && LagStartsAt(key, init, i)
    {
      assert forall k :: i + 1 <= k < n ==> init[k] == ops[k];
      assert init[i] == ops[i];
    }
    assert FailsAfterWrite(key, ops[n]) ==> LagStartsAt(key, ops, n);
  }

  lemma BreaksAfterOne(key: seq<byte>, ops: seq<AuditOp>)
    requires ops != []
    ensures var n := |ops| - 1;
      ChainBreaks(key, ops) <==>
        ChainBreaks(key, ops[..n]) || (WritesRecord(key, ops[n]) && HeadLags(key, ops[..n]))
  {
    var n := |ops| - 1;
    forall j | 0 <= j < n ensures BreaksAt(key, ops, j) <==> BreaksAt(key, ops[..n], j) {
      assert ops[..n][..j] == ops[..j];
    }
    assert BreaksAt(key, ops, n) <==> WritesRecord(key, ops[n]) && HeadLags(key, ops[..n]);
    hide BreaksAt;
  }

  // --- The invariant ---

  /** The part about memory. */
  ghost predicate HeadInvariant(hash: Hash32, run: AuditRun, lags: bool) {
    && |run.state.lastHash| == HASH_LEN
    && if lags then run.records != [] && run.state.lastHash == run.records[|run.records| - 1].prev
       else run.state.lastHash == Head(hash, run.records)
  }

  /** The part about the file. */
  ghost predicate FileInvariant(hash: Hash32, run: AuditRun, breaks: bool) {
    && AllFit(run.records) && run.state.log == EncodeAll(hash, run.records)
    && if breaks then HasGap(run.records) else Linked(hash, run.records)
  }

  ghost predicate RunInvariant(hash: Hash32, run: AuditRun, lags: bool, breaks: bool) {
    HeadInvariant(hash, run, lags) && FileInvariant(hash, run, breaks)
  }

  /** A record carries on from the head before its predecessor. */
  ghost predicate HasGap(records: seq<Record>) {
    exists i :: 0 <= i < |records| - 1 && records[i + 1].prev == records[i].prev
  }

  /** No record's hash is its own previous-hash field. */
  ghost predicate NoFixpoint(hash: Hash32, records: seq<Record>) {
    forall i :: 0 <= i < |records| ==> hash(records[i].HashInput()) != records[i].prev
  }

  lemma LinkedExtends(hash: Hash32, records: seq<Record>, r: Record)
    requires Linked(hash, records) && r.prev == Head(hash, records)
    ensures Linked(hash, records + [r])
  {
    forall i | 0 <= i < |records| + 1
      ensures (records + [r])[i].prev == Head(hash, (records + [r])[..i])
    {
      assert (records + [r])[..i] == records[..i];
      assert records[..|records|] == records;
    }
  }

  lemma GapPersists(records: seq<Record>, r: Record)
    requires HasGap(records) || (records != [] && r.prev == records[|records| - 1].prev)
    ensures HasGap(records + [r])
  {
    var all := records + [r];
    if HasGap(records) {
      var i :| 0 <= i < |records| - 1 && records[i + 1].prev == records[i].prev;
      assert all[i + 1].prev == all[i].prev;
    } else {
      var i := |records| - 1;
      assert all[i + 1].prev == all[i].prev;
    }
  }

  lemma EncodeAllExtends(hash: Hash32, records: seq<Record>, r: Record)
    ensures EncodeAll(hash, records + [r]) == EncodeAll(hash, records) + r.Encode(hash)
  {
    hide Record.Encode;
    assert (records + [r])[..|records|] == records;
  }

  lemma ChainFollowsWrite(hash: Hash32, run: AuditRun, r: Record, lags: bool, breaks: bool)
    requires RunInvariant(hash, run, lags, breaks) && r.prev == run.state.lastHash
    ensures if breaks || lags then HasGap(run.records + [r]) else Linked(hash, run.records + [r])
  {
    if breaks || lags {
      GapPersists(run.records, r);
    } else {
      LinkedExtends(hash, run.records, r);
    }
  }

  lemma WriteKeepsInvariant(c: Suite, hash: Hash32, key: seq<byte>, run: AuditRun, op: AuditOp,
                            lags: bool, breaks: bool)
    requires RunInvariant(hash, run, lags, breaks) && OpFits(op) && WritesRecord(key, op)
    ensures RunInvariant(hash, Step(c, hash, key, run, op), op.env.exportFails, breaks || lags)
  {
    var r := NewRecord(c, key, run.state.lastHash, op.plaintext, op.env);
    assert r.Fits() && r.prev == run.state.lastHash;
    EncodeAllExtends(hash, run.records, r);
    ChainFollowsWrite(hash, run, r, lags, breaks);
    hide Record.Encode, Record.HashInput, EncodeAll, NewRecord, HasGap, Linked;
  }

  lemma RestartKeepsInvariant(c: Suite, hash: Hash32, key: seq<byte>, run: AuditRun, lags: bool, breaks: bool)
    requires RunInvariant(hash, run, lags, breaks)
    ensures RunInvariant(hash, Step(c, hash, key, run, Restart), false, breaks)
  {
    ScanFindsHead(hash, run.records);
    hide Scan, EncodeAll, HasGap, Linked;
  }

  /** Over every run: what the operations say of head and chain is so. */
  lemma {:induction false} RunInvariantHolds(c: Suite, hash: Hash32, key: seq<byte>, ops: seq<AuditOp>)
    requires OpsFit(ops)
    ensures RunInvariant(hash, Runs(c, hash, key, ops), HeadLags(key, ops), ChainBreaks(key, ops))
    decreases |ops|
  {
    if ops != [] {
      var n := |ops| - 1;
      var run, op := Runs(c, hash, key, ops[..n]), ops[n];
      RunInvariantHolds(c, hash, key, ops[..n]);
      LagsAfterOne(key, ops);
      BreaksAfterOne(key, ops);
      assert OpFits(op);
      hide RunInvariant, HeadLags, ChainBreaks;
      var lags, breaks := HeadLags(key, ops[..n]), ChainBreaks(key, ops[..n]);
      if op.Restart? {
        RestartKeepsInvariant(c, hash, key, run, lags, breaks);
      } else if WritesRecord(key, op) {
        WriteKeepsInvariant(c, hash, key, run, op, lags, breaks);
      }
    }
  }

  lemma GapBreaksChain(hash: Hash32, records: seq<Record>)
    requires NoFixpoint(hash, records) && HasGap(records)
    ensures !Linked(hash, records)
  {
    var i :| 0 <= i < |records| - 1 && records[i + 1].prev == records[i].prev;
    assert records[..i + 1][|records[..i + 1]| - 1] == records[i];
    assert Head(hash, records[..i + 1]) == hash(records[i].HashInput());
  }

  /**
   After any sequence of appends and restarts, every record in the file names its predecessor
   exactly when no write followed a failed export without a restart between; and the scan
   returns the head in memory exactly when no failed export is still pending.  (For the "only
   when" parts, no record may hash to its own previous-hash field.)
   */
  lemma AuditRestart(c: Suite, hash: Hash32, key: seq<byte>, ops: seq<AuditOp>)
    requires OpsFit(ops)
    ensures var run := Runs(c, hash, key, ops);
      && run.state.log == EncodeAll(hash, run.records)
      && (!ChainBreaks(key, ops) ==> Linked(hash, run.records))
      && (!HeadLags(key, ops) ==> run.state.lastHash == Scan(run.state.log, ZeroHash()))
      && (NoFixpoint(hash, run.records) ==>
            && (Linked(hash, run.records) ==> !ChainBreaks(key, ops))
            && (run.state.lastHash == Scan(run.state.log, ZeroHash()) ==> !HeadLags(key, ops)))
  {
    var run := Runs(c, hash, key, ops);
    RunInvariantHolds(c, hash, key, ops);
    ScanFindsHead(hash, run.records);
    if ChainBreaks(key, ops) && NoFixpoint(hash, run.records) {
      GapBreaksChain(hash, run.records);
    }
    hide Runs, Scan, EncodeAll, Linked, HasGap, HeadLags, ChainBreaks;
  }

  /** Two appends of which the first fails in the export: the second record repeats the previous hash of the first. */
  lemma FailedExportBreaksChain(c: Suite, hash: Hash32, key: seq<byte>, first: AuditOp, second: AuditOp)
    requires FailsAfterWrite(key, first) && WritesRecord(key, second)
    ensures var run := Runs(c, hash, key, [first, second]);
      && |run.records| == 2 && run.records[0].prev == run.records[1].prev == ZeroHash()
      && (Linked(hash, run.records) <==> hash(run.records[0].HashInput()) == ZeroHash())
  {
    hide Record.Encode, Record.HashInput;
    assert [first, second][..1] == [first] && [first][..0] == [];
    var start := Runs(c, hash, key, []);
    var one := Step(c, hash, key, start, first);
    assert Runs(c, hash, key, [first]) == one;
    var run := Step(c, hash, key, one, second);
    assert Runs(c, hash, key, [first, second]) == run;
    assert run.records == [one.records[0], run.records[1]];
    assert run.records[..0] == [] && run.records[..1] == [one.records[0]];
  }

  // --- What the head commits to ---

  lemma CommittedParts(a: Record, b: Record)
    requires a.Fits() && b.Fits() && a.HashInput() == b.HashInput()
    ensures a.Header() == b.Header() && a.ciphertext == b.ciphertext && a.prev == b.prev
  {
    HeaderLayout(a);
    HeaderLayout(b);
    SplitConcat(a.Header(), a.ciphertext, b.Header(), b.ciphertext);
  }

  ghost predicate SameContent(a: seq<Record>, b: seq<Record>) {
    |a| == |b| && forall i :: 0 <= i < |a| ==> a[i].Header() == b[i].Header() && a[i].ciphertext == b[i].ciphertext
  }

  /**
   Two well-formed logs with one head have the same headers and ciphertexts, whatever their
   lengths; otherwise the proof returns two colliding inputs or an input that hashes to zeros.
   */
  lemma {:induction false} HeadCommitsToLog(hash: Hash32, a: seq<Record>, b: seq<Record>)
    returns (x: seq<byte>, y: seq<byte>)
    requires AllFit(a) && AllFit(b) && Linked(hash, a) && Linked(hash, b)
    requires Head(hash, a) == Head(hash, b)
    ensures SameContent(a, b) || Collision(hash, x, y) || hash(x) == ZeroHash()
    decreases |a| + |b|
  {
    hide SameContent;
    hide Record.Header, Record.HashInput;
    x, y := [], [];
    SameContentExtends(a, b);
    if a == [] || b == [] {
      if a != [] {
        x := a[|a| - 1].HashInput();
      } else if b != [] {
        x := b[|b| - 1].HashInput();
      }
    } else {
      var r, s := a[|a| - 1], b[|b| - 1];
      if r.HashInput() != s.HashInput() {
        x, y := r.HashInput(), s.HashInput();
      } else {
        CommittedParts(r, s);
        LinkedPrefix(hash, a);
        LinkedPrefix(hash, b);
        x, y := HeadCommitsToLog(hash, a[..|a| - 1], b[..|b| - 1]);
      }
    }
  }

  lemma SameContentExtends(a: seq<Record>, b: seq<Record>)
    ensures a == [] && b == [] ==> SameContent(a, b)
    ensures a != [] && b != [] ==>
      var r, s := a[|a| - 1], b[|b| - 1];
      SameContent(a[..|a| - 1], b[..|b| - 1]) && r.Header() == s.Header() && r.ciphertext == s.ciphertext ==>
        SameContent(a, b)
  {
    hide Record.Header;
    if a != [] && b != [] && SameContent(a[..|a| - 1], b[..|b| - 1]) {
      forall i | 0 <= i < |a| - 1 ensures a[i].Header() == b[i].Header() && a[i].ciphertext == b[i].ciphertext {
        assert a[..|a| - 1][i] == a[i] && b[..|b| - 1][i] == b[i];
      }
    }
  }

  lemma LinkedPrefix(hash: Hash32, a: seq<Record>)
    requires a != [] && Linked(hash, a)
    ensures Linked(hash, a[..|a| - 1]) && Head(hash, a[..|a| - 1]) == a[|a| - 1].prev
  {
    var init := a[..|a| - 1];
    forall i | 0 <= i < |init| ensures init[i].prev == Head(hash, init[..i]) {
      assert init[..i] == a[..i] && init[i] == a[i];
    }
  }
}
