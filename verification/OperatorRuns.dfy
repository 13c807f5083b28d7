/** Who can log in: what a granted login says about the provisioning before it, over whole runs. */
module OperatorRuns {
  import opened Bytes
  import opened Wrappers
  import opened Crypto
  import opened Totp
  import opened OperatorAuth

  // --- One login ---

  /** Entry k is the one meant, and password and code are right for it. */
  ghost predicate Matches(f: Functions, policy: AuthPolicy, a: Auth, q: LoginRequest, k: nat)
    requires k < |a.creds|
  {
    var rec := a.creds[k];
    && rec.role == q.role && rec.identity == q.identity
    && f.pbkdf2(q.password, rec.salt) == rec.hash
    && (NeedsCode(policy, q.role) ==>
          rec.totpSecret != [] && q.code.Some? &&
          Accepts(f.mac, rec.totpSecret, q.now, policy.totpStep, policy.totpDrift, q.code.value))
  }

  predicate NeedsCode(policy: AuthPolicy, role: Role) {
    (role == CryptoOfficer && policy.mfaForOfficer) || (role != CryptoOfficer && policy.mfaForUser)
  }

  lemma {:induction false} LookupFinds(creds: seq<Credential>, k: nat)
    requires UniqueEntries(creds) && k < |creds|
    ensures Lookup(creds, creds[k].role, creds[k].identity) == Some(creds[k])
    decreases creds
  {
    if k > 0 {
      LookupFinds(creds[1..], k - 1);
    }
  }

  lemma {:induction false} LookupIsEntry(creds: seq<Credential>, role: Role, identity: string) returns (k: nat)
    requires Lookup(creds, role, identity).Some?
    ensures k < |creds| && Lookup(creds, role, identity) == Some(creds[k])
    ensures creds[k].role == role && creds[k].identity == identity
    decreases creds
  {
    if creds[0].role == role && creds[0].identity == identity {
      k := 0;
    } else {
      k := LookupIsEntry(creds[1..], role, identity);
      k := k + 1;
    }
  }

  /** Exactly when a login is granted. */
  lemma GrantedExactly(f: Functions, policy: AuthPolicy, a: Auth, q: LoginRequest)
    requires UniqueEntries(a.creds)
    ensures Judge(f, policy, a, q) == Granted <==>
      && a.state == Approved && a.fipsEnabled && a.lockoutUntil <= q.now && !q.kdfFails
      && exists k :: 0 <= k < |a.creds| && Matches(f, policy, a, q, k)
  {
    if Judge(f, policy, a, q) == Granted {
      var k := LookupIsEntry(a.creds, q.role, q.identity);
      assert Matches(f, policy, a, q, k);
    }
    if k: nat :| 0 <= k < |a.creds| && Matches(f, policy, a, q, k) {
      LookupFinds(a.creds, k);
    }
  }

  /** Exactly which refusals count as failures: unknown operator, wrong password, wrong code. */
  lemma CountedExactly(f: Functions, policy: AuthPolicy, a: Auth, q: LoginRequest)
    requires UniqueEntries(a.creds)
    ensures Judge(f, policy, a, q) == Counted <==>
      && a.state == Approved && a.fipsEnabled && a.lockoutUntil <= q.now
      && (|| !Has(a.creds, q.role, q.identity)
          || (!q.kdfFails && exists k :: 0 <= k < |a.creds| && Mistaken(f, policy, a, q, k)))
  {
    if Lookup(a.creds, q.role, q.identity).Some? {
      var k := LookupIsEntry(a.creds, q.role, q.identity);
      assert forall l :: 0 <= l < |a.creds| && Mistaken(f, policy, a, q, l) ==> l == k;
      assert Judge(f, policy, a, q) == Counted ==> Mistaken(f, policy, a, q, k);
    }
  }

  ghost predicate Mistaken(f: Functions, policy: AuthPolicy, a: Auth, q: LoginRequest, k: nat)
    requires k < |a.creds|
  {
    var rec := a.creds[k];
    && rec.role == q.role && rec.identity == q.identity
    && (|| f.pbkdf2(q.password, rec.salt) != rec.hash
        || (NeedsCode(policy, q.role) && rec.totpSecret != [] && q.code.Some? &&
            !Accepts(f.mac, rec.totpSecret, q.now, policy.totpStep, policy.totpDrift, q.code.value)))
  }

  /** A password hash that cannot be computed takes the module out of approved mode: nobody gets in or is added. */
  lemma BrokenKdfStopsModule(f: Functions, policy: AuthPolicy, a: Auth, op: AuthOp, q: LoginRequest,
                             p: ProvisionRequest)
    requires op == LoginOp(q) && a.state == Approved && a.fipsEnabled && a.lockoutUntil <= q.now
    requires q.kdfFails && Has(a.creds, q.role, q.identity)
    ensures var next := Step(f, policy, a, op);
      && next == a.(state := Failed)
      && (forall r :: Judge(f, policy, next, r) == NotApproved) && !ProvisionSpec(f, policy, next, p).1
  {
  }

  /** Where an initialization leads; a module that is up, or testing itself, is left alone. */
  lemma InitializesExactly(a: Auth, outcome: InitOutcome)
    ensures var next := InitializeSpec(a, outcome);
      && (a.state in {Approved, NonApproved, SelfTest} ==> next == a)
      && (a.state in {Uninitialized, Failed} ==>
            && (next.state == Approved <==> outcome.succeeds && outcome.fips)
            && (next.state == NonApproved <==> outcome.succeeds && !outcome.fips)
            && (next.state == Failed <==> !outcome.succeeds)
            && next.creds == a.creds && next.role == a.role && next.lockoutUntil == a.lockoutUntil)
  {
  }

  // --- Over runs ---

  predicate NoShutdown(ops: seq<AuthOp>, from: nat) {
    forall k :: from <= k < |ops| ==> !ops[k].ShutdownOp?
  }

  /** Operation i provisioned c, under the policy, and nothing was shut down since. */
  predicate ProvisionedAt(f: Functions, policy: AuthPolicy, ops: seq<AuthOp>, i: nat, c: Credential)
    requires i < |ops|
  {
    && ops[i].ProvisionOp? && NoShutdown(ops, i)
    && var p := ops[i].provision;
       && c.role == p.role && c.identity == p.identity && c.totpSecret == p.totpSecret
       && p.salt == Some(c.salt) && c.hash == f.pbkdf2(p.password, c.salt)
       && p.identity != "" && |p.password| >= policy.minPasswordLen
       && (p.role == CryptoOfficer || p.role == User) && (NeedsCode(policy, p.role) ==> p.totpSecret != [])
  }

  ghost predicate WasProvisioned(f: Functions, policy: AuthPolicy, ops: seq<AuthOp>, c: Credential) {
    exists i :: 0 <= i < |ops| && ProvisionedAt(f, policy, ops, i, c)
  }

  lemma ProvisioningPersists(f: Functions, policy: AuthPolicy, ops: seq<AuthOp>, c: Credential)
    requires ops != [] && WasProvisioned(f, policy, ops[..|ops| - 1], c) && !ops[|ops| - 1].ShutdownOp?
    ensures WasProvisioned(f, policy, ops, c)
  {
    var n := |ops| - 1;
    var i :| 0 <= i < n && ProvisionedAt(f, policy, ops[..n], i, c);
    assert forall k :: 0 <= k < n ==> ops[..n][k] == ops[k];
    assert ProvisionedAt(f, policy, ops, i, c);
  }

  /** Every entry of the table was provisioned since the last shutdown. */
  lemma {:induction false} EntriesWereProvisioned(f: Functions, policy: AuthPolicy, ops: seq<AuthOp>, c: Credential)
    requires c in Run(f, policy, ops).auth.creds
    ensures WasProvisioned(f, policy, ops, c)
    decreases |ops|
  {
    var n := |ops| - 1;
    var before := Run(f, policy, ops[..n]).auth;
    if c in before.creds && !ops[n].ShutdownOp? {
      EntriesWereProvisioned(f, policy, ops[..n], c);
      ProvisioningPersists(f, policy, ops, c);
    } else {
      NewEntryIsProvisioned(f, policy, before, ops[n], c);
      assert ProvisionedAt(f, policy, ops, n, c);
    }
  }

  lemma NewEntryIsProvisioned(f: Functions, policy: AuthPolicy, a: Auth, op: AuthOp, c: Credential)
    requires c in Step(f, policy, a, op).creds && (c !in a.creds || op.ShutdownOp?)
    ensures ProvisionedAt(f, policy, [op], 0, c)
  {
  }

  /** Somebody gave this role and identity a password that matches, and a secret that matches the code. */
  ghost predicate Entitled(f: Functions, policy: AuthPolicy, ops: seq<AuthOp>, q: LoginRequest, i: nat)
    requires i < |ops|
  {
    && ops[i].ProvisionOp? && NoShutdown(ops, i)
    && var p := ops[i].provision;
       && p.role == q.role && p.identity == q.identity
       && p.salt.Some? && f.pbkdf2(q.password, p.salt.value) == f.pbkdf2(p.password, p.salt.value)
       && (NeedsCode(policy, q.role) ==>
             p.totpSecret != [] && q.code.Some? &&
             Accepts(f.mac, p.totpSecret, q.now, policy.totpStep, policy.totpDrift, q.code.value))
  }

  /** Over every run, whoever is let in was provisioned since the last shutdown with what he presents. */
  lemma GrantedWasEntitled(f: Functions, policy: AuthPolicy, ops: seq<AuthOp>, q: LoginRequest) returns (i: nat)
    requires Judge(f, policy, Run(f, policy, ops).auth, q) == Granted
    ensures i < |ops| && Entitled(f, policy, ops, q, i)
  {
    var a := Run(f, policy, ops).auth;
    ProvenanceHolds(f, policy, ops);
    GrantedExactly(f, policy, a, q);
    var k :| 0 <= k < |a.creds| && Matches(f, policy, a, q, k);
    EntriesWereProvisioned(f, policy, ops, a.creds[k]);
    hide Run;
    i :| 0 <= i < |ops| && ProvisionedAt(f, policy, ops, i, a.creds[k]);
  }

  lemma StepToApproved(f: Functions, policy: AuthPolicy, a: Auth, op: AuthOp)
    requires Step(f, policy, a, op).state == Approved
    ensures if a.state == Approved then Step(f, policy, a, op).fipsEnabled == a.fipsEnabled && !op.ShutdownOp?
            else op == InitializeOp(InitOutcome(true, true)) && Step(f, policy, a, op).fipsEnabled
  {
  }

  /** Approved mode was entered by an initialization in FIPS mode since the last shutdown. */
  lemma {:induction false} ApprovedWasInitialized(f: Functions, policy: AuthPolicy, ops: seq<AuthOp>) returns (i: nat)
    requires Run(f, policy, ops).auth.state == Approved
    ensures i < |ops| && ops[i].InitializeOp? && ops[i].outcome.succeeds && ops[i].outcome.fips && NoShutdown(ops, i)
    ensures Run(f, policy, ops).auth.fipsEnabled
    decreases |ops|
  {
    var n := |ops| - 1;
    StepToApproved(f, policy, Run(f, policy, ops[..n]).auth, ops[n]);
    hide Step;
    if Run(f, policy, ops[..n]).auth.state == Approved {
      i := ApprovedWasInitialized(f, policy, ops[..n]);
      assert forall k :: 0 <= k < n ==> ops[..n][k] == ops[k];
    } else {
      i := n;
    }
  }

  // --- The way in ---

  /** An officer's request that the policy allows, and the login that fits it. */
  predicate Fits(f: Functions, policy: AuthPolicy, p: ProvisionRequest, q: LoginRequest) {
    && p.identity != "" && |p.password| >= policy.minPasswordLen && p.salt.Some? && !p.kdfFails
    && (NeedsCode(policy, p.role) ==> p.totpSecret != [])
    && q.role == p.role && q.identity == p.identity && q.password == p.password && !q.kdfFails
  }

  ghost predicate CodeFits(f: Functions, policy: AuthPolicy, p: ProvisionRequest, q: LoginRequest) {
    NeedsCode(policy, q.role) ==>
      q.code.Some? && Accepts(f.mac, p.totpSecret, q.now, policy.totpStep, policy.totpDrift, q.code.value)
  }

  /** The first officer: initialize, provision, log in. */
  lemma FirstOfficerGetsIn(f: Functions, policy: AuthPolicy, p: ProvisionRequest, q: LoginRequest)
    requires p.role == CryptoOfficer && Fits(f, policy, p, q) && CodeFits(f, policy, p, q)
    ensures var a := Run(f, policy, [InitializeOp(InitOutcome(true, true)), ProvisionOp(p), LoginOp(q)]).auth;
      && a.state == Approved && a.fipsEnabled && a.role == CryptoOfficer && a.identity == p.identity
      && a.creds == [Credential(CryptoOfficer, p.identity, p.salt.value, f.pbkdf2(p.password, p.salt.value),
                                p.totpSecret)]
      && a.failedAttempts == 0 && a.lockoutUntil == 0
  {
    var ops := [InitializeOp(InitOutcome(true, true)), ProvisionOp(p), LoginOp(q)];
    hide Accepts;
    var start := Run(f, policy, []).auth;
    assert ops[..2] == [ops[0], ops[1]];
    assert [ops[0], ops[1]][..1] == [ops[0]];
    assert [ops[0]][..0] == [];
    var one := Run(f, policy, [ops[0]]).auth;
    assert one == Step(f, policy, start, ops[0]);
    assert one == Auth(Approved, true, [], NoRole, "", 0, 0);
    var two := Run(f, policy, ops[..2]).auth;
    assert two.creds == [Credential(CryptoOfficer, p.identity, p.salt.value, f.pbkdf2(p.password, p.salt.value),
                                    p.totpSecret)];
    assert Lookup(two.creds, q.role, q.identity) == Some(two.creds[0]);
  }

  /** An officer who is logged in adds any operator that is not there yet. */
  lemma OfficerAdds(f: Functions, policy: AuthPolicy, a: Auth, p: ProvisionRequest, q: LoginRequest)
    requires a.state == Approved && a.fipsEnabled && a.role == CryptoOfficer
    requires (p.role == CryptoOfficer || p.role == User) && Fits(f, policy, p, q)
    ensures ProvisionSpec(f, policy, a, p).1 <==> !Has(a.creds, p.role, p.identity)
  {
  }

  /** After a logout nobody is logged in, and only a first officer can be added. */
  lemma LogoutTakesRights(f: Functions, policy: AuthPolicy, a: Auth, p: ProvisionRequest)
    ensures var out := Step(f, policy, a, LogoutOp);
      && out == a.(role := NoRole, identity := "")
      && (ProvisionSpec(f, policy, out, p).1 ==> p.role == CryptoOfficer && !HasRole(a.creds, CryptoOfficer))
  {
  }
}
