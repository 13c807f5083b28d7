/**
 Operators of the FIPS module: provisioning, login with lockout and one-time codes, logout
 and shutdown.
 */
module OperatorAuth {
  import opened Bytes
  import opened Wrappers
  import opened Crypto
  import opened Totp

  datatype ModuleState = Uninitialized | SelfTest | Approved | NonApproved | Failed
  datatype Role = NoRole | CryptoOfficer | User

  datatype AuthPolicy = AuthPolicy(
    minPasswordLen: nat, mfaForOfficer: bool, mfaForUser: bool, totpStep: nat, totpDrift: int,
    maxFailedAttempts: nat, lockoutSeconds: nat)

  datatype Credential = Credential(role: Role, identity: string, salt: seq<byte>, hash: seq<byte>,
                                   totpSecret: seq<byte>)

  /** PBKDF2 and HMAC as the module calls them. */
  datatype Functions = Functions(pbkdf2: (string, seq<byte>) -> seq<byte>, mac: Mac32)

  datatype Auth = Auth(state: ModuleState, fipsEnabled: bool, creds: seq<Credential>,
                       role: Role, identity: string, failedAttempts: nat, lockoutUntil: nat)

  function MfaRequired(policy: AuthPolicy, role: Role): bool {
    if role == CryptoOfficer then policy.mfaForOfficer else policy.mfaForUser
  }

  predicate IsApproved(a: Auth) {
    a.state == Approved && a.fipsEnabled
  }

  predicate Has(creds: seq<Credential>, role: Role, identity: string) {
    exists k :: 0 <= k < |creds| && creds[k].role == role && creds[k].identity == identity
  }

  predicate HasRole(creds: seq<Credential>, role: Role) {
    exists k :: 0 <= k < |creds| && creds[k].role == role
  }

  /** The first matching entry. */
  function Lookup(creds: seq<Credential>, role: Role, identity: string): (r: Option<Credential>)
    ensures r.Some? <==> Has(creds, role, identity)
  {
    if creds == [] then None
    else if creds[0].role == role && creds[0].identity == identity then Some(creds[0])
    else
      assert Has(creds[1..], role, identity) ==> Has(creds, role, identity);
      Lookup(creds[1..], role, identity)
  }

  // --- What the operations mean ---

  /** Why a login is refused, or that it is granted.  Only `Counted` adds to the failures. */
  datatype Verdict = NotApproved | LockedOut | Counted | KdfBroken | MfaNotUsable | Granted

  datatype LoginRequest = LoginRequest(role: Role, identity: string, password: string, code: Option<string>,
                                       now: nat, kdfFails: bool)

  ghost function Judge(f: Functions, policy: AuthPolicy, a: Auth, q: LoginRequest): Verdict {
    if !IsApproved(a) then NotApproved
    else if q.now < a.lockoutUntil then LockedOut
    else
      match Lookup(a.creds, q.role, q.identity)
      case None => Counted
      case Some(rec) =>
        if q.kdfFails then KdfBroken
        else if f.pbkdf2(q.password, rec.salt) != rec.hash then Counted
        else if !MfaRequired(policy, q.role) then Granted
        else if rec.totpSecret == [] || q.code.None? then MfaNotUsable
        else if Accepts(f.mac, rec.totpSecret, q.now, policy.totpStep, policy.totpDrift, q.code.value) then Granted
        else Counted
  }

  /** A counted failure: from the limit on, each one locks for the whole lockout time again. */
  function AfterFailure(policy: AuthPolicy, a: Auth, now: nat): Auth {
    var failed := (a.failedAttempts + 1) % TWO_32;
    a.(failedAttempts := failed,
       lockoutUntil := if failed >= policy.maxFailedAttempts then U64(now + policy.lockoutSeconds) else a.lockoutUntil)
  }

  ghost function LoginSpec(f: Functions, policy: AuthPolicy, a: Auth, q: LoginRequest): Auth {
    match Judge(f, policy, a, q)
    case Granted => a.(role := q.role, identity := q.identity, failedAttempts := 0, lockoutUntil := 0)
    case Counted => AfterFailure(policy, a, q.now)
    case KdfBroken => a.(state := Failed)
    case _ => a
  }

  datatype ProvisionRequest = ProvisionRequest(role: Role, identity: string, password: string, totpSecret: seq<byte>,
                                               salt: Option<seq<byte>>, kdfFails: bool)

  /** The first Crypto Officer needs nobody; everybody else needs a Crypto Officer logged in. */
  predicate Bootstrap(a: Auth, role: Role) {
    !HasRole(a.creds, CryptoOfficer) && role == CryptoOfficer
  }

  predicate MayProvision(policy: AuthPolicy, a: Auth, q: ProvisionRequest) {
    && (q.role == CryptoOfficer || q.role == User)
    && q.identity != "" && |q.password| >= policy.minPasswordLen && IsApproved(a)
    && (Bootstrap(a, q.role) || a.role == CryptoOfficer)
    && !Has(a.creds, q.role, q.identity)
    && (MfaRequired(policy, q.role) ==> q.totpSecret != [])
  }

  function ProvisionSpec(f: Functions, policy: AuthPolicy, a: Auth, q: ProvisionRequest): (Auth, bool) {
    if !MayProvision(policy, a, q) then (a, false)
    else if q.salt.None? || q.kdfFails then (a.(state := Failed), false)
    else
      var salt := q.salt.value;
      var rec := Credential(q.role, q.identity, salt, f.pbkdf2(q.password, salt), q.totpSecret);
      (a.(creds := a.creds + [rec]), true)
  }

  function LogoutSpec(a: Auth): Auth {
    a.(role := NoRole, identity := "")
  }

  function ShutdownSpec(a: Auth): Auth {
    Auth(Uninitialized, false, [], NoRole, "", 0, 0)
  }

  /** Provider loading and self-tests: they fail, or end in approved or non-approved mode. */
  datatype InitOutcome = InitOutcome(succeeds: bool, fips: bool)

  function InitializeSpec(a: Auth, outcome: InitOutcome): Auth {
    if a.state == Approved || a.state == NonApproved || a.state == SelfTest then a
    else
      a.(fipsEnabled := outcome.fips,
         state := if !outcome.succeeds then Failed else if outcome.fips then Approved else NonApproved)
  }

  // --- The class ---

  class FipsModule {
    const functions: Functions
    const authPolicy: AuthPolicy
    var state: ModuleState
    var fipsEnabled: bool
    var creds: seq<Credential>
    var currentRole: Role
    var currentIdentity: string
    var failedAttempts: nat
    var lockoutUntil: nat

    ghost function Abs(): Auth
      reads this
    {
      Auth(state, fipsEnabled, creds, currentRole, currentIdentity, failedAttempts, lockoutUntil)
    }

    constructor (functions: Functions, authPolicy: AuthPolicy)
      ensures this.functions == functions && this.authPolicy == authPolicy
      ensures Abs() == Auth(Uninitialized, false, [], NoRole, "", 0, 0)
    {
      this.functions, this.authPolicy := functions, authPolicy;
      state, fipsEnabled, creds := Uninitialized, false, [];
      currentRole, currentIdentity, failedAttempts, lockoutUntil := NoRole, "", 0, 0;
    }

    method Initialize(outcome: InitOutcome) returns (ok: bool)
      modifies this
      ensures Abs() == InitializeSpec(old(Abs()), outcome)
      ensures ok <==> state == Approved || state == NonApproved
    {
      if state == Approved || state == NonApproved {
        return true;
      }
      if state == SelfTest {
        return false;
      }
      state := SelfTest;
      fipsEnabled := outcome.fips;
      if !outcome.succeeds {
        state := Failed;
        return false;
      }
      state := if fipsEnabled then Approved else NonApproved;
      return true;
    }

    method Shutdown()
      modifies this
      ensures Abs() == ShutdownSpec(old(Abs()))
    {
      creds := [];
      currentIdentity, currentRole := "", NoRole;
      failedAttempts, lockoutUntil := 0, 0;
      fipsEnabled := false;
      state := Uninitialized;
    }

    method Logout()
      modifies this
      ensures Abs() == LogoutSpec(old(Abs()))
    {
      currentRole, currentIdentity := NoRole, "";
    }

    method IsRoleConfigured(role: Role) returns (found: bool)
      ensures found <==> HasRole(creds, role)
    {
      var i := 0;
      while i < |creds|
        invariant 0 <= i <= |creds|
        invariant forall k :: 0 <= k < i ==> creds[k].role != role
      {
        if creds[i].role == role {
          return true;
        }
        i := i + 1;
      }
      return false;
    }

    method FindCredential(role: Role, identity: string) returns (rec: Option<Credential>)
      ensures rec == Lookup(creds, role, identity)
    {
      var i := 0;
      while i < |creds|
        invariant 0 <= i <= |creds|
        invariant Lookup(creds[i..], role, identity) == Lookup(creds, role, identity)
      {
        if creds[i].role == role && creds[i].identity == identity {
          return Some(creds[i]);
        }
        assert creds[i..][1..] == creds[i + 1..];
        i := i + 1;
      }
      return None;
    }

    method CountFailure(now: nat)
      modifies this`failedAttempts, this`lockoutUntil
      ensures Abs() == AfterFailure(authPolicy, old(Abs()), now)
    {
      failedAttempts := (failedAttempts + 1) % TWO_32;
      if failedAttempts >= authPolicy.maxFailedAttempts {
        lockoutUntil := U64(now + authPolicy.lockoutSeconds);
      }
    }

    method ProvisionIdentity(q: ProvisionRequest) returns (ok: bool)
      modifies this
      ensures (Abs(), ok) == ProvisionSpec(functions, authPolicy, old(Abs()), q)
    {
      if q.role != CryptoOfficer && q.role != User {
        return false;
      }
      if q.identity == "" || |q.password| < authPolicy.minPasswordLen {
        return false;
      }
      if state != Approved || !fipsEnabled {
        return false;
      }
      var configured := IsRoleConfigured(CryptoOfficer);
      var bootstrap := !configured && q.role == CryptoOfficer;
      if !bootstrap && currentRole != CryptoOfficer {
        return false;
      }
      var existing := FindCredential(q.role, q.identity);
      if existing.Some? {
        return false;
      }
      if MfaRequired(authPolicy, q.role) && q.totpSecret == [] {
        return false;
      }
      if q.salt.None? || q.kdfFails {
        state := Failed;
        return false;
      }
      var salt := q.salt.value;
      var hash := functions.pbkdf2(q.password, salt);
      creds := creds + [Credential(q.role, q.identity, salt, hash, q.totpSecret)];
      return true;
    }

    method Login(q: LoginRequest) returns (ok: bool)
      modifies this
      ensures Abs() == LoginSpec(functions, authPolicy, old(Abs()), q)
      ensures ok <==> Judge(functions, authPolicy, old(Abs()), q) == Granted
    {
      if state != Approved || !fipsEnabled {
        return false;
      }
      if q.now < lockoutUntil {
        return false;
      }
      var rec := FindCredential(q.role, q.identity);
      if rec.None? {
        CountFailure(q.now);
        return false;
      }
      if q.kdfFails {
        state := Failed;
        return false;
      }
      if functions.pbkdf2(q.password, rec.value.salt) != rec.value.hash {
        CountFailure(q.now);
        return false;
      }
      if MfaRequired(authPolicy, q.role) {
        if rec.value.totpSecret == [] || q.code.None? {
          return false;
        }
        var totpOk := VerifyCode(functions.mac, rec.value.totpSecret, q.now, authPolicy.totpStep,
                                 authPolicy.totpDrift, q.code.value);
        if !totpOk {
          CountFailure(q.now);
          return false;
        }
      }
      currentRole, currentIdentity := q.role, q.identity;
      failedAttempts, lockoutUntil := 0, 0;
      return true;
    }
  }

  // --- Runs ---

  datatype AuthOp =
    | InitializeOp(outcome: InitOutcome)
    | ShutdownOp
    | LogoutOp
    | ProvisionOp(provision: ProvisionRequest)
    | LoginOp(login: LoginRequest)

  ghost function Step(f: Functions, policy: AuthPolicy, a: Auth, op: AuthOp): Auth {
    match op
    case InitializeOp(outcome) => InitializeSpec(a, outcome)
    case ShutdownOp => ShutdownSpec(a)
    case LogoutOp => LogoutSpec(a)
    case ProvisionOp(q) => ProvisionSpec(f, policy, a, q).0
    case LoginOp(q) => LoginSpec(f, policy, a, q)
  }

  /** A run with its history: counted failures since the last success or shutdown, and who added each entry. */
  datatype AuthRun = AuthRun(auth: Auth, failures: seq<nat>, addedBy: seq<Option<(Role, string)>>)

  ghost function StepRun(f: Functions, policy: AuthPolicy, r: AuthRun, op: AuthOp): AuthRun {
    var next := Step(f, policy, r.auth, op);
    match op
    case LoginOp(q) =>
      var verdict := Judge(f, policy, r.auth, q);
      AuthRun(next,
              if verdict == Granted then [] else if verdict == Counted then r.failures + [q.now] else r.failures,
              r.addedBy)
    case ShutdownOp => AuthRun(next, [], [])
    case ProvisionOp(q) =>
      AuthRun(next, r.failures,
              if ProvisionSpec(f, policy, r.auth, q).1
              then r.addedBy + [if r.auth.role == NoRole then None else Some((r.auth.role, r.auth.identity))]
              else r.addedBy)
    case _ => AuthRun(next, r.failures, r.addedBy)
  }

  ghost function Run(f: Functions, policy: AuthPolicy, ops: seq<AuthOp>): AuthRun {
    if ops == [] then AuthRun(Auth(Uninitialized, false, [], NoRole, "", 0, 0), [], [])
    else StepRun(f, policy, Run(f, policy, ops[..|ops| - 1]), ops[|ops| - 1])
  }

  // --- The lockout bound ---

  /** Login times never decrease and stay clear of the end of the 64-bit clock. */
  ghost predicate ClockIsSane(policy: AuthPolicy, ops: seq<AuthOp>) {
    && (forall i :: 0 <= i < |ops| && ops[i].LoginOp? ==> ops[i].login.now + policy.lockoutSeconds < TWO_64)
    && forall i, j :: 0 <= i < j < |ops| && ops[i].LoginOp? && ops[j].LoginOp? ==> ops[i].login.now <= ops[j].login.now
  }

  ghost predicate FewFailures(f: Functions, policy: AuthPolicy, ops: seq<AuthOp>) {
    forall n :: 0 <= n <= |ops| ==> |Run(f, policy, ops[..n]).failures| < TWO_32
  }

  /** From the limit on, consecutive failures are a whole lockout apart. */
  ghost predicate Spaced(policy: AuthPolicy, failures: seq<nat>) {
    && (forall k :: 0 < k < |failures| ==> failures[k - 1] <= failures[k])
    && forall k :: policy.maxFailedAttempts <= k < |failures| && k > 0 ==>
         failures[k] >= failures[k - 1] + policy.lockoutSeconds
  }

  ghost predicate LockoutInvariant(policy: AuthPolicy, r: AuthRun, ops: seq<AuthOp>) {
    && Spaced(policy, r.failures)
    && r.auth.failedAttempts == |r.failures|
    && r.auth.lockoutUntil ==
         (if r.failures != [] && |r.failures| >= policy.maxFailedAttempts
          then r.failures[|r.failures| - 1] + policy.lockoutSeconds else 0)
    && (r.failures != [] ==> IsLoginTime(ops, r.failures[|r.failures| - 1]))
  }

  ghost predicate IsLoginTime(ops: seq<AuthOp>, t: nat) {
    exists i :: 0 <= i < |ops| && ops[i].LoginOp? && ops[i].login.now == t
  }

  lemma LoginTimePersists(ops: seq<AuthOp>, n: nat, t: nat)
    requires n <= |ops| && IsLoginTime(ops[..n], t)
    ensures IsLoginTime(ops, t)
  {
    var i :| 0 <= i < n && ops[..n][i].LoginOp? && ops[..n][i].login.now == t;
    assert ops[i].LoginOp? && ops[i].login.now == t;
  }

  lemma FailureExtends(policy: AuthPolicy, failures: seq<nat>, t: nat)
    requires Spaced(policy, failures)
    requires failures != [] ==> failures[|failures| - 1] <= t
    requires failures != [] && |failures| >= policy.maxFailedAttempts ==>
      t >= failures[|failures| - 1] + policy.lockoutSeconds
    ensures Spaced(policy, failures + [t])
  {
  }

  lemma LastFailureIsEarlier(policy: AuthPolicy, ops: seq<AuthOp>, last: nat)
    requires ops != [] && ClockIsSane(policy, ops) && ops[|ops| - 1].LoginOp? && IsLoginTime(ops[..|ops| - 1], last)
    ensures last <= ops[|ops| - 1].login.now
  {
    var n := |ops| - 1;
    var i :| 0 <= i < n && ops[..n][i].LoginOp? && ops[..n][i].login.now == last;
    assert ops[i] == ops[..n][i];
  }

  /** Counting one more failure keeps the books: the test against the lockout makes it late enough. */
  lemma CountedStep(f: Functions, policy: AuthPolicy, r: AuthRun, ops: seq<AuthOp>)
    requires ops != [] && ClockIsSane(policy, ops) && LockoutInvariant(policy, r, ops[..|ops| - 1])
    requires var op := ops[|ops| - 1]; op.LoginOp? && Judge(f, policy, r.auth, op.login) == Counted
    requires |r.failures| + 1 < TWO_32
    ensures LockoutInvariant(policy, StepRun(f, policy, r, ops[|ops| - 1]), ops)
  {
    hide Spaced;
    var q := ops[|ops| - 1].login;
    var next := StepRun(f, policy, r, LoginOp(q));
    if r.failures != [] {
      LastFailureIsEarlier(policy, ops, r.failures[|r.failures| - 1]);
    }
    FailureExtends(policy, r.failures, q.now);
    assert next.failures == r.failures + [q.now];
    assert next.auth == AfterFailure(policy, r.auth, q.now);
    assert IsLoginTime(ops, q.now) by {
      assert ops[|ops| - 1].LoginOp?;
    }
  }

  lemma OtherStep(f: Functions, policy: AuthPolicy, r: AuthRun, ops: seq<AuthOp>)
    requires ops != [] && LockoutInvariant(policy, r, ops[..|ops| - 1])
    requires var op := ops[|ops| - 1]; !(op.LoginOp? && Judge(f, policy, r.auth, op.login) == Counted)
    ensures LockoutInvariant(policy, StepRun(f, policy, r, ops[|ops| - 1]), ops)
  {
    if r.failures != [] {
      LoginTimePersists(ops, |ops| - 1, r.failures[|r.failures| - 1]);
    }
  }

  lemma {:induction false} LockoutInvariantHolds(f: Functions, policy: AuthPolicy, ops: seq<AuthOp>)
    requires ClockIsSane(policy, ops) && FewFailures(f, policy, ops)
    ensures LockoutInvariant(policy, Run(f, policy, ops), ops)
    decreases |ops|
  {
    if ops != [] {
      var n := |ops| - 1;
      var init := ops[..n];
      assert forall m :: 0 <= m <= n ==> init[..m] == ops[..m];
      LockoutInvariantHolds(f, policy, init);
      var r := Run(f, policy, init);
      if ops[n].LoginOp? && Judge(f, policy, r.auth, ops[n].login) == Counted {
        assert ops[..n + 1] == ops;
        assert |Run(f, policy, ops[..n + 1]).failures| < TWO_32;
        CountedStep(f, policy, r, ops);
      } else {
        OtherStep(f, policy, r, ops);
      }
    }
  }

  /** The gaps add up: j - i lockouts between failures i and j. */
  lemma {:induction false} GapsAddUp(policy: AuthPolicy, failures: seq<nat>, i: nat, j: nat)
    requires Spaced(policy, failures) && policy.maxFailedAttempts - 1 <= i <= j < |failures|
    ensures failures[j] >= failures[i] + (j - i) * policy.lockoutSeconds
    decreases j
  {
    if i < j {
      GapsAddUp(policy, failures, i, j - 1);
      assert (j - i) * policy.lockoutSeconds == (j - 1 - i) * policy.lockoutSeconds + policy.lockoutSeconds;
    }
  }

  lemma {:induction false} TimesAscend(policy: AuthPolicy, failures: seq<nat>, i: nat, j: nat)
    requires Spaced(policy, failures) && i <= j < |failures|
    ensures failures[i] <= failures[j]
    decreases j
  {
    if i < j {
      TimesAscend(policy, failures, i, j - 1);
    }
  }

  lemma AtMostQuotient(k: nat, l: nat, d: nat)
    requires l > 0 && k * l <= d
    ensures k <= d / l
  {
    var q, r := d / l, d % l;
    assert d == l * q + r;
    if k > q {
      MulStep(l, q, k);
    }
  }

  /** The count is bounded by the limit plus the number of whole lockouts that went by. */
  ghost predicate WithinBound(policy: AuthPolicy, t: seq<nat>) {
    t != [] && policy.lockoutSeconds >= 1 ==>
      && t[0] <= t[|t| - 1]
      && |t| <= policy.maxFailedAttempts + (t[|t| - 1] - t[0]) / policy.lockoutSeconds
  }

  lemma SpacingBoundsCount(policy: AuthPolicy, t: seq<nat>)
    requires policy.maxFailedAttempts >= 1 && policy.lockoutSeconds >= 1 && Spaced(policy, t)
    ensures WithinBound(policy, t)
  {
    var max, n := policy.maxFailedAttempts, |t|;
    if n > max {
      TimesAscend(policy, t, 0, n - 1);
      TimesAscend(policy, t, 0, max - 1);
      GapsAddUp(policy, t, max - 1, n - 1);
      hide Spaced;
      AtMostQuotient(n - max, policy.lockoutSeconds, t[n - 1] - t[0]);
    } else if n > 0 {
      TimesAscend(policy, t, 0, n - 1);
      hide Spaced;
      AtMostQuotient(0, policy.lockoutSeconds, t[n - 1] - t[0]);
    }
  }

  /**
   However the attempts are timed, n counted failures since the last success or shutdown
   take at least n - max lockouts.
   */
  lemma LockoutBound(f: Functions, policy: AuthPolicy, ops: seq<AuthOp>)
    requires policy.maxFailedAttempts >= 1 && policy.lockoutSeconds >= 1
    requires ClockIsSane(policy, ops) && FewFailures(f, policy, ops)
    ensures WithinBound(policy, Run(f, policy, ops).failures)
  {
    LockoutInvariantHolds(f, policy, ops);
    SpacingBoundsCount(policy, Run(f, policy, ops).failures);
    hide Run, Spaced, WithinBound;
  }

  // --- Provenance of credentials ---

  ghost predicate UniqueEntries(creds: seq<Credential>) {
    forall i, j :: 0 <= i < j < |creds| ==> creds[i].role != creds[j].role || creds[i].identity != creds[j].identity
  }

  /** Entry i was added by an officer who is himself an earlier entry, or is the first officer. */
  ghost predicate ProperlyAdded(r: AuthRun, i: nat)
    requires i < |r.auth.creds| == |r.addedBy|
  {
    if i == 0 then r.auth.creds[0].role == CryptoOfficer && r.addedBy[0] == None
    else
      && r.addedBy[i].Some? && r.addedBy[i].value.0 == CryptoOfficer
      && Has(r.auth.creds[..i], CryptoOfficer, r.addedBy[i].value.1)
  }

  ghost predicate Provenance(r: AuthRun) {
    && |r.addedBy| == |r.auth.creds|
    && UniqueEntries(r.auth.creds)
    && (forall i :: 0 <= i < |r.auth.creds| ==> r.auth.creds[i].role != NoRole && ProperlyAdded(r, i))
    && (r.auth.role != NoRole ==> Has(r.auth.creds, r.auth.role, r.auth.identity))
  }

  lemma HasAppended(creds: seq<Credential>, c: Credential, role: Role, identity: string)
    requires Has(creds, role, identity)
    ensures Has(creds + [c], role, identity)
  {
    var k :| 0 <= k < |creds| && creds[k].role == role && creds[k].identity == identity;
    assert (creds + [c])[k] == creds[k];
  }

  lemma ProvisionKeepsProvenance(f: Functions, policy: AuthPolicy, r: AuthRun, q: ProvisionRequest)
    requires Provenance(r)
    ensures Provenance(StepRun(f, policy, r, ProvisionOp(q)))
  {
    if ProvisionSpec(f, policy, r.auth, q).1 {
      var next := StepRun(f, policy, r, ProvisionOp(q));
      var n := |r.auth.creds|;
      var rec := next.auth.creds[n];
      assert next.auth.creds == r.auth.creds + [rec];
      assert next.auth.creds[..n] == r.auth.creds;
      if n > 0 {
        assert r.auth.creds[0].role == CryptoOfficer by {
          assert ProperlyAdded(r, 0);
        }
        assert HasRole(r.auth.creds, CryptoOfficer);
      }
      if r.auth.role != NoRole {
        HasAppended(r.auth.creds, rec, r.auth.role, r.auth.identity);
      }
      forall i | 0 <= i < n + 1 ensures next.auth.creds[i].role != NoRole && ProperlyAdded(next, i) {
        if i < n {
          assert next.auth.creds[..i] == r.auth.creds[..i];
          assert ProperlyAdded(r, i);
        }
      }
    }
  }

  lemma LoginKeepsProvenance(f: Functions, policy: AuthPolicy, r: AuthRun, q: LoginRequest)
    requires Provenance(r)
    ensures Provenance(StepRun(f, policy, r, LoginOp(q)))
  {
    var next := StepRun(f, policy, r, LoginOp(q));
    assert next.auth.creds == r.auth.creds;
    forall i | 0 <= i < |r.auth.creds| ensures ProperlyAdded(next, i) {
      assert ProperlyAdded(r, i);
    }
  }

  /**
   In every reachable state entries are unique, the table starts with a Crypto Officer, every
   later entry was added by a Crypto Officer provisioned before it, and whoever is logged in
   is in the table.
   */
  lemma {:induction false} ProvenanceHolds(f: Functions, policy: AuthPolicy, ops: seq<AuthOp>)
    ensures Provenance(Run(f, policy, ops))
    decreases |ops|
  {
    if ops != [] {
      var n := |ops| - 1;
      var r := Run(f, policy, ops[..n]);
      ProvenanceHolds(f, policy, ops[..n]);
      match ops[n]
      case ProvisionOp(q) => ProvisionKeepsProvenance(f, policy, r, q);
      case LoginOp(q) => LoginKeepsProvenance(f, policy, r, q);
      case ShutdownOp =>
      case _ =>
        forall i | 0 <= i < |r.auth.creds| ensures ProperlyAdded(StepRun(f, policy, r, ops[n]), i) {
          assert ProperlyAdded(r, i);
        }
    }
  }
}
