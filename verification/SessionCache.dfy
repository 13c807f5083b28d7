/** The freshness checks on KEY_INIT: its timestamp, and the cache of session ids in use. */
module SessionCache {
  import opened Bytes
  import opened Collections
  import opened Wrappers
  import opened Protocol

  const SESSION_TTL_MS: nat := 300_000
  const MAX_SESSIONS: nat := 10_000
  const MAX_FUTURE_SKEW_MS: nat := 30_000
  const MAX_AGE_MS: nat := 300_000

  datatype FreshnessError = FromTheFuture | TooOld | Incomplete | BadSessionId | TooManySessions | SessionReused

  type Sessions = map<seq<byte>, nat>

  // --- What the check means ---

  function TimestampError(timestamp: nat, now: nat): Option<FreshnessError> {
    if timestamp == 0 then None
    else if timestamp > U64(now + MAX_FUTURE_SKEW_MS) then Some(FromTheFuture)
    else if now >= timestamp && now - timestamp > MAX_AGE_MS then Some(TooOld)
    else None
  }

  predicate Expired(since: nat, now: nat) {
    U64(since + SESSION_TTL_MS) < now
  }

  function Live(used: Sessions, now: nat): Sessions {
    map id | id in used && !Expired(used[id], now) :: used[id]
  }

  function CheckSpec(used: Sessions, init: KeyInit, now: nat): (Sessions, Result<(), FreshnessError>) {
    if TimestampError(init.timestamp, now).Some? then (used, Err(TimestampError(init.timestamp, now).value))
    else if init.sessionId == [] || init.contextHash == [] then (used, Err(Incomplete))
    else if |init.sessionId| < 16 || |init.sessionId| > 128 then (used, Err(BadSessionId))
    else
      var live := Live(used, now);
      if |live| >= MAX_SESSIONS then (live, Err(TooManySessions))
      else if init.sessionId in live then (live, Err(SessionReused))
      else (live[init.sessionId := now], Ok(()))
  }

  // --- The class ---

  class SessionCache {
    var usedSessions: Sessions

    constructor ()
      ensures usedSessions == map[]
    {
      usedSessions := map[];
    }

    /** Visits the entries in some order and erases the expired ones. */
    method PruneExpired(now: nat)
      modifies this
      ensures usedSessions == Live(old(usedSessions), now)
    {
      var pending := usedSessions.Keys;
      while pending != {}
        invariant pending <= usedSessions.Keys <= old(usedSessions).Keys
        invariant forall id :: id in usedSessions ==> usedSessions[id] == old(usedSessions)[id]
        invariant forall id :: id in old(usedSessions) && id !in pending ==>
          (id in usedSessions <==> !Expired(old(usedSessions)[id], now))
        decreases pending
      {
        var id := Choose(pending);
        if U64(usedSessions[id] + SESSION_TTL_MS) < now {
          usedSessions := usedSessions - {id};
        }
        pending := pending - {id};
      }
    }

    method CheckFreshness(init: KeyInit, now: nat) returns (r: Result<(), FreshnessError>)
      modifies this
      ensures (usedSessions, r) == CheckSpec(old(usedSessions), init, now)
    {
      if init.timestamp != 0 {
        if init.timestamp > U64(now + MAX_FUTURE_SKEW_MS) {
          return Err(FromTheFuture);
        }
        if now >= init.timestamp && now - init.timestamp > MAX_AGE_MS {
          return Err(TooOld);
        }
      }
      if init.sessionId == [] || init.contextHash == [] {
        return Err(Incomplete);
      }
      if |init.sessionId| < 16 || |init.sessionId| > 128 {
        return Err(BadSessionId);
      }
      PruneExpired(now);
      if |usedSessions| >= MAX_SESSIONS {
        PruneExpired(now);
        PruningAgainChangesNothing(old(usedSessions), now);
        if |usedSessions| >= MAX_SESSIONS {
          return Err(TooManySessions);
        }
      }
      if init.sessionId in usedSessions {
        return Err(SessionReused);
      }
      usedSessions := usedSessions[init.sessionId := now];
      return Ok(());
    }
  }

  lemma PruningAgainChangesNothing(used: Sessions, now: nat)
    ensures Live(Live(used, now), now) == Live(used, now)
  {
  }

  // --- Runs of checks ---

  datatype Attempt = Attempt(init: KeyInit, now: nat)

  function Cache(attempts: seq<Attempt>): Sessions {
    if attempts == [] then map[]
    else CheckSpec(Cache(attempts[..|attempts| - 1]), attempts[|attempts| - 1].init, attempts[|attempts| - 1].now).0
  }

  /** Attempt i is let through. */
  predicate Passes(attempts: seq<Attempt>, i: nat)
    requires i < |attempts|
  {
    CheckSpec(Cache(attempts[..i]), attempts[i].init, attempts[i].now).1.Ok?
  }

  /** Time does not run backwards and stays clear of the end of the 64-bit clock. */
  ghost predicate ClockIsSane(attempts: seq<Attempt>) {
    && (forall i :: 0 <= i < |attempts| ==> attempts[i].now + SESSION_TTL_MS < TWO_64)
    && forall i, j :: 0 <= i <= j < |attempts| ==> attempts[i].now <= attempts[j].now
  }

  lemma LiveIsSmaller(used: Sessions, now: nat)
    ensures |Live(used, now)| <= |used|
  {
    var live := Live(used, now);
    SubsetSize(live.Keys, used.Keys);
  }

  /** The cache never exceeds its bound, whatever the clock does. */
  lemma {:induction false} CacheIsBounded(attempts: seq<Attempt>)
    ensures |Cache(attempts)| <= MAX_SESSIONS
  {
    if attempts != [] {
      var n := |attempts| - 1;
      CacheIsBounded(attempts[..n]);
      LiveIsSmaller(Cache(attempts[..n]), attempts[n].now);
    }
  }

  /** Every entry was made at the time of some attempt. */
  lemma {:induction false} EntriesAreOld(attempts: seq<Attempt>, id: seq<byte>)
    requires ClockIsSane(attempts) && id in Cache(attempts)
    ensures attempts != [] && Cache(attempts)[id] <= attempts[|attempts| - 1].now
    decreases |attempts|
  {
    var n := |attempts| - 1;
    if id in Cache(attempts[..n]) && Cache(attempts)[id] == Cache(attempts[..n])[id] {
      EntriesAreOld(attempts[..n], id);
    }
  }

  lemma KeptOneStep(used: Sessions, init: KeyInit, now: nat, id: seq<byte>, since: nat)
    requires id in used && used[id] == since && since + SESSION_TTL_MS < TWO_64
    ensures var c := CheckSpec(used, init, now).0; (id in c && c[id] == since) || now > since + SESSION_TTL_MS
  {
  }

  /** After a pass the id stays in the cache until more than the TTL has gone by. */
  lemma {:induction false} KnownUntilExpired(attempts: seq<Attempt>, i: nat)
    requires ClockIsSane(attempts) && i < |attempts| && Passes(attempts, i)
    ensures var id, since, c := attempts[i].init.sessionId, attempts[i].now, Cache(attempts);
      (id in c && c[id] == since) || attempts[|attempts| - 1].now > since + SESSION_TTL_MS
    decreases |attempts|
  {
    var n := |attempts| - 1;
    if i < n {
      assert attempts[..n][..i] == attempts[..i];
      KnownUntilExpired(attempts[..n], i);
      assert attempts[n - 1].now <= attempts[n].now;
      var id, since, used := attempts[i].init.sessionId, attempts[i].now, Cache(attempts[..n]);
      if id in used && used[id] == since {
        KeptOneStep(used, attempts[n].init, attempts[n].now, id, since);
      }
    }
  }

  /** The same session id passes twice only more than 300000 ms apart. */
  lemma ReuseOnlyAfterTtl(attempts: seq<Attempt>, i: nat, j: nat)
    requires ClockIsSane(attempts) && i < j < |attempts| && Passes(attempts, i) && Passes(attempts, j)
    requires attempts[i].init.sessionId == attempts[j].init.sessionId
    ensures attempts[j].now > attempts[i].now + SESSION_TTL_MS
  {
    var before := attempts[..j];
    assert before[..i] == attempts[..i];
    KnownUntilExpired(before, i);
    assert attempts[j - 1].now <= attempts[j].now;
  }

  /** A KEY_INIT with a timestamp not later than the clock at its first pass never passes again. */
  lemma DatedKeyInitPassesOnce(attempts: seq<Attempt>, i: nat, j: nat)
    requires ClockIsSane(attempts) && i < j < |attempts| && attempts[i].init == attempts[j].init
    requires Passes(attempts, i) && 0 < attempts[i].init.timestamp <= attempts[i].now
    ensures !Passes(attempts, j)
  {
    if Passes(attempts, j) {
      ReuseOnlyAfterTtl(attempts, i, j);
    }
  }

  // --- Exactly who passes ---

  /** Attempt i passed, and not more than five minutes before `now`. */
  predicate PassedLately(attempts: seq<Attempt>, i: nat, now: nat)
    requires i < |attempts|
  {
    Passes(attempts, i) && now <= attempts[i].now + 300_000
  }

  /** The session ids of the attempts that passed lately. */
  ghost function LateIds(attempts: seq<Attempt>, now: nat): set<seq<byte>> {
    set i: nat | i < |attempts| && PassedLately(attempts, i, now) :: attempts[i].init.sessionId
  }

  /** Every entry stems from a pass. */
  lemma {:induction false} EntryFromPass(attempts: seq<Attempt>, id: seq<byte>) returns (i: nat)
    requires id in Cache(attempts)
    ensures i < |attempts| && Passes(attempts, i)
    ensures attempts[i].init.sessionId == id && attempts[i].now == Cache(attempts)[id]
    decreases |attempts|
  {
    var n := |attempts| - 1;
    if id in Cache(attempts[..n]) && Cache(attempts)[id] == Cache(attempts[..n])[id] {
      i := EntryFromPass(attempts[..n], id);
      assert attempts[..n][..i] == attempts[..i];
    } else {
      i := n;
    }
  }

  /** What is left of the cache are the ids that passed lately. */
  lemma LiveIsLate(attempts: seq<Attempt>, now: nat)
    requires ClockIsSane(attempts) && now + SESSION_TTL_MS < TWO_64
    requires forall i :: 0 <= i < |attempts| ==> attempts[i].now <= now
    ensures Live(Cache(attempts), now).Keys == LateIds(attempts, now)
  {
    hide CheckSpec, Passes, Cache;
    var live, late := Live(Cache(attempts), now).Keys, LateIds(attempts, now);
    forall id | id in live ensures id in late {
      var i := EntryFromPass(attempts, id);
      assert PassedLately(attempts, i, now);
    }
    forall id | id in late ensures id in live {
      var i: nat :| i < |attempts| && PassedLately(attempts, i, now) && attempts[i].init.sessionId == id;
      KnownUntilExpired(attempts, i);
      assert attempts[|attempts| - 1].now <= now;
    }
  }

  /**
   Exactly when a KEY_INIT passes: its timestamp is absent, or at most 30 seconds ahead and five
   minutes old; its id has 16 to 128 bytes and did not pass in the last five minutes; and fewer
   than 10000 ids did.
   */
  lemma PassesExactly(attempts: seq<Attempt>)
    requires ClockIsSane(attempts) && attempts != []
    ensures var n := |attempts| - 1;
      var before, Attempt(init, now) := attempts[..n], attempts[n];
      Passes(attempts, n) <==>
        && (init.timestamp == 0 || (init.timestamp <= now + 30_000 && now <= init.timestamp + 300_000))
        && 16 <= |init.sessionId| <= 128 && init.contextHash != []
        && init.sessionId !in LateIds(before, now) && |LateIds(before, now)| < 10_000
  {
    var n := |attempts| - 1;
    LiveIsLate(attempts[..n], attempts[n].now);
    var live := Live(Cache(attempts[..n]), attempts[n].now);
    assert |live| == |live.Keys|;
    hide LateIds, Live, Cache;
  }

  /** The last message comes once more, at a later time, and is let through. */
  ghost predicate PassesOnceMore(attempts: seq<Attempt>, later: nat) {
    && attempts != [] && later >= attempts[|attempts| - 1].now && later + SESSION_TTL_MS < TWO_64
    && Passes(attempts + [Attempt(attempts[|attempts| - 1].init, later)], |attempts|)
  }

  lemma WholeCacheExpires(attempts: seq<Attempt>, later: nat)
    requires ClockIsSane(attempts) && attempts != [] && later > attempts[|attempts| - 1].now + SESSION_TTL_MS
    ensures Live(Cache(attempts), later) == map[]
  {
    forall id | id in Cache(attempts) ensures Expired(Cache(attempts)[id], later) {
      EntriesAreOld(attempts, id);
    }
  }

  /**
   A message that has just passed can pass again at some later time exactly when its timestamp
   is absent or lies ahead of the clock.
   */
  lemma PassesAgainIffUndatedOrAhead(attempts: seq<Attempt>)
    requires ClockIsSane(attempts) && attempts != [] && Passes(attempts, |attempts| - 1)
    requires attempts[|attempts| - 1].now + 2 * SESSION_TTL_MS + 1 < TWO_64
    ensures (exists later :: PassesOnceMore(attempts, later)) <==>
      attempts[|attempts| - 1].init.timestamp == 0 ||
      attempts[|attempts| - 1].init.timestamp > attempts[|attempts| - 1].now
  {
    var n := |attempts| - 1;
    var init, now := attempts[n].init, attempts[n].now;
    if init.timestamp == 0 || init.timestamp > now {
      var later := now + SESSION_TTL_MS + 1;
      var more := attempts + [Attempt(init, later)];
      assert more[..n + 1] == attempts;
      WholeCacheExpires(attempts, later);
      assert PassesOnceMore(attempts, later);
    } else {
      forall later ensures !PassesOnceMore(attempts, later) {
        var more := attempts + [Attempt(init, later)];
        assert more[..n + 1] == attempts;
        assert more[..n] == attempts[..n];
      }
    }
  }
}
