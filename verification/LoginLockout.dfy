// Login lockout: the `login_attempts` operations of net-guardia/src/adapter/persistence/user.rs
// and their sequence in `AuthService::login` (net-guardia/src/core/identity/auth_service.rs).
// Each database operation reads the clock for itself and may fail. Clock readings stay below
// 2^62 seconds, so neither saturation nor the i64 conversion plays a part.

module LoginLockout {
  import opened Basics

  const LOGIN_MAX_FAILURES: nat := 5
  const LOGIN_LOCKOUT_SECS: nat := 900

  type Time = x: int | 0 <= x < 0x4000_0000_0000_0000

  type User = string

  datatype Attempts = Attempts(failures: nat, lockedUntil: Option<int>)

  type Table = map<User, Attempts>

  function Find(t: Table, u: User): (row: Option<Attempts>) {
    if u in t then Some(t[u]) else None
  }

  function LockedAt(row: Option<Attempts>, now: Time): (remaining: Option<int>) {
    if row.Some? && row.value.lockedUntil.Some? && now < row.value.lockedUntil.value
    then Some(row.value.lockedUntil.value - now) else None
  }

  function WithFailure(row: Option<Attempts>, now: Time): (r: Attempts) {
    var count := (if row.Some? then row.value.failures else 0) + 1;
    Attempts(count, if count >= LOGIN_MAX_FAILURES then Some(now + LOGIN_LOCKOUT_SECS) else None)
  }

  predicate LockExpired(row: Option<Attempts>, now: Time) {
    row.Some? && row.value.lockedUntil.Some? && row.value.lockedUntil.value <= now
  }

  /** Which database operations of one attempt fail. */
  datatype Faults = Faults(lookup: bool, clearExpired: bool, record: bool, clear: bool, profile: bool)

  /** One attempt; the three times are the clock readings of the lookup, of the expiry check and of
      the last operation. `valid` says the user exists and the password verifies. */
  datatype Attempt = Attempt(user: User, valid: bool, t1: Time, t2: Time, t3: Time, faults: Faults)

  datatype Outcome = Locked(remaining: int) | InternalError | InvalidCredentials | LoggedIn

  class AuthStore {
    var table: Table

    constructor ()
      ensures table == map[]
    {
      table := map[];
    }

    method GetRemainingLockSecs(u: User, now: Time) returns (r: Option<int>)
      ensures r == LockedAt(Find(table, u), now)
    {
      if u in table && table[u].lockedUntil.Some? {
        var until := table[u].lockedUntil.value;
        if now < until { return Some(until - now); }
      }
      return None;
    }

    method ClearExpiredLoginLock(u: User, now: Time)
      modifies this
      ensures table == if LockExpired(Find(old(table), u), now) then old(table) - {u} else old(table)
      ensures u in old(table) && u !in table <==>
              u in old(table) && old(table)[u].lockedUntil.Some? && old(table)[u].lockedUntil.value <= now
    {
      if u in table && table[u].lockedUntil.Some? && table[u].lockedUntil.value <= now {
        table := table - {u};
      }
    }

    method RecordLoginFailure(u: User, now: Time)
      modifies this
      ensures table == old(table)[u := WithFailure(Find(old(table), u), now)]
      ensures table[u].failures == (if u in old(table) then old(table)[u].failures else 0) + 1
      ensures table[u].lockedUntil == if table[u].failures < 5 then None else Some(now + 900)
    {
      var current := if u in table then table[u].failures else 0;
      var count := current + 1;
      var until := if count >= LOGIN_MAX_FAILURES then Some(now + LOGIN_LOCKOUT_SECS) else None;
      table := table[u := Attempts(count, until)];
    }

    method ClearLoginFailures(u: User)
      modifies this
      ensures table == old(table) - {u}
    {
      table := table - {u};
    }

    /** A right password, and only that, logs in; a wrong one is told so; a lock answers first. */
    method Login(a: Attempt) returns (outcome: Outcome)
      modifies this
      ensures (table, outcome) == Tried(old(table), a)
      ensures outcome == LoggedIn <==>
              a.valid && !LocksOut(old(table), a) && !a.faults.lookup && !a.faults.clearExpired && !a.faults.profile
      ensures outcome == InvalidCredentials <==>
              !a.valid && !LocksOut(old(table), a) && !a.faults.lookup && !a.faults.clearExpired
      ensures outcome.Locked? <==> LocksOut(old(table), a) && !a.faults.lookup
      ensures outcome.Locked? ==> a.t1 + outcome.remaining == old(table)[a.user].lockedUntil.value
    {
      if a.faults.lookup { return InternalError; }
      var remaining := GetRemainingLockSecs(a.user, a.t1);
      if remaining.Some? { return Locked(remaining.value); }
      if a.faults.clearExpired { return InternalError; }
      ClearExpiredLoginLock(a.user, a.t2);
      if !a.valid {
        if !a.faults.record { RecordLoginFailure(a.user, a.t3); }
        return InvalidCredentials;
      }
      if !a.faults.clear { ClearLoginFailures(a.user); }
      if a.faults.profile { return InternalError; }
      return LoggedIn;
    }
  }

  /** The user has a lock that has not expired when the attempt begins. */
  predicate LocksOut(t: Table, a: Attempt) {
    a.user in t && t[a.user].lockedUntil.Some? && a.t1 < t[a.user].lockedUntil.value
  }

  function Unlocked(t: Table, a: Attempt): (r: Table) {
    if LockExpired(Find(t, a.user), a.t2) then t - {a.user} else t
  }

  predicate Turned(t: Table, a: Attempt) {
    a.faults.lookup || a.faults.clearExpired || LockedAt(Find(t, a.user), a.t1).Some?
  }

  function Tried(t: Table, a: Attempt): (r: (Table, Outcome)) {
    if a.faults.lookup then (t, InternalError)
    else if LockedAt(Find(t, a.user), a.t1).Some? then (t, Locked(LockedAt(Find(t, a.user), a.t1).value))
    else if a.faults.clearExpired then (t, InternalError)
    else
      var open := Unlocked(t, a);
      if !a.valid then
        (if a.faults.record then open else open[a.user := WithFailure(Find(open, a.user), a.t3)], InvalidCredentials)
      else
        (if a.faults.clear then open else open - {a.user}, if a.faults.profile then InternalError else LoggedIn)
  }

  predicate Records(t: Table, a: Attempt) {
    !Turned(t, a) && !a.valid && !a.faults.record
  }

  /** The attempt's password is accepted and its failures are forgotten. */
  predicate Forgets(t: Table, a: Attempt) {
    !Turned(t, a) && a.valid && !a.faults.clear
  }

  // ----- runs -----

  predicate Ordered(attempts: seq<Attempt>, clock: Time) {
    attempts != [] ==>
      clock <= attempts[0].t1 <= attempts[0].t2 <= attempts[0].t3 && Ordered(attempts[1..], attempts[0].t3)
  }

  function Run(t: Table, attempts: seq<Attempt>): (r: Table)
    decreases |attempts|
  {
    if attempts == [] then t else Run(Tried(t, attempts[0]).0, attempts[1..])
  }

  predicate During(at: Time, from: Time) {
    from <= at < from + LOGIN_LOCKOUT_SECS
  }

  /** Failures recorded for `u` during the lockout interval that starts at `from`. */
  function Failures(t: Table, attempts: seq<Attempt>, u: User, from: Time): (n: nat)
    decreases |attempts|
  {
    if attempts == [] then 0
    else
      var a := attempts[0];
      (if a.user == u && Records(t, a) && During(a.t3, from) then 1 else 0)
      + Failures(Tried(t, a).0, attempts[1..], u, from)
  }

  /** No accepted password wipes the user's failures during the interval. */
  predicate NoneForgotten(t: Table, attempts: seq<Attempt>, u: User, from: Time)
    decreases |attempts|
  {
    attempts != [] ==>
      && !(attempts[0].user == u && Forgets(t, attempts[0]) && During(attempts[0].t3, from))
      && NoneForgotten(Tried(t, attempts[0]).0, attempts[1..], u, from)
  }

  /** What `n` failures in the interval say about the user's row at time `clock`. */
  predicate Explained(row: Option<Attempts>, n: nat, from: Time, clock: Time) {
    && n <= LOGIN_MAX_FAILURES
    && (clock < from ==> n == 0)
    && (row.Some? && row.value.lockedUntil.None? ==> row.value.failures < LOGIN_MAX_FAILURES)
    && (clock < from + LOGIN_LOCKOUT_SECS ==>
          if row.None? then n == 0
          else if row.value.lockedUntil.None? then n <= row.value.failures
          else n == 0 || row.value.lockedUntil.value >= from + LOGIN_LOCKOUT_SECS)
  }

  lemma AttemptExplained(t: Table, a: Attempt, n: nat, from: Time, clock: Time)
    requires Explained(Find(t, a.user), n, from, clock) && clock <= a.t1 <= a.t2 <= a.t3
    requires !(Forgets(t, a) && During(a.t3, from))
    ensures Explained(Find(Tried(t, a).0, a.user), n + (if Records(t, a) && During(a.t3, from) then 1 else 0), from, a.t3)
  {
    if !Turned(t, a) {
      var row := Find(Unlocked(t, a), a.user);
      assert row.None? || row.value.lockedUntil.None?;
      assert Explained(row, n, from, a.t2);
    }
  }

  /** Any lockout-long interval in which no accepted password wipes the count records at most
      LOGIN_MAX_FAILURES failures, whichever database operations fail. */
  lemma {:induction false} FailuresAreBounded(t: Table, attempts: seq<Attempt>, u: User, from: Time, clock: Time, n: nat)
    requires Ordered(attempts, clock) && NoneForgotten(t, attempts, u, from)
    requires Explained(Find(t, u), n, from, clock)
    ensures n + Failures(t, attempts, u, from) <= LOGIN_MAX_FAILURES
    decreases |attempts|
  {
    if attempts != [] {
      var a := attempts[0];
      if a.user == u {
        AttemptExplained(t, a, n, from, clock);
        FailuresAreBounded(Tried(t, a).0, attempts[1..], u, from, a.t3,
                           n + if Records(t, a) && During(a.t3, from) then 1 else 0);
      } else {
        assert Find(Tried(t, a).0, u) == Find(t, u);
        FailuresAreBounded(Tried(t, a).0, attempts[1..], u, from, a.t3, n);
      }
    }
  }

  lemma LockoutBound(attempts: seq<Attempt>, u: User, from: Time)
    requires Ordered(attempts, 0) && NoneForgotten(map[], attempts, u, from)
    ensures Failures(map[], attempts, u, from) <= LOGIN_MAX_FAILURES
  {
    FailuresAreBounded(map[], attempts, u, from, 0, 0);
  }

  /** Until a lock expires the row stays as it is and every attempt is turned away. */
  lemma {:induction false} NoLoginWhileLocked(t: Table, attempts: seq<Attempt>, u: User, i: nat)
    requires u in t && t[u].lockedUntil.Some? && i < |attempts| && attempts[i].user == u
    requires forall k :: 0 <= k <= i ==> attempts[k].t1 < t[u].lockedUntil.value
    ensures var before := Run(t, attempts[..i]);
            && Find(before, u) == Some(t[u])
            && (Tried(before, attempts[i]).1.Locked? || Tried(before, attempts[i]).1.InternalError?)
            && Tried(before, attempts[i]).0 == before
    decreases |attempts|
  {
    if i > 0 {
      var a := attempts[0];
      var t' := Tried(t, a).0;
      assert Find(t', u) == Find(t, u);
      NoLoginWhileLocked(t', attempts[1..], u, i - 1);
      assert attempts[..i][1..] == attempts[1..][..i - 1] && attempts[1..][i - 1] == attempts[i];
    }
  }

  // ----- every answer follows from the history of attempts -----

  /** Enough failures in a row, the last of them less than the lockout ago. */
  predicate StreakLocks(streak: seq<int>, now: Time) {
    |streak| >= 5 && now < streak[|streak| - 1] + 900
  }

  /** When the failures of `u` were recorded that count against it after these attempts: those since
      its last accepted password or expired lock. Attempts turned away, and operations the database
      failed, leave no trace. */
  function Streak(attempts: seq<Attempt>, u: User): (streak: seq<int>) {
    if attempts == [] then []
    else
      var before, a := Streak(attempts[..|attempts| - 1], u), attempts[|attempts| - 1];
      if a.user != u || a.faults.lookup || StreakLocks(before, a.t1) || a.faults.clearExpired then before
      else
        var live := if |before| >= 5 && before[|before| - 1] + 900 <= a.t2 then [] else before;
        if a.valid then (if a.faults.clear then live else [])
        else if a.faults.record then live
        else live + [a.t3]
  }

  /** The row of a user is its streak: so many failures, and a lock from the last on if enough. */
  predicate RowIs(row: Option<Attempts>, streak: seq<int>) {
    && (row.None? <==> streak == [])
    && (row.Some? ==>
          && row.value.failures == |streak|
          && row.value.lockedUntil == if |streak| >= 5 then Some(streak[|streak| - 1] + 900) else None)
  }

  lemma RowIsStep(t: Table, before: seq<Attempt>, a: Attempt, u: User)
    requires RowIs(Find(t, u), Streak(before, u))
    ensures RowIs(Find(Tried(t, a).0, u), Streak(before + [a], u))
  {
    assert (before + [a])[..|before|] == before;
  }

  lemma {:induction false} RunAppend(t: Table, attempts: seq<Attempt>, a: Attempt)
    ensures Run(t, attempts + [a]) == Tried(Run(t, attempts), a).0
    decreases |attempts|
  {
    if attempts == [] {
      assert [] + [a] == [a] && [a][1..] == [];
    } else {
      assert (attempts + [a])[1..] == attempts[1..] + [a];
      RunAppend(Tried(t, attempts[0]).0, attempts[1..], a);
    }
  }

  lemma {:induction false} RowsAreStreaks(attempts: seq<Attempt>, u: User)
    ensures RowIs(Find(Run(map[], attempts), u), Streak(attempts, u))
    decreases |attempts|
  {
    if attempts != [] {
      var before, a := attempts[..|attempts| - 1], attempts[|attempts| - 1];
      assert attempts == before + [a];
      RowsAreStreaks(before, u);
      RunAppend(map[], before, a);
      RowIsStep(Run(map[], before), before, a, u);
    }
  }

  /** After every history: an attempt is told how long it is locked out exactly when five recorded
      failures stand against the user and the last is less than 900 seconds old; otherwise, and if
      the database answers, a right password logs in and a wrong one is refused. */
  lemma AnswersFollowHistory(attempts: seq<Attempt>, a: Attempt)
    ensures var outcome, streak := Tried(Run(map[], attempts), a).1, Streak(attempts, a.user);
            var heard := !a.faults.lookup && !StreakLocks(streak, a.t1) && !a.faults.clearExpired;
            && (outcome.Locked? <==> !a.faults.lookup && StreakLocks(streak, a.t1))
            && (outcome.Locked? ==> outcome.remaining == streak[|streak| - 1] + 900 - a.t1)
            && (outcome == LoggedIn <==> heard && a.valid && !a.faults.profile)
            && (outcome == InvalidCredentials <==> heard && !a.valid)
            && (|streak| < 5 ==> !outcome.Locked?)
  {
    RowsAreStreaks(attempts, a.user);
  }
}
