/** How fast guesses can fail when requests are handled one at a time. */
module SerialRate {
  import opened Types
  import opened Handlers
  import opened Serial

  /** The call records a failed guess at `u`. */
  predicate Fails(env: Env, db: Db, call: Call, u: UserId) {
    && call.req.user == u
    && Validate(call.req).None?
    && Decide(env, call.req, call.t, Lookup(db, u), db.codes, call.t) == Proceed(FailureWrite(u, call.t))
  }

  function After(env: Env, db: Db, call: Call): Db {
    Handle(env, db, call.req, call.t).db
  }

  function Failures(env: Env, db: Db, calls: seq<Call>, u: UserId): nat
    decreases |calls|
  {
    if calls == [] then 0
    else (if Fails(env, db, calls[0], u) then 1 else 0) + Failures(env, After(env, db, calls[0]), calls[1..], u)
  }

  /** No request of `u` succeeds along the way. */
  predicate Unsuccessful(env: Env, db: Db, calls: seq<Call>, u: UserId)
    decreases |calls|
  {
    calls == [] ||
    (&& (calls[0].req.user == u ==> Handle(env, db, calls[0].req, calls[0].t).outcome.Failure?)
     && Unsuccessful(env, After(env, db, calls[0]), calls[1..], u))
  }

  predicate Within(calls: seq<Call>, from: Time, to: Time) {
    calls == [] || (from <= calls[0].t <= to && Within(calls[1..], calls[0].t, to))
  }

  /** What is left of the allowance between `from` and `to`: up to the fifth failure freely, then one per lockout. */
  function Allowed(row: Row, from: Time, to: Time): int {
    if row.failedAttempts < MAX_FAILED_ATTEMPTS then
      MAX_FAILED_ATTEMPTS - row.failedAttempts + (to - from) / LOCKOUT_DURATION
    else
      var open := if row.lockedUntil.Some? && row.lockedUntil.value > from then row.lockedUntil.value else from;
      if open > to then 0 else 1 + (to - open) / LOCKOUT_DURATION
  }

  /** An unsuccessful call either leaves `u`'s record alone or records a failure that the lock let through. */
  lemma UnsuccessfulCall(env: Env, db: Db, call: Call, u: UserId)
    requires SerialOk(env, db) && u in db.records
    requires call.req.user == u ==> Handle(env, db, call.req, call.t).outcome.Failure?
    ensures Lookup(After(env, db, call), u) ==
            if Fails(env, db, call, u) then RowAfter(FailureWrite(u, call.t), Lookup(db, u)) else Lookup(db, u)
    ensures Fails(env, db, call, u) ==> !db.records[u].IsLocked(call.t)
  {
    if call.req.user != u {
      OthersUntouched(env, db, call.req, call.t, u);
    } else {
      assert UserOk(env, db, u);
      DecideFits(env, db, call.req, call.t);
      var d := Decide(env, call.req, call.t, Lookup(db, u), db.codes, call.t);
      if Validate(call.req).None? && d.Proceed? {
        FitsCommits(env, db, d.write);
      }
    }
  }

  lemma AllowedShrinks(row: Row, from: Time, t: Time, to: Time)
    requires from <= t <= to && row.failedAttempts >= 0
    ensures 0 <= Allowed(row, t, to) <= Allowed(row, from, to)
  {
  }

  lemma AllowedSpent(row: Row, from: Time, t: Time, to: Time)
    requires from <= t <= to && row.failedAttempts >= 0 && !row.IsLocked(t)
    ensures 1 + Allowed(RowAfter(FailureWrite("", t), Some(row)).value, t, to) <= Allowed(row, from, to)
  {
  }

  lemma {:induction false} FailuresAllowed(env: Env, db: Db, calls: seq<Call>, u: UserId, from: Time, to: Time)
    requires SerialOk(env, db) && u in db.records && from <= to
    requires Within(calls, from, to) && Unsuccessful(env, db, calls, u)
    ensures 0 <= Failures(env, db, calls, u) <= Allowed(db.records[u], from, to)
    decreases |calls|
  {
    assert UserOk(env, db, u);
    AllowedShrinks(db.records[u], from, from, to);
    if calls == [] {
    } else {
      var (call, row) := (calls[0], db.records[u]);
      UnsuccessfulCall(env, db, call, u);
      HandleOk(env, db, call.req, call.t);
      assert Lookup(After(env, db, call), u).Some?;
      FailuresAllowed(env, After(env, db, call), calls[1..], u, call.t, to);
      if Fails(env, db, call, u) {
        AllowedSpent(row, from, call.t, to);
      } else {
        AllowedShrinks(row, from, call.t, to);
      }
    }
  }

  function AtLeastOne(n: int): int { if n >= 1 then n else 1 }

  lemma AllowedAtMost(row: Row, from: Time, to: Time)
    requires from <= to && row.failedAttempts >= 0
    ensures Allowed(row, from, to) <=
            AtLeastOne(MAX_FAILED_ATTEMPTS - row.failedAttempts) + (to - from) / LOCKOUT_DURATION
  {
  }

  /**
   * From any state a serial run reaches, with the counter at `c`, the failures recorded before the next success
   * within a time `to - from` number at most `max(1, 5 - c) + (to - from) / LOCKOUT_DURATION`.
   */
  lemma {:induction false} SerialGuessRate(env: Env, db: Db, calls: seq<Call>, u: UserId, from: Time, to: Time)
    requires Reached(env, db) && u in db.records && from <= to
    requires Within(calls, from, to) && Unsuccessful(env, db, calls, u)
    ensures Failures(env, db, calls, u) <=
            AtLeastOne(5 - db.records[u].failedAttempts) + (to - from) / 900_000_000
  {
    ReachedOk(env, db);
    assert UserOk(env, db, u);
    FailuresAllowed(env, db, calls, u, from, to);
    AllowedAtMost(db.records[u], from, to);
  }
}
