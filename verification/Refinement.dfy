/**
 * The tables of one user as an account that is idle, pending or active. Every handler does to the tables what a
 * handful of lines do to the account.
 */
module Refinement {
  import opened Types
  import opened Crypto
  import opened Tables
  import opened Handlers
  import opened Lifecycle
  import opened Serial
  import Totp

  /** Failures since the last success: fewer than five, or enough to lock for 15 minutes from the latest. */
  datatype Guard = Counting(fails: nat) | Tripped(fails: nat, latest: Time)
  {
    predicate Locked(now: Time) {
      Tripped? && now < latest + LOCKOUT_DURATION
    }

    function Failed(now: Time): Guard {
      if fails + 1 >= MAX_FAILED_ATTEMPTS then Tripped(fails + 1, now) else Counting(fails + 1)
    }
  }

  /** A secret and its ten backup codes, normalised. */
  datatype Enrolment = Enrolment(secret: string, codes: seq<string>)

  datatype Account =
    | Absent
    | Idle
    | Pending(enrolment: Enrolment, guard: Guard)
    | Active(enrolment: Enrolment, guard: Guard)

  datatype Answered = Answered(account: Account, outcome: Outcome)

  // ---------- the account machine ----------

  predicate HasSecret(a: Account) { a.Pending? || a.Active? }

  function AccountEnable(env: Env, a: Account, req: Request): Answered
    requires req.Enable?
  {
    var codes := GenerateBackupCodes(req.draws);
    if a.Active? then Answered(a, Failure(AlreadyEnabled))
    else if !req.draws.cryptoOk || !env.builds(req.draws.secret, Issuer(req.issuer), req.email) then Answered(a, Failure(Internal))
    else Answered(Pending(Enrolment(req.draws.secret, NormalizeAll(codes)), Counting(0)),
                  Success(Enrolled(req.draws.secret, codes)))
  }

  function AccountDisable(env: Env, a: Account, token: string, t: Time): Answered {
    if !HasSecret(a) then Answered(a, Failure(NotFound))
    else if !Totp.IsValidFormat(token) then Answered(a, Failure(BadRequest))
    else if !Totp.Accepts(env, a.enrolment.secret, t, token) then Answered(a, Failure(InvalidToken))
    else Answered(Idle, Success(TwoFactorDisabled))
  }

  function AccountVerify(env: Env, a: Account, token: string, t: Time): Answered {
    if a.Absent? then Answered(a, Failure(NotEnabled))
    else if HasSecret(a) && a.guard.Locked(t) then Answered(a, Failure(AccountLocked))
    else if !Totp.IsValidFormat(token) then Answered(a, Failure(BadRequest))
    else if a.Idle? then Answered(a, Failure(NotEnabled))
    else if !Totp.Accepts(env, a.enrolment.secret, t, token) then Missed(a, t)
    else Answered(Active(a.enrolment, Counting(0)), Success(if a.Pending? then Activated else TokenVerified))
  }

  function AccountLogin(env: Env, a: Account, token: string, t: Time): Answered {
    if HasSecret(a) && a.guard.Locked(t) then Answered(a, Failure(AccountLocked))
    else if !a.Active? then Answered(a, Failure(InvalidToken))
    else if !Totp.IsValidFormat(token) then Answered(a, Failure(BadRequest))
    else if !Totp.Accepts(env, a.enrolment.secret, t, token) then Missed(a, t)
    else Answered(Active(a.enrolment, Counting(0)), Success(LoggedIn))
  }

  function Missed(a: Account, t: Time): Answered
    requires HasSecret(a)
  {
    var guard := a.guard.Failed(t);
    Answered(a.(guard := guard), Failure(if guard.Tripped? then AccountLocked else InvalidToken))
  }

  function AccountRecover(a: Account, code: string): Answered {
    if !a.Active? then Answered(a, Failure(NotFound))
    else if Normalize(code) !in a.enrolment.codes then Answered(a, Failure(InvalidBackupCode))
    else Answered(Idle, Success(RecoveredWith(BACKUP_CODE_COUNT - 1)))
  }

  function AccountHandle(env: Env, a: Account, req: Request, t: Time): Answered {
    if Validate(req).Some? then Answered(a, Validate(req).value)
    else
      match req
      case Enable(_, _, _, _, _) => AccountEnable(env, a, req)
      case Disable(_, _, token) => AccountDisable(env, a, token, t)
      case Verify(_, _, token) => AccountVerify(env, a, token, t)
      case Login(_, token) => AccountLogin(env, a, token, t)
      case Recover(_, _, code) => AccountRecover(a, code)
  }

  // ---------- abstraction ----------

  function Digest(h: CodeHash): string {
    if h.Phc? then h.digest else ""
  }

  function Digests(live: seq<CodeRow>): (d: seq<string>)
    ensures |d| == |live|
    ensures forall i :: 0 <= i < |live| ==> d[i] == Digest(live[i].hash)
  {
    seq(|live|, i requires 0 <= i < |live| => Digest(live[i].hash))
  }

  function GuardOf(row: Row): Guard {
    var fails := if row.failedAttempts < 0 then 0 else row.failedAttempts;
    if row.lockedUntil.Some? then Tripped(fails, row.lockedUntil.value - LOCKOUT_DURATION) else Counting(fails)
  }

  function SecretOf(env: Env, row: Row): string {
    match TotpFromRecord(env, row)
    case Secret(secret) => secret
    case NoTotp(_) => ""
  }

  function AccountFrom(env: Env, row: Option<Row>, mine: seq<CodeRow>): Account {
    if row.None? then Absent
    else if !row.value.enabled && !row.value.pending then Idle
    else
      var enrolment := Enrolment(SecretOf(env, row.value), Digests(Live(mine)));
      if row.value.enabled then Active(enrolment, GuardOf(row.value)) else Pending(enrolment, GuardOf(row.value))
  }

  function AccountOf(env: Env, db: Db, u: UserId): Account {
    AccountFrom(env, Lookup(db, u), CodesOf(db.codes, u))
  }

  // ---------- simulation ----------

  /** A scan of the user's rows finds a match exactly when the normalised code is one of the account's. */
  lemma {:induction false} ScanIsMembership(mine: seq<CodeRow>, code: string)
    requires forall i :: 0 <= i < |Live(mine)| ==> Live(mine)[i].hash.Phc?
    ensures (exists p :: 0 <= p < |mine| && Redeems(mine[p], code)) <==> Normalize(code) in Digests(Live(mine))
  {
    if exists p :: 0 <= p < |mine| && Redeems(mine[p], code) {
      var p :| 0 <= p < |mine| && Redeems(mine[p], code);
      var i := LiveHas(mine, p);
      assert Digests(Live(mine))[i] == Normalize(code);
    }
    if Normalize(code) in Digests(Live(mine)) {
      var i :| 0 <= i < |Live(mine)| && Digests(Live(mine))[i] == Normalize(code);
      LiveRow(mine, i);
      var p :| 0 <= p < |mine| && mine[p] == Live(mine)[i];
      assert Redeems(mine[p], code);
    }
  }

  lemma {:induction false} LiveHas(mine: seq<CodeRow>, p: nat) returns (i: nat)
    requires p < |mine| && !mine[p].consumed
    ensures i < |Live(mine)| && Live(mine)[i] == mine[p]
  {
    if p == |mine| - 1 {
      i := |Live(mine)| - 1;
    } else {
      i := LiveHas(Front(mine), p);
    }
  }

  function NormalizeAll(codes: seq<string>): (r: seq<string>)
    ensures |r| == |codes|
    ensures forall i :: 0 <= i < |codes| ==> r[i] == Normalize(codes[i])
  {
    seq(|codes|, i requires 0 <= i < |codes| => Normalize(codes[i]))
  }

  /** The deletion leaves no redeemable row, and every inserted one is redeemable. */
  lemma LiveAfterEnable(mine: seq<CodeRow>, added: seq<CodeRow>)
    requires forall i :: 0 <= i < |added| ==> !added[i].consumed
    ensures Live(Spent(mine) + added) == added
  {
    SpentOnly(mine);
    FreshAllLive(added);
    LiveAppend(Spent(mine), added);
    assert [] + added == added;
  }

  lemma DigestsOfNew(u: UserId, codes: seq<string>, start: nat)
    ensures Digests(NewCodes(u, HashAll(codes), start)) == NormalizeAll(codes)
  {
    var (hashes, digests) := (HashAll(codes), Digests(NewCodes(u, HashAll(codes), start)));
    assert |digests| == |codes|;
    forall i | 0 <= i < |codes| ensures digests[i] == NormalizeAll(codes)[i] {
      assert hashes[i] == HashBackupCode(codes[i]);
    }
  }

  /** The redeemable rows after an `enable` are the ones it inserted, hashing the codes it returns. */
  lemma EnableStock(mine: seq<CodeRow>, u: UserId, codes: seq<string>, start: nat)
    ensures Digests(Live(Spent(mine) + NewCodes(u, HashAll(codes), start))) == NormalizeAll(codes)
  {
    LiveAfterEnable(mine, NewCodes(u, HashAll(codes), start));
    DigestsOfNew(u, codes, start);
  }

  lemma EnabledAccount(env: Env, req: Request, snap: Option<Row>, mine: seq<CodeRow>, start: nat)
    requires req.Enable? && DecideEnable(env, req, snap).Proceed?
    ensures var w := DecideEnable(env, req, snap).write;
            AccountFrom(env, RowAfter(w, snap), Spent(mine) + NewCodes(req.user, w.hashes, start)) ==
            Pending(Enrolment(req.draws.secret, NormalizeAll(GenerateBackupCodes(req.draws))), Counting(0))
  {
    EnableStock(mine, req.user, GenerateBackupCodes(req.draws), start);
  }

  lemma SimulateEnable(env: Env, db: Db, req: Request, t: Time)
    requires SerialOk(env, db) && req.Enable? && Validate(req).None?
    ensures var h := Handle(env, db, req, t);
            Answered(AccountOf(env, h.db, req.user), h.outcome) == AccountHandle(env, AccountOf(env, db, req.user), req, t)
  {
    var (u, snap) := (req.user, Lookup(db, req.user));
    assert AccountOf(env, db, u).Active? <==> snap.Some? && snap.value.enabled;
    if DecideEnable(env, req, snap).Proceed? {
      var w := DecideEnable(env, req, snap).write;
      assert !Aborts(db, w);
      OwnTables(db, w, t);
      EnabledAccount(env, req, snap, CodesOf(db.codes, u), db.nextCode);
    }
  }

  lemma SimulateDisable(env: Env, db: Db, req: Request, t: Time)
    requires SerialOk(env, db) && req.Disable? && Validate(req).None?
    ensures var h := Handle(env, db, req, t);
            Answered(AccountOf(env, h.db, req.user), h.outcome) == AccountHandle(env, AccountOf(env, db, req.user), req, t)
  {
    assert UserOk(env, db, req.user);
    if Lookup(db, req.user).Some? {
      UsableRow(env, Lookup(db, req.user).value);
    }
  }

  lemma SimulateVerify(env: Env, db: Db, req: Request, t: Time)
    requires SerialOk(env, db) && req.Verify? && Validate(req).None?
    ensures var h := Handle(env, db, req, t);
            Answered(AccountOf(env, h.db, req.user), h.outcome) == AccountHandle(env, AccountOf(env, db, req.user), req, t)
  {
    assert UserOk(env, db, req.user);
    if Lookup(db, req.user).Some? {
      UsableRow(env, Lookup(db, req.user).value);
    }
  }

  lemma SimulateLogin(env: Env, db: Db, req: Request, t: Time)
    requires SerialOk(env, db) && req.Login? && Validate(req).None?
    ensures var h := Handle(env, db, req, t);
            Answered(AccountOf(env, h.db, req.user), h.outcome) == AccountHandle(env, AccountOf(env, db, req.user), req, t)
  {
    assert UserOk(env, db, req.user);
    if Lookup(db, req.user).Some? {
      UsableRow(env, Lookup(db, req.user).value);
    }
  }

  lemma SimulateRecover(env: Env, db: Db, req: Request, t: Time)
    requires SerialOk(env, db) && req.Recover? && Validate(req).None?
    ensures var h := Handle(env, db, req, t);
            Answered(AccountOf(env, h.db, req.user), h.outcome) == AccountHandle(env, AccountOf(env, db, req.user), req, t)
  {
    var u := req.user;
    assert UserOk(env, db, u);
    RecoverAnswersNine(env, db, req.sub, u, req.code, t);
    if u in db.records && db.records[u].enabled {
      ScanIsMembership(CodesOf(db.codes, u), req.code);
    }
  }

  /** Every request does to its user's account exactly what the account machine does, and answers the same. */
  lemma HandlerSimulates(env: Env, db: Db, req: Request, t: Time)
    requires SerialOk(env, db)
    ensures var h := Handle(env, db, req, t);
            Answered(AccountOf(env, h.db, req.user), h.outcome) == AccountHandle(env, AccountOf(env, db, req.user), req, t)
  {
    if Validate(req).None? {
      match req
      case Enable(_, _, _, _, _) => SimulateEnable(env, db, req, t);
      case Disable(_, _, _) => SimulateDisable(env, db, req, t);
      case Verify(_, _, _) => SimulateVerify(env, db, req, t);
      case Login(_, _) => SimulateLogin(env, db, req, t);
      case Recover(_, _, _) => SimulateRecover(env, db, req, t);
    }
  }

  // ---------- whole runs ----------

  function AccountRun(env: Env, a: Account, calls: seq<Call>): Account
    decreases |calls|
  {
    if calls == [] then a
    else AccountHandle(env, AccountRun(env, a, Front(calls)), Last(calls).req, Last(calls).t).account
  }

  lemma OtherAccount(env: Env, db: Db, req: Request, t: Time, v: UserId)
    requires SerialOk(env, db) && v != req.user
    ensures AccountOf(env, Handle(env, db, req, t).db, v) == AccountOf(env, db, v)
  {
    OthersUntouched(env, db, req, t, v);
  }

  /**
   * A user's account after any run of many users' requests is the account machine run on that user's own requests,
   * and every one of them is answered as the machine answers it.
   */
  lemma {:induction false} RunSimulates(env: Env, calls: seq<Call>, u: UserId)
    ensures AccountOf(env, Run(env, EMPTY_DB, calls), u) == AccountRun(env, Absent, CallsOf(calls, u))
    ensures calls != [] && Last(calls).req.user == u ==>
              LastOutcome(env, EMPTY_DB, calls) ==
              AccountHandle(env, AccountRun(env, Absent, CallsOf(Front(calls), u)), Last(calls).req, Last(calls).t).outcome
    decreases |calls|
  {
    if calls == [] {
    } else {
      var (db, last) := (Run(env, EMPTY_DB, Front(calls)), Last(calls));
      RunSimulates(env, Front(calls), u);
      SerialRunOk(env, Front(calls));
      if last.req.user == u {
        HandlerSimulates(env, db, last.req, last.t);
        assert Front(CallsOf(calls, u)) == CallsOf(Front(calls), u);
      } else {
        OtherAccount(env, db, last.req, last.t, u);
      }
    }
  }

  /** After every serial run an idle record has a zero counter and no lock. */
  lemma {:induction false} IdleIsClean(env: Env, db: Db, u: UserId)
    requires Reached(env, db) && AccountOf(env, db, u).Idle?
    ensures db.records[u].failedAttempts == 0 && db.records[u].lockedUntil.None?
  {
    ReachedOk(env, db);
    assert UserOk(env, db, u);
  }
}
