/** What `enable` hands out works: the TOTP secret activates the account and the backup codes recover it. */
module EnrolmentRoundTrip {
  import opened Types
  import opened Crypto
  import opened Tables
  import opened Handlers
  import opened Serial
  import opened Refinement
  import Totp

  predicate NotOf(calls: seq<Call>, u: UserId) {
    forall i :: 0 <= i < |calls| ==> calls[i].req.user != u
  }

  lemma {:induction false} OthersKeepAccount(env: Env, db: Db, calls: seq<Call>, u: UserId)
    requires SerialOk(env, db) && NotOf(calls, u)
    ensures AccountOf(env, Run(env, db, calls), u) == AccountOf(env, db, u)
    ensures SerialOk(env, Run(env, db, calls))
    decreases |calls|
  {
    RunOk(env, db, calls);
    if calls == [] {
    } else {
      OthersKeepAccount(env, db, Front(calls), u);
      OtherAccount(env, Run(env, db, Front(calls)), Last(calls).req, Last(calls).t, u);
    }
  }

  /** The database after a successful `enable` and then any requests of other users. */
  ghost predicate JustEnrolled(env: Env, db: Db, u: UserId, secret: string, codes: seq<string>) {
    exists before: seq<Call>, enable: Call, between: seq<Call> ::
      && enable.req.Enable? && enable.req.user == u && NotOf(between, u)
      && LastOutcome(env, EMPTY_DB, before + [enable]) == Success(Enrolled(secret, codes))
      && db == Run(env, Run(env, EMPTY_DB, before + [enable]), between)
  }

  lemma EnableAnswers(env: Env, db: Db, enable: Call, secret: string, codes: seq<string>)
    requires SerialOk(env, db) && enable.req.Enable?
    requires Handle(env, db, enable.req, enable.t).outcome == Success(Enrolled(secret, codes))
    ensures AccountOf(env, Handle(env, db, enable.req, enable.t).db, enable.req.user) ==
            Pending(Enrolment(secret, NormalizeAll(codes)), Counting(0))
  {
    HandlerSimulates(env, db, enable.req, enable.t);
  }

  lemma RunSnoc(env: Env, db: Db, calls: seq<Call>, last: Call)
    ensures Run(env, db, calls + [last]) == Handle(env, Run(env, db, calls), last.req, last.t).db
    ensures LastOutcome(env, db, calls + [last]) == Handle(env, Run(env, db, calls), last.req, last.t).outcome
  {
    assert Front(calls + [last]) == calls;
  }

  lemma EnrolledAccount(env: Env, db: Db, u: UserId, secret: string, codes: seq<string>)
    requires JustEnrolled(env, db, u, secret, codes)
    ensures SerialOk(env, db)
    ensures AccountOf(env, db, u) == Pending(Enrolment(secret, NormalizeAll(codes)), Counting(0))
  {
    var before: seq<Call>, enable: Call, between: seq<Call> :|
      && enable.req.Enable? && enable.req.user == u && NotOf(between, u)
      && LastOutcome(env, EMPTY_DB, before + [enable]) == Success(Enrolled(secret, codes))
      && db == Run(env, Run(env, EMPTY_DB, before + [enable]), between);
    SerialRunOk(env, before);
    SerialRunOk(env, before + [enable]);
    RunSnoc(env, EMPTY_DB, before, enable);
    EnableAnswers(env, Run(env, EMPTY_DB, before), enable, secret, codes);
    OthersKeepAccount(env, Run(env, EMPTY_DB, before + [enable]), between, u);
  }

  /** A TOTP generated from the returned secret at `g` activates the account at any instant within 30 seconds of `g`. */
  lemma SecretActivates(env: Env, db: Db, u: UserId, secret: string, codes: seq<string>, g: Time, t: Time)
    requires JustEnrolled(env, db, u, secret, codes)
    requires -30_000_000 <= t - g <= 30_000_000
    requires Totp.IsValidFormat(env.code(secret, Totp.StepOf(g)))
    ensures var h := Handle(env, db, Verify(u, u, env.code(secret, Totp.StepOf(g))), t);
            && h.outcome == Success(Activated)
            && AccountOf(env, h.db, u) == Active(Enrolment(secret, NormalizeAll(codes)), Counting(0))
  {
    EnrolledAccount(env, db, u, secret, codes);
    Totp.GeneratedTokenAccepted(env, secret, g, t);
    HandlerSimulates(env, db, Verify(u, u, env.code(secret, Totp.StepOf(g))), t);
  }

  /**
   * Once the account is active, `recover` accepts a string exactly when it is one of the returned codes up to
   * letter case and separators, and answers that nine codes are left.
   */
  lemma CodesRecover(env: Env, db: Db, u: UserId, secret: string, codes: seq<string>, token: string, t: Time,
                     between: seq<Call>, candidate: string, t': Time)
    requires JustEnrolled(env, db, u, secret, codes) && NotOf(between, u)
    requires Handle(env, db, Verify(u, u, token), t).outcome == Success(Activated)
    ensures var db' := Run(env, Handle(env, db, Verify(u, u, token), t).db, between);
            var h := Handle(env, db', Recover(u, u, candidate), t');
            && (h.outcome == Success(RecoveredWith(9)) <==>
                  exists i :: 0 <= i < |codes| && Reformats(candidate, codes[i]))
            && (h.outcome.Failure? ==> h.outcome == Failure(InvalidBackupCode))
  {
    EnrolledAccount(env, db, u, secret, codes);
    var verified := Handle(env, db, Verify(u, u, token), t).db;
    HandlerSimulates(env, db, Verify(u, u, token), t);
    HandleOk(env, db, Verify(u, u, token), t);
    OthersKeepAccount(env, verified, between, u);
    HandlerSimulates(env, Run(env, verified, between), Recover(u, u, candidate), t');
    forall i | 0 <= i < |codes|
      ensures Reformats(candidate, codes[i]) <==> Normalize(candidate) == NormalizeAll(codes)[i]
    {
      NormalizeEqualIffReformats(candidate, codes[i]);
    }
  }
}
