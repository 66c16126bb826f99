/** Which `enable` a stored secret comes from, and which secret a token was checked against. */
module Provenance {
  import opened Types
  import opened Crypto
  import opened Tables
  import opened Handlers
  import opened Interleaved
  import opened Lifecycle
  import Totp
  import opened Schedules

  /** The row holds the sealed secret, nonce, issuer and email of this one request. */
  predicate TupleOf(env: Env, row: Row, req: Request)
    requires req.Enable?
  {
    && row.ciphertext == Some(SealSecret(env.key, req.draws.nonce, req.draws.secret))
    && row.nonce == Some(req.draws.nonce)
    && row.issuer == Issuer(req.issuer)
    && row.email == req.email
  }

  /** Request `k` is an answered, successful `enable` of `u` whose sealing and TOTP construction succeeded. */
  predicate Enabled(env: Env, s: System, k: nat, u: UserId) {
    k < |s.flights| &&
    var f := s.flights[k];
    && f.req.Enable? && f.req.user == u
    && f.phase == Done(Success(Enrolled(f.req.draws.secret, GenerateBackupCodes(f.req.draws))))
    && f.req.draws.cryptoOk && env.builds(f.req.draws.secret, Issuer(f.req.issuer), f.req.email)
  }

  /** The row was written whole by request `k`. */
  predicate Wrote(env: Env, s: System, k: nat, u: UserId, row: Row) {
    Enabled(env, s, k, u) && TupleOf(env, row, s.flights[k].req)
  }

  /** The token of the request was right for the secret `enable` number `k` drew, at an instant since its arrival. */
  ghost predicate CheckedAgainst(env: Env, s: System, f: Flight, k: nat) {
    && k < |s.flights| && s.flights[k].req.Enable? && f.req.IsGuess()
    && exists t :: f.now <= t <= s.clock && Totp.Accepts(env, s.flights[k].req.draws.secret, t, f.req.token)
  }

  predicate RowTraced(env: Env, s: System, u: UserId) {
    var h := HistoryOf(s, u);
    && (h.enables > 0 ==> Enabled(env, s, h.writer, u))
    && (u in s.db.records && s.db.records[u].ciphertext.Some? ==>
          h.enables > 0 && Wrote(env, s, h.writer, u, s.db.records[u]))
  }

  /** What a loaded request knows of the enables of its user. */
  predicate LoadTraced(env: Env, s: System, f: Flight) {
    var h := HistoryOf(s, f.req.user);
    && f.enables <= h.enables
    && (f.enables == h.enables ==> f.writer == h.writer)
    && (f.enables > 0 ==> Enabled(env, s, f.writer, f.req.user))
    && (0 < f.enables < h.enables ==> f.writer != h.writer)
  }

  ghost predicate FlightTraced(env: Env, s: System, f: Flight) {
    && f.now <= s.clock
    && match f.phase
       case Loaded(snap) =>
         && LoadTraced(env, s, f)
         && (snap.Some? && snap.value.ciphertext.Some? ==> f.enables > 0 && Wrote(env, s, f.writer, f.req.user, snap.value))
       case Writing(w) =>
         && LoadTraced(env, s, f) && w.user == f.req.user
         && (w.EnableWrite? ==> WritesRequest(env, w, f.req))
         && (w.VerifyWrite? || w.LoginWrite? ==> f.enables > 0 && CheckedAgainst(env, s, f, f.writer))
       case _ => true
  }

  /** The pending write carries the fields of its own request. */
  predicate WritesRequest(env: Env, w: Write, req: Request)
    requires w.EnableWrite?
  {
    && req.Enable? && TupleOf(env, RowAfter(w, None).value, req)
    && w.reply == Enrolled(req.draws.secret, GenerateBackupCodes(req.draws))
    && req.draws.cryptoOk && env.builds(req.draws.secret, Issuer(req.issuer), req.email)
  }

  ghost predicate Traced(env: Env, s: System) {
    && (forall u :: RowTraced(env, s, u))
    && (forall i :: 0 <= i < |s.flights| ==> FlightTraced(env, s, s.flights[i]))
  }

  // ---------- preservation ----------

  /** Steps keep answered requests, requests themselves, and the clock's direction. */
  predicate Extends(s: System, s': System) {
    && s.clock <= s'.clock && |s.flights| <= |s'.flights|
    && forall i :: 0 <= i < |s.flights| ==>
         s'.flights[i].req == s.flights[i].req && (s.flights[i].phase.Done? ==> s'.flights[i] == s.flights[i])
  }

  lemma NextExtends(env: Env, s: System, step: Step)
    ensures Extends(s, Next(env, s, step))
  {
  }

  /** A flight nothing happened to stays traced while no enable of its user is committed. */
  lemma FlightStays(env: Env, s: System, s': System, f: Flight)
    requires Extends(s, s') && FlightTraced(env, s, f)
    requires HistoryOf(s', f.req.user).enables == HistoryOf(s, f.req.user).enables
    requires HistoryOf(s', f.req.user).writer == HistoryOf(s, f.req.user).writer
    ensures FlightTraced(env, s', f)
  {
  }

  /** A newly committed enable was not answered before, so it is not one an earlier snapshot came from. */
  lemma FlightSeesEnable(env: Env, s: System, s': System, f: Flight, id: nat)
    requires Extends(s, s') && FlightTraced(env, s, f)
    requires id < |s.flights| && !s.flights[id].phase.Done?
    requires HistoryOf(s', f.req.user).enables == HistoryOf(s, f.req.user).enables + 1
    requires HistoryOf(s', f.req.user).writer == id
    ensures FlightTraced(env, s', f)
  {
  }

  lemma DecideWritesRequest(env: Env, req: Request, now: Time, snap: Option<Row>, codes: seq<CodeRow>, at: Time)
    ensures var d := Decide(env, req, now, snap, codes, at);
            d.Proceed? && d.write.EnableWrite? ==> WritesRequest(env, d.write, req)
  {
  }

  /** A guess that succeeds was right for the secret its snapshot holds. */
  lemma DecideChecks(env: Env, req: Request, now: Time, snap: Option<Row>, codes: seq<CodeRow>, at: Time)
    ensures var d := Decide(env, req, now, snap, codes, at);
            d.Proceed? && (d.write.VerifyWrite? || d.write.LoginWrite?) ==>
              && req.IsGuess() && snap.Some? && snap.value.ciphertext.Some? && snap.value.ciphertext.value.Sealed?
              && Totp.Accepts(env, snap.value.ciphertext.value.plaintext, at, req.token)
  {
  }

  lemma CheckTraced(env: Env, s: System, id: nat)
    requires Waiting(s, id) && s.flights[id].phase.Loaded? && FlightTraced(env, s, s.flights[id])
    ensures FlightTraced(env, DoCheck(env, s, id), DoCheck(env, s, id).flights[id])
  {
    var (f, s') := (s.flights[id], DoCheck(env, s, id));
    NextExtends(env, s, Check(id));
    DecideKeepsUser(env, f.req, f.now, f.phase.snap, s.db.codes, s.clock);
    DecideWritesRequest(env, f.req, f.now, f.phase.snap, s.db.codes, s.clock);
    DecideChecks(env, f.req, f.now, f.phase.snap, s.db.codes, s.clock);
    var d := Decide(env, f.req, f.now, f.phase.snap, s.db.codes, s.clock);
    if d.Proceed? && (d.write.VerifyWrite? || d.write.LoginWrite?) {
      assert s'.flights[f.writer] == s.flights[f.writer];
      assert CheckedAgainst(env, s', s'.flights[id], f.writer);
    }
  }

  lemma RowStays(env: Env, s: System, s': System, u: UserId)
    requires Extends(s, s') && RowTraced(env, s, u)
    requires HistoryOf(s', u).enables == HistoryOf(s, u).enables && HistoryOf(s', u).writer == HistoryOf(s, u).writer
    requires u in s'.db.records && s'.db.records[u].ciphertext.Some? ==>
               && u in s.db.records
               && s'.db.records[u].ciphertext == s.db.records[u].ciphertext && s'.db.records[u].nonce == s.db.records[u].nonce
               && s'.db.records[u].issuer == s.db.records[u].issuer && s'.db.records[u].email == s.db.records[u].email
    ensures RowTraced(env, s', u)
  {
  }

  lemma CommitRowTraced(env: Env, s: System, id: nat, stamp: Time, u: UserId)
    requires Traced(env, s) && Waiting(s, id) && s.flights[id].phase.Writing? && !Aborts(s.db, s.flights[id].phase.write)
    ensures RowTraced(env, DoCommit(s, id, stamp), u)
  {
    var (w, s') := (s.flights[id].phase.write, DoCommit(s, id, stamp));
    assert FlightTraced(env, s, s.flights[id]) && RowTraced(env, s, u);
    NextExtends(env, s, CommitStep(id, stamp));
    if w.user == u && w.EnableWrite? {
      assert Enabled(env, s', id, u);
    } else {
      RowStays(env, s, s', u);
    }
  }

  lemma CommitFlightTraced(env: Env, s: System, id: nat, stamp: Time, i: nat)
    requires Traced(env, s) && Waiting(s, id) && s.flights[id].phase.Writing? && !Aborts(s.db, s.flights[id].phase.write)
    requires i < |s.flights|
    ensures FlightTraced(env, DoCommit(s, id, stamp), DoCommit(s, id, stamp).flights[i])
  {
    var (w, s') := (s.flights[id].phase.write, DoCommit(s, id, stamp));
    NextExtends(env, s, CommitStep(id, stamp));
    assert FlightTraced(env, s, s.flights[i]);
    if i != id {
      if w.EnableWrite? && w.user == s.flights[i].req.user {
        FlightSeesEnable(env, s, s', s.flights[i], id);
      } else {
        FlightStays(env, s, s', s.flights[i]);
      }
    }
  }

  lemma QuietFlightTraced(env: Env, s: System, step: Step, i: nat)
    requires Traced(env, s) && Next(env, s, step).db == s.db && Next(env, s, step).history == s.history
    requires i < |Next(env, s, step).flights|
    ensures FlightTraced(env, Next(env, s, step), Next(env, s, step).flights[i])
  {
    var s' := Next(env, s, step);
    NextExtends(env, s, step);
    if i < |s.flights| {
      assert FlightTraced(env, s, s.flights[i]) && RowTraced(env, s, s.flights[i].req.user);
      if step.Check? && step.id == i && s.flights[i].phase.Loaded? {
        CheckTraced(env, s, i);
      } else {
        FlightStays(env, s, s', s.flights[i]);
      }
    }
  }

  lemma QuietTraced(env: Env, s: System, step: Step)
    requires Traced(env, s) && Next(env, s, step).db == s.db && Next(env, s, step).history == s.history
    ensures Traced(env, Next(env, s, step))
  {
    var s' := Next(env, s, step);
    NextExtends(env, s, step);
    forall u ensures RowTraced(env, s', u) {
      assert RowTraced(env, s, u);
      RowStays(env, s, s', u);
    }
    forall i | 0 <= i < |s'.flights| ensures FlightTraced(env, s', s'.flights[i]) {
      QuietFlightTraced(env, s, step, i);
    }
  }

  lemma NextTraced(env: Env, s: System, step: Step)
    requires Traced(env, s)
    ensures Traced(env, Next(env, s, step))
  {
    if step.CommitStep? && Waiting(s, step.id) && s.flights[step.id].phase.Writing? && !Aborts(s.db, s.flights[step.id].phase.write) {
      var s' := DoCommit(s, step.id, step.stamp);
      forall u ensures RowTraced(env, s', u) {
        CommitRowTraced(env, s, step.id, step.stamp, u);
      }
      forall i | 0 <= i < |s'.flights| ensures FlightTraced(env, s', s'.flights[i]) {
        CommitFlightTraced(env, s, step.id, step.stamp, i);
      }
    } else {
      QuietTraced(env, s, step);
    }
  }

  lemma {:induction false} ExecTraced(env: Env, s: System, steps: seq<Step>)
    requires Traced(env, s)
    ensures Traced(env, Exec(env, s, steps))
    decreases |steps|
  {
    if steps == [] {
    } else {
      ExecTraced(env, s, Front(steps));
      NextTraced(env, Exec(env, s, Front(steps)), Last(steps));
    }
  }

  lemma ReachableTraced(env: Env, s: System)
    requires Reachable(env, s)
    ensures Traced(env, s)
  {
    var clock, steps :| s == Exec(env, InitialSystem(clock), steps);
    ExecTraced(env, InitialSystem(clock), steps);
  }

  // ---------- theorems ----------

  /**
   * Under every interleaving the ciphertext, nonce, issuer and email of a stored secret, and of every snapshot
   * holding one, are those of one successful `enable` of that user.
   */
  lemma WrittenByOneEnable(env: Env, s: System)
    requires Reachable(env, s)
    ensures forall u :: u in s.db.records && s.db.records[u].ciphertext.Some? ==>
              exists k :: Wrote(env, s, k, u, s.db.records[u])
    ensures forall i :: 0 <= i < |s.flights| && s.flights[i].phase.Loaded? && s.flights[i].phase.snap.Some?
                        && s.flights[i].phase.snap.value.ciphertext.Some? ==>
              exists k :: Wrote(env, s, k, s.flights[i].req.user, s.flights[i].phase.snap.value)
  {
    ReachableTraced(env, s);
    forall u | u in s.db.records && s.db.records[u].ciphertext.Some?
      ensures exists k :: Wrote(env, s, k, u, s.db.records[u])
    {
      assert RowTraced(env, s, u);
    }
    forall i | 0 <= i < |s.flights| && s.flights[i].phase.Loaded? && s.flights[i].phase.snap.Some?
               && s.flights[i].phase.snap.value.ciphertext.Some?
      ensures exists k :: Wrote(env, s, k, s.flights[i].req.user, s.flights[i].phase.snap.value)
    {
      assert FlightTraced(env, s, s.flights[i]);
    }
  }

  /**
   * A `verify` about to commit checked its token against the secret of `writer`, the enable its snapshot came from.
   * Unless it is too late, its commit enables whatever secret is stored by then; that one comes from the same
   * enable exactly when no enable of the user has committed since the load.
   */
  lemma VerifyEnablesChecked(env: Env, s: System, id: nat, stamp: Time)
    requires Reachable(env, s) && id < |s.flights| && s.flights[id].phase.Writing? && s.flights[id].phase.write.VerifyWrite?
    requires !Idle(s, s.flights[id].req.user)
    ensures var (f, u, s') := (s.flights[id], s.flights[id].req.user, Next(env, s, CommitStep(id, stamp)));
            var h := HistoryOf(s, u);
            && CheckedAgainst(env, s, f, f.writer) && Enabled(env, s, f.writer, u)
            && u in s'.db.records && s'.db.records[u].enabled
            && Wrote(env, s', h.writer, u, s'.db.records[u])
            && (h.writer == f.writer <==> h.enables == f.enables)
  {
    var (f, u) := (s.flights[id], s.flights[id].req.user);
    ReachableTraced(env, s);
    ReachableSafe(env, s);
    assert FlightTraced(env, s, f) && FlightSafe(env, s, f) && RowTraced(env, s, u);
    AbortsIff(env, s, id);
    assert RowTraced(env, Next(env, s, CommitStep(id, stamp)), u) by {
      CommitRowTraced(env, s, id, stamp, u);
    }
  }

  /** No two enables of `u` drew the same secret. */
  predicate FreshSecrets(s: System, u: UserId) {
    forall i, j :: 0 <= i < j < |s.flights| && s.flights[i].req.Enable? && s.flights[j].req.Enable?
                   && s.flights[i].req.user == u && s.flights[j].req.user == u ==>
      s.flights[i].req.draws.secret != s.flights[j].req.draws.secret
  }

  /** So, secrets being drawn afresh, the secret it enables is the one its token was right for exactly in that case. */
  lemma VerifyEnablesCheckedSecret(env: Env, s: System, id: nat, stamp: Time)
    requires Reachable(env, s) && id < |s.flights| && s.flights[id].phase.Writing? && s.flights[id].phase.write.VerifyWrite?
    requires !Idle(s, s.flights[id].req.user) && FreshSecrets(s, s.flights[id].req.user)
    ensures var (f, u, s') := (s.flights[id], s.flights[id].req.user, Next(env, s, CommitStep(id, stamp)));
            && u in s'.db.records && CheckedAgainst(env, s, f, f.writer)
            && (TotpFromRecord(env, s'.db.records[u]) == Secret(s.flights[f.writer].req.draws.secret) <==>
                  HistoryOf(s, u).enables == f.enables)
  {
    VerifyEnablesChecked(env, s, id, stamp);
    var (f, u, s') := (s.flights[id], s.flights[id].req.user, Next(env, s, CommitStep(id, stamp)));
    var k := HistoryOf(s, u).writer;
    NextExtends(env, s, CommitStep(id, stamp));
    assert Enabled(env, s', k, u) && k != id;
    assert TotpFromRecord(env, s'.db.records[u]) == Secret(s.flights[k].req.draws.secret);
  }

  // ---------- the exceptional case does happen ----------

  /** An `enable` that nothing refuses where no record is enabled. */
  predicate Enrols(env: Env, req: Request) {
    && req.Enable? && Validate(req).None? && req.draws.cryptoOk
    && env.builds(req.draws.secret, Issuer(req.issuer), req.email)
  }

  predicate PendingWith(env: Env, db: Db, u: UserId, secret: string) {
    && u in db.records && db.records[u].pending && !db.records[u].enabled && db.records[u].lockedUntil.None?
    && TotpFromRecord(env, db.records[u]) == Secret(secret)
  }

  lemma HandleEnrols(env: Env, db: Db, req: Request, t: Time)
    requires Enrols(env, req) && (req.user in db.records ==> !db.records[req.user].enabled)
    ensures PendingWith(env, Handle(env, db, req, t).db, req.user, req.draws.secret)
  {
  }

  predicate CheckPending(s: System, s': System, u: UserId, token: string) {
    && s'.db == s.db && s'.clock == s.clock && |s'.flights| == |s.flights| + 1 && s'.flights[..|s.flights|] == s.flights
    && s'.flights[|s.flights|].req == Verify(u, u, token)
    && s'.flights[|s.flights|].phase == Writing(VerifyWrite(u, true))
  }

  lemma LoadedVerify(env: Env, s: System, u: UserId, secret: string, token: string)
    requires PendingWith(env, s.db, u, secret) && Totp.IsValidFormat(token) && Totp.Accepts(env, secret, s.clock, token)
    ensures CheckPending(s, DoCheck(env, DoLoad(DoArrive(s, Verify(u, u, token)), |s.flights|), |s.flights|), u, token)
  {
    var (id, req) := (|s.flights|, Verify(u, u, token));
    var loaded := DoLoad(DoArrive(s, req), id);
    assert loaded.flights[id].phase == Loaded(Some(s.db.records[u])) && loaded.flights[id].now == s.clock;
    assert Decide(env, req, s.clock, Some(s.db.records[u]), s.db.codes, s.clock) == Proceed(VerifyWrite(u, true));
  }

  /** A `verify` arrives, loads its snapshot and is checked, and has not committed yet. */
  lemma CheckedVerify(env: Env, s: System, u: UserId, secret: string, token: string) returns (steps: seq<Step>)
    requires PendingWith(env, s.db, u, secret) && Totp.IsValidFormat(token) && Totp.Accepts(env, secret, s.clock, token)
    ensures CheckPending(s, Exec(env, s, steps), u, token)
  {
    var (req, id) := (Verify(u, u, token), |s.flights|);
    ExecThree(env, s, Arrive(req), Load(id), Check(id));
    LoadedVerify(env, s, u, secret, token);
    steps := [Arrive(req), Load(id), Check(id)];
  }

  /** The commit of a checked `verify` enables whatever secret the record holds by then. */
  lemma CommitVerify(env: Env, s: System, id: nat, u: UserId, secret: string)
    requires PendingWith(env, s.db, u, secret) && s.db.records[u].Checks()
    requires id < |s.flights| && s.flights[id].phase == Writing(VerifyWrite(u, true))
    ensures var s' := Next(env, s, CommitStep(id, s.clock));
            && s'.flights == s.flights[id := s.flights[id].(phase := Done(Success(Activated)))]
            && u in s'.db.records && s'.db.records[u].enabled && TotpFromRecord(env, s'.db.records[u]) == Secret(secret)
  {
  }

  /**
   * Whatever two enrolments of a user are and whatever token fits the first, some interleaving of the two with the
   * `verify` of that token answers it with success and enables the secret of the second.
   */
  lemma UncheckedSecretEnabled(env: Env, first: Request, second: Request, token: string, t: Time) returns (steps: seq<Step>)
    requires Enrols(env, first) && Enrols(env, second) && first.user == second.user
    requires Totp.IsValidFormat(token) && Totp.Accepts(env, first.draws.secret, t, token)
    ensures var (s, u) := (Exec(env, InitialSystem(t), steps), first.user);
            && |s.flights| == 3 && s.flights[0].req == first && s.flights[2].req == second
            && s.flights[1].req == Verify(u, u, token) && s.flights[1].phase == Done(Success(Activated))
            && u in s.db.records && s.db.records[u].enabled
            && TotpFromRecord(env, s.db.records[u]) == Secret(second.draws.secret)
  {
    var s0 := InitialSystem(t);
    var one := CallSteps(env, s0, first);
    var s1 := Exec(env, s0, one);
    HandleEnrols(env, s0.db, first, t);
    var two := CheckedVerify(env, s1, first.user, first.draws.secret, token);
    var s2 := Exec(env, s1, two);
    var three := CallSteps(env, s2, second);
    var s3 := Exec(env, s2, three);
    HandleEnrols(env, s2.db, second, t);
    ExecAppend(env, s0, one, two);
    ExecAppend(env, s0, one + two, three);
    ExecSnoc(env, s0, one + two + three, CommitStep(1, t));
    steps := one + two + three + [CommitStep(1, t)];
    ReachableSafe(env, s3);
    assert s3.flights[..2] == s2.flights && s2.flights[..1] == s1.flights;
    CommitVerify(env, s3, 1, first.user, second.draws.secret);
  }
}
