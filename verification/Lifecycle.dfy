/** What every interleaving keeps: the table constraints, usable secrets, rows that never vanish, an append-only history. */
module Lifecycle {
  import opened Types
  import opened Crypto
  import opened Tables
  import opened Handlers
  import opened Interleaved

  /** The stored ciphertext opens under the key with the stored nonce, and a TOTP can be built with the stored labels. */
  predicate Usable(env: Env, row: Row) {
    row.ciphertext.Some? ==>
      && row.nonce.Some? && |row.nonce.value| == NONCE_LENGTH
      && row.ciphertext.value.Sealed?
      && row.ciphertext.value == SealSecret(env.key, row.nonce.value, row.ciphertext.value.plaintext)
      && env.builds(row.ciphertext.value.plaintext, row.issuer, row.email)
  }

  predicate RowSafe(env: Env, row: Row) {
    row.Checks() && !(row.enabled && row.pending) && Usable(env, row)
  }

  predicate WriteSafe(env: Env, w: Write) {
    w.EnableWrite? ==>
      && RowSafe(env, RowAfter(w, None).value)
      && |w.hashes| == BACKUP_CODE_COUNT
  }

  predicate FlightSafe(env: Env, s: System, f: Flight) {
    match f.phase
    case Loaded(snap) => snap.Some? ==> RowSafe(env, snap.value) && f.req.user in s.db.records
    case Writing(w) => w.user == f.req.user && WriteSafe(env, w) && (w.EnableWrite? || w.user in s.db.records)
    case _ => true
  }

  ghost predicate Safe(env: Env, s: System) {
    && (forall u :: u in s.db.records ==> RowSafe(env, s.db.records[u]))
    && (forall i :: 0 <= i < |s.flights| ==> FlightSafe(env, s, s.flights[i]))
  }

  predicate Idle(s: System, u: UserId) {
    u in s.db.records && !s.db.records[u].enabled && !s.db.records[u].pending
  }

  // ---------- preservation ----------

  lemma DecideSafe(env: Env, req: Request, now: Time, snap: Option<Row>, codes: seq<CodeRow>, at: Time)
    ensures var d := Decide(env, req, now, snap, codes, at); d.Proceed? ==> WriteSafe(env, d.write)
  {
  }

  /** A secret-bearing row can be opened; without a secret the only error is the 401. */
  lemma UsableRow(env: Env, row: Row)
    requires RowSafe(env, row)
    ensures TotpFromRecord(env, row) ==
            if row.enabled || row.pending then Secret(row.ciphertext.value.plaintext) else NoTotp(NotEnabled)
  {
  }

  /** In a safe state the only write the constraints stop is a late `verify` on a row without a secret. */
  lemma AbortsIff(env: Env, s: System, id: nat)
    requires Safe(env, s) && id < |s.flights| && s.flights[id].phase.Writing?
    ensures var w := s.flights[id].phase.write;
            Aborts(s.db, w) <==> w.VerifyWrite? && Idle(s, w.user)
  {
    assert FlightSafe(env, s, s.flights[id]);
  }

  lemma RowAfterSafe(env: Env, db: Db, w: Write)
    requires w.user in db.records ==> RowSafe(env, db.records[w.user])
    requires WriteSafe(env, w) && !Aborts(db, w)
    ensures var after := RowAfter(w, Lookup(db, w.user)); after.Some? ==> RowSafe(env, after.value)
  {
  }

  lemma NextSafe(env: Env, s: System, step: Step)
    requires Safe(env, s)
    ensures Safe(env, Next(env, s, step))
    ensures s.db.records.Keys <= Next(env, s, step).db.records.Keys
  {
    match step
    case Check(id) =>
      if Waiting(s, id) && s.flights[id].phase.Loaded? {
        var f := s.flights[id];
        assert FlightSafe(env, s, f);
        DecideSafe(env, f.req, f.now, f.phase.snap, s.db.codes, s.clock);
        DecideKeepsUser(env, f.req, f.now, f.phase.snap, s.db.codes, s.clock);
      }
    case CommitStep(id, stamp) =>
      if Waiting(s, id) && s.flights[id].phase.Writing? {
        assert FlightSafe(env, s, s.flights[id]);
        if !Aborts(s.db, s.flights[id].phase.write) {
          RowAfterSafe(env, s.db, s.flights[id].phase.write);
        }
      }
    case _ =>
  }

  lemma {:induction false} ExecSafe(env: Env, s: System, steps: seq<Step>)
    requires Safe(env, s)
    ensures Safe(env, Exec(env, s, steps))
    ensures s.db.records.Keys <= Exec(env, s, steps).db.records.Keys
    decreases |steps|
  {
    if steps == [] {
    } else {
      ExecSafe(env, s, Front(steps));
      NextSafe(env, Exec(env, s, Front(steps)), Last(steps));
    }
  }

  lemma ReachableSafe(env: Env, s: System)
    requires Reachable(env, s)
    ensures Safe(env, s)
  {
    var clock, steps :| s == Exec(env, InitialSystem(clock), steps);
    ExecSafe(env, InitialSystem(clock), steps);
  }

  // ---------- theorems ----------

  /**
   * In every reachable state every record satisfies both constraints and is never both enabled and pending,
   * and a pending UPDATE always finds its row.
   */
  lemma RecordsWellFormed(env: Env, s: System)
    requires Reachable(env, s)
    ensures forall u :: u in s.db.records ==>
              s.db.records[u].Checks() && !(s.db.records[u].enabled && s.db.records[u].pending)
    ensures forall i :: 0 <= i < |s.flights| && s.flights[i].phase.Writing? && !s.flights[i].phase.write.EnableWrite? ==>
              s.flights[i].phase.write.user in s.db.records
  {
    ReachableSafe(env, s);
    forall i | 0 <= i < |s.flights| && s.flights[i].phase.Writing? && !s.flights[i].phase.write.EnableWrite?
      ensures s.flights[i].phase.write.user in s.db.records
    {
      assert FlightSafe(env, s, s.flights[i]);
    }
  }

  /** Every snapshot taken in any interleaving yields a TOTP, or the 401 of a record without a secret; never a 500. */
  lemma SnapshotsUsable(env: Env, s: System, i: nat)
    requires Reachable(env, s) && i < |s.flights|
    requires s.flights[i].phase.Loaded? && s.flights[i].phase.snap.Some?
    ensures var row := s.flights[i].phase.snap.value;
            var totp := TotpFromRecord(env, row);
            && (totp.Secret? <==> row.enabled || row.pending)
            && (totp.Secret? ==> row.nonce.Some? && row.ciphertext == Some(SealSecret(env.key, row.nonce.value, totp.secret)))
            && (totp.NoTotp? ==> totp.error == NotEnabled)
  {
    ReachableSafe(env, s);
    assert FlightSafe(env, s, s.flights[i]);
    UsableRow(env, s.flights[i].phase.snap.value);
  }

  /** A commit is refused exactly when a `verify` arrives after the record lost its secret, and then nothing changes. */
  lemma LateVerifyAborts(env: Env, s: System, id: nat, stamp: Time)
    requires Reachable(env, s) && id < |s.flights| && s.flights[id].phase.Writing?
    ensures var w := s.flights[id].phase.write;
            var s' := Next(env, s, CommitStep(id, stamp));
            var late := w.VerifyWrite? && Idle(s, w.user);
            && (s'.flights[id].phase == Done(Failure(Internal)) <==> late)
            && (late ==> s'.db == s.db && s'.history == s.history)
  {
    ReachableSafe(env, s);
    AbortsIff(env, s, id);
    assert FlightSafe(env, s, s.flights[id]);
    var w := s.flights[id].phase.write;
    if !Aborts(s.db, w) {
      assert ReplyTo(s.db, w, Commit(s.db, w, stamp)) != Failure(Internal);
    }
  }

  lemma NextIdle(env: Env, s: System, step: Step, u: UserId)
    requires Safe(env, s)
    ensures HistoryOf(s, u).enables <= HistoryOf(Next(env, s, step), u).enables
    ensures Idle(s, u) && HistoryOf(Next(env, s, step), u).enables == HistoryOf(s, u).enables ==> Idle(Next(env, s, step), u)
  {
    if step.CommitStep? && Waiting(s, step.id) && s.flights[step.id].phase.Writing? {
      AbortsIff(env, s, step.id);
    }
  }

  /** No interleaving takes an idle record anywhere but through a committed `enable` of that user. */
  lemma {:induction false} IdleUntilEnable(env: Env, s: System, steps: seq<Step>, u: UserId)
    requires Safe(env, s)
    ensures HistoryOf(s, u).enables <= HistoryOf(Exec(env, s, steps), u).enables
    ensures Idle(s, u) && HistoryOf(Exec(env, s, steps), u).enables == HistoryOf(s, u).enables ==> Idle(Exec(env, s, steps), u)
    decreases |steps|
  {
    if steps == [] {
    } else {
      IdleUntilEnable(env, s, Front(steps), u);
      ExecSafe(env, s, Front(steps));
      NextIdle(env, Exec(env, s, Front(steps)), Last(steps), u);
    }
  }

  // ---------- history ----------

  /** The row `c` is still there and still consumed; only the time of its redemption may have been rewritten. */
  predicate StillSpent(codes: seq<CodeRow>, c: CodeRow) {
    exists j :: 0 <= j < |codes| && codes[j].consumed && codes[j].(consumedAt := c.consumedAt) == c
  }

  lemma {:induction false} DeleteKeepsSpent(codes: seq<CodeRow>, u: UserId, c: CodeRow)
    requires StillSpent(codes, c)
    ensures StillSpent(DeleteLive(codes, u), c)
  {
    var j :| 0 <= j < |codes| && codes[j].consumed && codes[j].(consumedAt := c.consumedAt) == c;
    var deleted := DeleteLive(codes, u);
    if j == |codes| - 1 {
      assert deleted[|deleted| - 1] == codes[j];
    } else {
      assert Front(codes)[j] == codes[j];
      DeleteKeepsSpent(Front(codes), u, c);
      var k :| 0 <= k < |DeleteLive(Front(codes), u)| && DeleteLive(Front(codes), u)[k].consumed
               && DeleteLive(Front(codes), u)[k].(consumedAt := c.consumedAt) == c;
      assert deleted[k] == DeleteLive(Front(codes), u)[k];
    }
  }

  lemma CodesAfterKeepsSpent(db: Db, w: Write, stamp: Time, c: CodeRow)
    requires StillSpent(db.codes, c)
    ensures StillSpent(CodesAfter(db, w, stamp), c)
  {
    if w.EnableWrite? || w.DisableWrite? {
      DeleteKeepsSpent(db.codes, w.user, c);
      var kept := DeleteLive(db.codes, w.user);
      var j :| 0 <= j < |kept| && kept[j].consumed && kept[j].(consumedAt := c.consumedAt) == c;
      assert CodesAfter(db, w, stamp)[j] == kept[j];
    } else if w.RecoverWrite? {
      var j :| 0 <= j < |db.codes| && db.codes[j].consumed && db.codes[j].(consumedAt := c.consumedAt) == c;
      var r := CodesAfter(db, w, stamp)[j];
      assert r.consumed && r.(consumedAt := c.consumedAt) == c;
    }
  }

  lemma NextKeepsHistory(env: Env, s: System, step: Step)
    ensures s.db.audit <= Next(env, s, step).db.audit
    ensures forall c :: StillSpent(s.db.codes, c) ==> StillSpent(Next(env, s, step).db.codes, c)
  {
    if step.CommitStep? && Waiting(s, step.id) && s.flights[step.id].phase.Writing? {
      forall c | StillSpent(s.db.codes, c) ensures StillSpent(Next(env, s, step).db.codes, c) {
        CodesAfterKeepsSpent(s.db, s.flights[step.id].phase.write, step.stamp, c);
      }
    }
  }

  /** Redeemed codes are never deleted nor made redeemable again, and the audit log only grows at its end. */
  lemma {:induction false} HistoryOnlyGrows(env: Env, s: System, steps: seq<Step>)
    ensures s.db.audit <= Exec(env, s, steps).db.audit
    ensures forall c :: StillSpent(s.db.codes, c) ==> StillSpent(Exec(env, s, steps).db.codes, c)
    decreases |steps|
  {
    if steps == [] {
    } else {
      HistoryOnlyGrows(env, s, Front(steps));
      NextKeepsHistory(env, Exec(env, s, Front(steps)), Last(steps));
    }
  }
}
