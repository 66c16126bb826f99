/** Under any interleaving, a code is never marked consumed without a `recovered` event to show for it. */
module Redemption {
  import opened Types
  import opened Tables
  import opened Handlers
  import opened Interleaved
  import opened Lifecycle
  import opened Serial

  /** The row a pending redemption names, if it still exists, is one of its user's. */
  ghost predicate NamesOwnRow(db: Db, w: Write) {
    w.RecoverWrite? ==> w.codeId < db.nextCode && forall c :: c in db.codes && c.id == w.codeId ==> c.user == w.user
  }

  predicate Logged(db: Db, u: UserId) {
    |Spent(CodesOf(db.codes, u))| <= CountEvent(AuditOf(db.audit, u), EvRecovered)
  }

  ghost predicate AllLogged(s: System) {
    && Ordered(s.db.codes, s.db.nextCode)
    && (forall i :: 0 <= i < |s.flights| && s.flights[i].phase.Writing? ==> NamesOwnRow(s.db, s.flights[i].phase.write))
    && (forall u :: Logged(s.db, u))
  }

  // ---------- the name stays right ----------

  lemma ScanNamesOwnRow(env: Env, db: Db, req: Request, now: Time, snap: Option<Row>, at: Time)
    requires Ordered(db.codes, db.nextCode)
    ensures var d := Decide(env, req, now, snap, db.codes, at); d.Proceed? ==> NamesOwnRow(db, d.write)
  {
    var d := Decide(env, req, now, snap, db.codes, at);
    if d.Proceed? && d.write.RecoverWrite? {
      OwnerOfId(db, req.user, FirstMatch(CodesOf(db.codes, req.user), req.code).value);
    }
  }

  /** Ids are never reused, so a later write leaves the name right or the row gone. */
  lemma CommitKeepsNames(db: Db, w: Write, stamp: Time, named: Write)
    requires NamesOwnRow(db, named)
    ensures NamesOwnRow(Commit(db, w, stamp), named)
  {
    if named.RecoverWrite? && !Aborts(db, w) {
      var after := CodesAfter(db, w, stamp);
      DeleteSubset(db.codes, w.user);
      forall c | c in after && c.id == named.codeId ensures c.user == named.user {
        var i :| 0 <= i < |after| && after[i] == c;
        if w.RecoverWrite? {
          assert db.codes[i] in db.codes;
        } else if w.EnableWrite? && i < |DeleteLive(db.codes, w.user)| {
          assert DeleteLive(db.codes, w.user)[i] in db.codes;
        }
      }
    }
  }

  // ---------- the count stays covered ----------

  lemma {:induction false} SetSpent(rows: seq<CodeRow>, p: nat, r: CodeRow)
    requires p < |rows| && r.consumed
    ensures |Spent(rows[p := r])| == |Spent(rows)| + if rows[p].consumed then 0 else 1
  {
    if p == |rows| - 1 {
      assert Front(rows[p := r]) == Front(rows);
    } else {
      SetSpent(Front(rows), p, r);
      assert Front(rows[p := r]) == Front(rows)[p := r];
    }
  }

  /** The named row is still there and unconsumed. */
  predicate StillLive(rows: seq<CodeRow>, id: nat) {
    exists p :: 0 <= p < |rows| && rows[p].id == id && !rows[p].consumed
  }

  lemma ConsumeSpends(mine: seq<CodeRow>, bound: int, id: nat, stamp: Time)
    requires Ordered(mine, bound)
    ensures |Spent(Consume(mine, id, stamp))| == |Spent(mine)| + if StillLive(mine, id) then 1 else 0
  {
    if p: nat :| p < |mine| && mine[p].id == id {
      ConsumeAt(mine, bound, p, stamp);
      SetSpent(mine, p, Redeemed(mine[p], stamp));
      if q :| 0 <= q < |mine| && mine[q].id == id && !mine[q].consumed {
        if q < p { OrderedUnique(mine, bound, q, p); } else if p < q { OrderedUnique(mine, bound, p, q); }
      }
    } else {
      assert Consume(mine, id, stamp) == mine;
    }
  }

  lemma OwnLogged(db: Db, w: Write, stamp: Time)
    requires Ordered(db.codes, db.nextCode) && Logged(db, w.user) && !Aborts(db, w)
    ensures Logged(Commit(db, w, stamp), w.user)
  {
    var mine := CodesOf(db.codes, w.user);
    OwnTables(db, w, stamp);
    SpentOnly(mine);
    if w.EnableWrite? {
      FreshAllLive(NewCodes(w.user, w.hashes, db.nextCode));
      SpentAppend(Spent(mine), NewCodes(w.user, w.hashes, db.nextCode));
    } else if w.RecoverWrite? {
      OrderedCodesOf(db.codes, w.user, db.nextCode);
      ConsumeSpends(mine, db.nextCode, w.codeId, stamp);
    }
    if EventOf(w).Some? {
      ReplaySnoc(AuditOf(db.audit, w.user), AuditRow(|db.audit|, w.user, EventOf(w).value, stamp));
    }
  }

  lemma CommitLogged(s: System, id: nat, stamp: Time)
    requires AllLogged(s) && Waiting(s, id) && s.flights[id].phase.Writing?
    ensures AllLogged(DoCommit(s, id, stamp))
  {
    var (w, s') := (s.flights[id].phase.write, DoCommit(s, id, stamp));
    if !Aborts(s.db, w) {
      OrderedCommit(s.db, w, stamp);
      forall i | 0 <= i < |s'.flights| && s'.flights[i].phase.Writing? ensures NamesOwnRow(s'.db, s'.flights[i].phase.write) {
        CommitKeepsNames(s.db, w, stamp, s.flights[i].phase.write);
      }
      assert NamesOwnRow(s.db, w);
      forall u ensures Logged(s'.db, u) {
        assert Logged(s.db, u);
        if u == w.user { OwnLogged(s.db, w, stamp); } else { TablesElsewhere(s.db, w, stamp, u); }
      }
    }
  }

  lemma NextLogged(env: Env, s: System, step: Step)
    requires AllLogged(s)
    ensures AllLogged(Next(env, s, step))
  {
    if step.CommitStep? && Waiting(s, step.id) && s.flights[step.id].phase.Writing? {
      CommitLogged(s, step.id, step.stamp);
    } else if step.Check? && Waiting(s, step.id) && s.flights[step.id].phase.Loaded? {
      var f := s.flights[step.id];
      ScanNamesOwnRow(env, s.db, f.req, f.now, f.phase.snap, s.clock);
    }
  }

  lemma {:induction false} ExecLogged(env: Env, s: System, steps: seq<Step>)
    requires AllLogged(s)
    ensures AllLogged(Exec(env, s, steps))
    decreases |steps|
  {
    if steps == [] {
    } else {
      ExecLogged(env, s, Front(steps));
      NextLogged(env, Exec(env, s, Front(steps)), Last(steps));
    }
  }

  lemma ReachableLogged(env: Env, s: System)
    requires Reachable(env, s)
    ensures AllLogged(s)
  {
    var clock, steps :| s == Exec(env, InitialSystem(clock), steps);
    ExecLogged(env, InitialSystem(clock), steps);
  }

  /** In every reachable state a user has at least as many `recovered` events as consumed codes. */
  lemma EveryRedemptionLogged(env: Env, s: System, u: UserId)
    requires Reachable(env, s)
    ensures RecoveryTotal(s.db, u) <= CountEvent(AuditOf(s.db.audit, u), EvRecovered)
  {
    ReachableLogged(env, s);
    assert Logged(s.db, u);
  }

  lemma CommitSpends(db: Db, w: Write, stamp: Time)
    requires Ordered(db.codes, db.nextCode) && w.RecoverWrite? && !Aborts(db, w)
    ensures RecoveryTotal(Commit(db, w, stamp), w.user) ==
            RecoveryTotal(db, w.user) + if StillLive(CodesOf(db.codes, w.user), w.codeId) then 1 else 0
  {
    OwnTables(db, w, stamp);
    OrderedCodesOf(db.codes, w.user, db.nextCode);
    ConsumeSpends(CodesOf(db.codes, w.user), db.nextCode, w.codeId, stamp);
  }

  /**
   * A pending redemption never fails, and it spends one more code exactly when the row its scan found is still
   * there and unconsumed.
   */
  lemma RedemptionSpendsIff(env: Env, s: System, id: nat, stamp: Time)
    requires Reachable(env, s) && id < |s.flights| && s.flights[id].phase.Writing? && s.flights[id].phase.write.RecoverWrite?
    ensures var (w, s') := (s.flights[id].phase.write, Next(env, s, CommitStep(id, stamp)));
            && s'.flights[id].phase == Counting
            && RecoveryTotal(s'.db, w.user) ==
               RecoveryTotal(s.db, w.user) + if StillLive(CodesOf(s.db.codes, w.user), w.codeId) then 1 else 0
  {
    ReachableLogged(env, s);
    ReachableSafe(env, s);
    AbortsIff(env, s, id);
    CommitSpends(s.db, s.flights[id].phase.write, stamp);
  }
}
