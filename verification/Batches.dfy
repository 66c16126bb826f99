/** The unconsumed codes of a user all come from one enrolment, whatever interleaves. */
module Batches {
  import opened Types
  import opened Tables
  import opened Handlers
  import opened Interleaved
  import opened Lifecycle

  /** `c` is one of the ten rows that the latest committed `enable` of its user inserted. */
  predicate OfBatch(h: History, c: CodeRow) {
    h.batch <= c.id < h.batch + 10 && c.index == c.id - h.batch
  }

  /** The table constraint `consumed_at_matches_consumed`. */
  predicate ConsumedChecks(c: CodeRow) {
    c.consumed == c.consumedAt.Some?
  }

  predicate RowOfBatch(s: System, c: CodeRow) {
    ConsumedChecks(c) && (c.consumed || OfBatch(HistoryOf(s, c.user), c))
  }

  ghost predicate Batched(s: System) {
    && Ordered(s.db.codes, s.db.nextCode)
    && forall c :: c in s.db.codes ==> RowOfBatch(s, c)
  }

  /** A row after a write is an old row that still belongs to its batch, or one of the ten new ones. */
  lemma CommitBatched(s: System, id: nat, stamp: Time, c: CodeRow)
    requires Batched(s) && Waiting(s, id) && s.flights[id].phase.Writing?
    requires s.flights[id].phase.write.EnableWrite? ==> |s.flights[id].phase.write.hashes| == BACKUP_CODE_COUNT
    requires c in DoCommit(s, id, stamp).db.codes
    ensures RowOfBatch(DoCommit(s, id, stamp), c)
  {
    var w := s.flights[id].phase.write;
    var after := DoCommit(s, id, stamp).db.codes;
    if Aborts(s.db, w) || w.VerifyWrite? || w.LoginWrite? || w.FailureWrite? {
      assert c in s.db.codes;
    } else {
      var i :| 0 <= i < |after| && after[i] == c;
      if w.RecoverWrite? {
        assert s.db.codes[i] in s.db.codes;
      } else if i < |DeleteLive(s.db.codes, w.user)| {
        DeleteSubset(s.db.codes, w.user);
        assert DeleteLive(s.db.codes, w.user)[i] in DeleteLive(s.db.codes, w.user);
      }
    }
  }

  lemma NextBatched(env: Env, s: System, step: Step)
    requires Safe(env, s) && Batched(s)
    ensures Batched(Next(env, s, step))
  {
    if step.CommitStep? && Waiting(s, step.id) && s.flights[step.id].phase.Writing? {
      assert FlightSafe(env, s, s.flights[step.id]);
      OrderedCommit(s.db, s.flights[step.id].phase.write, step.stamp);
      forall c | c in Next(env, s, step).db.codes ensures RowOfBatch(Next(env, s, step), c) {
        CommitBatched(s, step.id, step.stamp, c);
      }
    } else {
      forall c | c in s.db.codes ensures RowOfBatch(Next(env, s, step), c) {
        assert RowOfBatch(s, c);
      }
    }
  }

  lemma {:induction false} ExecBatched(env: Env, s: System, steps: seq<Step>)
    requires Safe(env, s) && Batched(s)
    ensures Batched(Exec(env, s, steps))
    decreases |steps|
  {
    if steps == [] {
    } else {
      ExecBatched(env, s, Front(steps));
      ExecSafe(env, s, Front(steps));
      NextBatched(env, Exec(env, s, Front(steps)), Last(steps));
    }
  }

  lemma ReachableBatched(env: Env, s: System)
    requires Reachable(env, s)
    ensures Batched(s)
  {
    var clock, steps :| s == Exec(env, InitialSystem(clock), steps);
    ExecBatched(env, InitialSystem(clock), steps);
  }

  /** In every reachable state every code row satisfies its constraint and no two rows share an id. */
  lemma CodeRowsWellFormed(env: Env, s: System)
    requires Reachable(env, s)
    ensures forall c :: c in s.db.codes ==> ConsumedChecks(c)
    ensures forall i, j :: 0 <= i < j < |s.db.codes| ==> s.db.codes[i].id < s.db.codes[j].id
  {
    ReachableBatched(env, s);
    forall c | c in s.db.codes ensures ConsumedChecks(c) {
      assert RowOfBatch(s, c);
    }
    forall i, j | 0 <= i < j < |s.db.codes| ensures s.db.codes[i].id < s.db.codes[j].id {
      OrderedUnique(s.db.codes, s.db.nextCode, i, j);
    }
  }

  predicate HasId(codes: seq<CodeRow>, id: nat) {
    exists i :: 0 <= i < |codes| && codes[i].id == id
  }

  /** A write brings no row with an id handed out before. */
  lemma CommitIds(db: Db, w: Write, stamp: Time, id: nat)
    requires id < db.nextCode && HasId(Commit(db, w, stamp).codes, id)
    ensures HasId(db.codes, id)
  {
    var after := Commit(db, w, stamp).codes;
    var i :| 0 <= i < |after| && after[i].id == id;
    if !Aborts(db, w) && (w.EnableWrite? || w.DisableWrite?) {
      var kept := DeleteLive(db.codes, w.user);
      DeleteSubset(db.codes, w.user);
      assert i < |kept|;
      assert after[i] == kept[i] && kept[i] in db.codes;
    } else {
      assert db.codes[i].id == id;
    }
  }

  /** The sequence of ids only moves forward, and an id it has passed belongs to no row inserted later. */
  lemma {:induction false} IdsNeverReturn(env: Env, s: System, steps: seq<Step>)
    ensures s.db.nextCode <= Exec(env, s, steps).db.nextCode
    ensures forall id: nat :: id < s.db.nextCode && !HasId(s.db.codes, id) ==> !HasId(Exec(env, s, steps).db.codes, id)
    decreases |steps|
  {
    if steps == [] {
    } else {
      IdsNeverReturn(env, s, Front(steps));
      NextIds(env, Exec(env, s, Front(steps)), Last(steps));
    }
  }

  lemma NextIds(env: Env, s: System, step: Step)
    ensures s.db.nextCode <= Next(env, s, step).db.nextCode
    ensures forall id: nat :: id < s.db.nextCode && HasId(Next(env, s, step).db.codes, id) ==> HasId(s.db.codes, id)
  {
    if step.CommitStep? && Waiting(s, step.id) && s.flights[step.id].phase.Writing? {
      var w := s.flights[step.id].phase.write;
      forall id: nat | id < s.db.nextCode && HasId(Next(env, s, step).db.codes, id) ensures HasId(s.db.codes, id) {
        CommitIds(s.db, w, step.stamp, id);
      }
    }
  }

  lemma {:induction false} OrderedRange(rows: seq<CodeRow>, lo: int, hi: int)
    requires Ordered(rows, hi) && lo <= hi
    requires forall i :: 0 <= i < |rows| ==> lo <= rows[i].id
    ensures |rows| <= hi - lo
  {
    if rows == [] {
    } else {
      OrderedRange(Front(rows), lo, Last(rows).id);
    }
  }

  /**
   * In every reachable state a user's redeemable codes are rows of the latest committed enrolment, at most ten of
   * them, no two with the same index.
   */
  lemma OneBatchAtATime(env: Env, s: System, u: UserId)
    requires Reachable(env, s)
    ensures var live := Live(CodesOf(s.db.codes, u));
            && |live| <= 10
            && (forall i :: 0 <= i < |live| ==> live[i].user == u && OfBatch(HistoryOf(s, u), live[i]))
            && (forall i, j :: 0 <= i < j < |live| ==> live[i].index < live[j].index)
  {
    ReachableBatched(env, s);
    var (mine, h) := (CodesOf(s.db.codes, u), HistoryOf(s, u));
    var live := Live(mine);
    OrderedCodesOf(s.db.codes, u, s.db.nextCode);
    OrderedLive(mine, s.db.nextCode);
    forall i | 0 <= i < |live| ensures live[i].user == u && OfBatch(h, live[i]) {
      LiveRow(mine, i);
      var k :| 0 <= k < |mine| && mine[k] == live[i];
      CodesOfUser(s.db.codes, u, k);
      assert RowOfBatch(s, live[i]);
    }
    forall i, j | 0 <= i < j < |live| ensures live[i].index < live[j].index {
      OrderedUnique(live, s.db.nextCode, i, j);
    }
    OrderedRange(live, h.batch, h.batch + BACKUP_CODE_COUNT);
  }
}
