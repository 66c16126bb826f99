/** Requests handled one at a time: the audit log replays, the stock of codes is conserved, users do not touch each other. */
module Serial {
  import opened Types
  import opened Tables
  import opened Handlers
  import opened Lifecycle

  // ---------- runs ----------

  datatype Call = Call(req: Request, t: Time)

  function Run(env: Env, db: Db, calls: seq<Call>): Db
    decreases |calls|
  {
    if calls == [] then db
    else Handle(env, Run(env, db, Front(calls)), Last(calls).req, Last(calls).t).db
  }

  /** What the last call of a run is told. */
  function LastOutcome(env: Env, db: Db, calls: seq<Call>): Outcome
    requires calls != []
  {
    Handle(env, Run(env, db, Front(calls)), Last(calls).req, Last(calls).t).outcome
  }

  /** The calls of one user. */
  function CallsOf(calls: seq<Call>, u: UserId): seq<Call> {
    if calls == [] then []
    else if Last(calls).req.user == u then CallsOf(Front(calls), u) + [Last(calls)]
    else CallsOf(Front(calls), u)
  }

  // ---------- the audit automaton ----------

  /** Off: `disabled` stays off, `enabled` switches on. On: `verified` and `login` stay on, `disabled` and `recovered` switch off. */
  function ReplayEvent(on: bool, e: AuditEvent): Option<bool> {
    match e
    case EvEnabled => if on then None else Some(true)
    case EvDisabled => Some(false)
    case EvVerified => if on then Some(true) else None
    case EvLogin => if on then Some(true) else None
    case EvRecovered => if on then Some(false) else None
  }

  function Replay(log: seq<AuditRow>): Option<bool> {
    if log == [] then Some(false)
    else
      var before := Replay(Front(log));
      if before.None? then None else ReplayEvent(before.value, Last(log).event)
  }

  function CountEvent(log: seq<AuditRow>, e: AuditEvent): nat {
    if log == [] then 0 else CountEvent(Front(log), e) + (if Last(log).event == e then 1 else 0)
  }

  // ---------- the invariant of serial runs ----------

  /** Ten unconsumed codes, numbered 0 to 9 in table order. */
  predicate FullStock(live: seq<CodeRow>) {
    && |live| == BACKUP_CODE_COUNT
    && forall i :: 0 <= i < |live| ==> live[i].index == i && live[i].hash.Phc?
  }

  /** What `disable` or `recover`, whichever came last, leaves behind. */
  predicate IdleStock(live: seq<CodeRow>, log: seq<AuditRow>) {
    log != [] &&
    (|| (Last(log).event == EvDisabled && live == [])
     || (Last(log).event == EvRecovered && |live| == BACKUP_CODE_COUNT - 1))
  }

  predicate CounterOk(row: Row) {
    && row.failedAttempts >= 0
    && (row.lockedUntil.Some? <==> row.failedAttempts >= MAX_FAILED_ATTEMPTS)
    && (!(row.enabled || row.pending) ==> row.failedAttempts == 0)
  }

  predicate AccountOk(env: Env, row: Option<Row>, mine: seq<CodeRow>, log: seq<AuditRow>) {
    match row
    case None => mine == [] && log == []
    case Some(r) =>
      && RowSafe(env, r)
      && CounterOk(r)
      && (if r.enabled || r.pending then FullStock(Live(mine)) else IdleStock(Live(mine), log))
      && Replay(log) == Some(r.enabled)
      && CountEvent(log, EvRecovered) == |Spent(mine)|
  }

  predicate UserOk(env: Env, db: Db, u: UserId) {
    AccountOk(env, Lookup(db, u), CodesOf(db.codes, u), AuditOf(db.audit, u))
  }

  ghost predicate SerialOk(env: Env, db: Db) {
    Ordered(db.codes, db.nextCode) && forall u :: UserOk(env, db, u)
  }

  // ---------- what a write meets when nothing came in between ----------

  /** The write fits the rows it was decided from. */
  predicate Fits(env: Env, db: Db, w: Write) {
    var row := Lookup(db, w.user);
    var mine := CodesOf(db.codes, w.user);
    match w
    case EnableWrite(_, _, _, _, _, hashes, _) =>
      && (row.None? || !row.value.enabled) && WriteSafe(env, w)
      && forall i :: 0 <= i < |hashes| ==> hashes[i].Phc?
    case FailureWrite(_, _) => row.Some? && (row.value.enabled || row.value.pending)
    case VerifyWrite(_, activating) => row.Some? && (row.value.enabled || row.value.pending) && activating == row.value.pending
    case LoginWrite(_) => row.Some? && row.value.enabled
    case DisableWrite(_) => row.Some? && (row.value.enabled || row.value.pending)
    case RecoverWrite(_, id) =>
      && row.Some? && row.value.enabled
      && exists p :: 0 <= p < |mine| && mine[p].id == id && !mine[p].consumed
  }

  lemma DecideFits(env: Env, db: Db, req: Request, t: Time)
    requires UserOk(env, db, req.user)
    ensures var d := Decide(env, req, t, Lookup(db, req.user), db.codes, t);
            d.Proceed? ==> d.write.user == req.user && Fits(env, db, d.write)
  {
    DecideSafe(env, req, t, Lookup(db, req.user), db.codes, t);
    if Lookup(db, req.user).Some? {
      UsableRow(env, Lookup(db, req.user).value);
    }
  }

  lemma FitsCommits(env: Env, db: Db, w: Write)
    requires UserOk(env, db, w.user) && Fits(env, db, w)
    ensures !Aborts(db, w)
  {
  }

  // ---------- the tables of one user after a write ----------

  function MineAfter(mine: seq<CodeRow>, w: Write, start: nat, stamp: Time): seq<CodeRow> {
    match w
    case EnableWrite(u, _, _, _, _, hashes, _) => Spent(mine) + NewCodes(u, hashes, start)
    case DisableWrite(_) => Spent(mine)
    case RecoverWrite(_, id) => Consume(mine, id, stamp)
    case _ => mine
  }

  lemma OwnTables(db: Db, w: Write, stamp: Time)
    requires !Aborts(db, w)
    ensures var (u, db') := (w.user, Commit(db, w, stamp));
            && Lookup(db', u) == RowAfter(w, Lookup(db, u))
            && CodesOf(db'.codes, u) == MineAfter(CodesOf(db.codes, u), w, db.nextCode, stamp)
            && AuditOf(db'.audit, u) == AuditOf(db.audit, u) +
                 (if EventOf(w).Some? then [AuditRow(|db.audit|, u, EventOf(w).value, stamp)] else [])
  {
    CodesOfDelete(db.codes, w.user, w.user);
    match w {
    case EnableWrite(u, _, _, _, _, hashes, _) =>
      CodesOfAppend(DeleteLive(db.codes, u), NewCodes(u, hashes, db.nextCode), u);
      CodesOfAllMine(NewCodes(u, hashes, db.nextCode), u);
    case RecoverWrite(u, id) => CodesOfConsume(db.codes, id, stamp, u);
    case _ =>
    }
    if EventOf(w).Some? {
      AuditOfAppend(db.audit, w.user, EventOf(w).value, stamp, w.user);
    }
  }

  lemma CodesElsewhere(db: Db, w: Write, stamp: Time, v: UserId)
    requires v != w.user
    requires w.RecoverWrite? ==> forall c :: c in db.codes && c.id == w.codeId ==> c.user != v
    ensures CodesOf(CodesAfter(db, w, stamp), v) == CodesOf(db.codes, v)
  {
    if w.RecoverWrite? {
      var mine := CodesOf(db.codes, v);
      CodesOfConsume(db.codes, w.codeId, stamp, v);
      forall i | 0 <= i < |mine| ensures mine[i].id != w.codeId {
        CodesOfUser(db.codes, v, i);
      }
    } else {
      CodesOfDelete(db.codes, w.user, v);
      if w.EnableWrite? {
        CodesOfAppend(DeleteLive(db.codes, w.user), NewCodes(w.user, w.hashes, db.nextCode), v);
        CodesOfAllMine(NewCodes(w.user, w.hashes, db.nextCode), w.user);
      }
    }
  }

  /** A write for one user leaves the record, the code rows and the audit rows of every other user as they were. */
  lemma TablesElsewhere(db: Db, w: Write, stamp: Time, v: UserId)
    requires v != w.user
    requires w.RecoverWrite? ==> forall c :: c in db.codes && c.id == w.codeId ==> c.user != v
    ensures var db' := Commit(db, w, stamp);
            && Lookup(db', v) == Lookup(db, v)
            && CodesOf(db'.codes, v) == CodesOf(db.codes, v)
            && AuditOf(db'.audit, v) == AuditOf(db.audit, v)
  {
    CodesElsewhere(db, w, stamp, v);
    if EventOf(w).Some? {
      AuditOfAppend(db.audit, w.user, EventOf(w).value, stamp, v);
    }
  }

  lemma OtherTables(env: Env, db: Db, w: Write, stamp: Time, v: UserId)
    requires Ordered(db.codes, db.nextCode) && Fits(env, db, w) && v != w.user
    ensures var db' := Commit(db, w, stamp);
            && Lookup(db', v) == Lookup(db, v)
            && CodesOf(db'.codes, v) == CodesOf(db.codes, v)
            && AuditOf(db'.audit, v) == AuditOf(db.audit, v)
  {
    if w.RecoverWrite? {
      var mine := CodesOf(db.codes, w.user);
      var p :| 0 <= p < |mine| && mine[p].id == w.codeId && !mine[p].consumed;
      OwnerOfId(db, w.user, p);
    }
    TablesElsewhere(db, w, stamp, v);
  }

  /** A row found among a user's rows is the only row with its id. */
  lemma OwnerOfId(db: Db, u: UserId, p: nat)
    requires Ordered(db.codes, db.nextCode) && p < |CodesOf(db.codes, u)|
    ensures var id := CodesOf(db.codes, u)[p].id;
            id < db.nextCode && forall c :: c in db.codes && c.id == id ==> c.user == u
  {
    var row := CodesOf(db.codes, u)[p];
    CodesOfUser(db.codes, u, p);
    var k :| 0 <= k < |db.codes| && db.codes[k] == row;
    OrderedBelow(db.codes, db.nextCode, k);
    forall c | c in db.codes && c.id == row.id ensures c.user == u {
      var j :| 0 <= j < |db.codes| && db.codes[j] == c;
      if j < k { OrderedUnique(db.codes, db.nextCode, j, k); } else if k < j { OrderedUnique(db.codes, db.nextCode, k, j); }
    }
  }

  // ---------- preservation ----------

  lemma ReplaySnoc(log: seq<AuditRow>, r: AuditRow)
    ensures Replay(log + [r]) == if Replay(log).None? then None else ReplayEvent(Replay(log).value, r.event)
    ensures CountEvent(log + [r], EvRecovered) == CountEvent(log, EvRecovered) + if r.event == EvRecovered then 1 else 0
  {
    assert Front(log + [r]) == log;
  }

  /** The stock a write leaves: ten after `enable`, none after `disable`, one less after `recover`. */
  predicate StockMoved(w: Write, mine: seq<CodeRow>, after: seq<CodeRow>) {
    match w
    case EnableWrite(_, _, _, _, _, _, _) => FullStock(Live(after)) && Spent(after) == Spent(mine)
    case DisableWrite(_) => Live(after) == [] && Spent(after) == Spent(mine)
    case RecoverWrite(_, _) => |Live(after)| == |Live(mine)| - 1 && |Spent(after)| == |Spent(mine)| + 1
    case _ => after == mine
  }

  lemma StockAfter(env: Env, db: Db, w: Write, stamp: Time)
    requires Ordered(db.codes, db.nextCode) && Fits(env, db, w)
    ensures var mine := CodesOf(db.codes, w.user); StockMoved(w, mine, MineAfter(mine, w, db.nextCode, stamp))
  {
    var mine := CodesOf(db.codes, w.user);
    SpentOnly(mine);
    match w
    case EnableWrite(u, _, _, _, _, hashes, _) =>
      var added := NewCodes(u, hashes, db.nextCode);
      FreshAllLive(added);
      LiveAppend(Spent(mine), added);
      SpentAppend(Spent(mine), added);
    case RecoverWrite(u, id) =>
      var p :| 0 <= p < |mine| && mine[p].id == id && !mine[p].consumed;
      OrderedCodesOf(db.codes, u, db.nextCode);
      ConsumeAt(mine, db.nextCode, p, stamp);
      RedeemMovesOne(mine, p, stamp);
    case _ =>
  }

  lemma AccountStep(env: Env, row: Option<Row>, mine: seq<CodeRow>, log: seq<AuditRow>,
                    w: Write, after: seq<CodeRow>, id: nat, stamp: Time)
    requires AccountOk(env, row, mine, log) && StockMoved(w, mine, after)
    requires RowAfter(w, row).Some? && RowSafe(env, RowAfter(w, row).value)
    requires match w
             case EnableWrite(_, _, _, _, _, _, _) => row.None? || !row.value.enabled
             case VerifyWrite(_, activating) => row.Some? && (row.value.enabled || row.value.pending) && activating == row.value.pending
             case LoginWrite(_) => row.Some? && row.value.enabled
             case RecoverWrite(_, _) => row.Some? && row.value.enabled
             case _ => row.Some? && (row.value.enabled || row.value.pending)
    ensures var log' := log + if EventOf(w).Some? then [AuditRow(id, w.user, EventOf(w).value, stamp)] else [];
            AccountOk(env, RowAfter(w, row), after, log')
  {
    if EventOf(w).Some? {
      ReplaySnoc(log, AuditRow(id, w.user, EventOf(w).value, stamp));
    } else {
      assert log + [] == log;
    }
  }

  lemma OwnOk(env: Env, db: Db, w: Write, stamp: Time)
    requires Ordered(db.codes, db.nextCode) && UserOk(env, db, w.user) && Fits(env, db, w)
    ensures UserOk(env, Commit(db, w, stamp), w.user)
  {
    FitsCommits(env, db, w);
    OwnTables(db, w, stamp);
    StockAfter(env, db, w, stamp);
    RowAfterSafe(env, db, w);
    var mine := CodesOf(db.codes, w.user);
    AccountStep(env, Lookup(db, w.user), mine, AuditOf(db.audit, w.user), w,
                MineAfter(mine, w, db.nextCode, stamp), |db.audit|, stamp);
  }

  lemma HandleOk(env: Env, db: Db, req: Request, t: Time)
    requires SerialOk(env, db)
    ensures SerialOk(env, Handle(env, db, req, t).db)
  {
    assert UserOk(env, db, req.user);
    DecideFits(env, db, req, t);
    var d := Decide(env, req, t, Lookup(db, req.user), db.codes, t);
    if Validate(req).None? && d.Proceed? {
      OrderedCommit(db, d.write, t);
      forall v ensures UserOk(env, Commit(db, d.write, t), v) {
        assert UserOk(env, db, v);
        if v == req.user { OwnOk(env, db, d.write, t); } else { OtherTables(env, db, d.write, t, v); }
      }
    }
  }

  lemma {:induction false} RunOk(env: Env, db: Db, calls: seq<Call>)
    requires SerialOk(env, db)
    ensures SerialOk(env, Run(env, db, calls))
    decreases |calls|
  {
    if calls == [] {
    } else {
      RunOk(env, db, Front(calls));
      HandleOk(env, Run(env, db, Front(calls)), Last(calls).req, Last(calls).t);
    }
  }

  lemma SerialRunOk(env: Env, calls: seq<Call>)
    ensures SerialOk(env, Run(env, EMPTY_DB, calls))
  {
    RunOk(env, EMPTY_DB, calls);
  }

  // ---------- theorems ----------

  /** The database some serial run leads to from an empty one. */
  ghost predicate Reached(env: Env, db: Db) {
    exists calls :: db == Run(env, EMPTY_DB, calls)
  }

  lemma ReachedOk(env: Env, db: Db)
    requires Reached(env, db)
    ensures SerialOk(env, db)
  {
    var calls :| db == Run(env, EMPTY_DB, calls);
    SerialRunOk(env, calls);
  }

  /** The audit log of every user after every run is accepted by the automaton, which ends On exactly when the record is enabled. */
  lemma {:induction false} AuditReplays(env: Env, db: Db, u: UserId)
    requires Reached(env, db)
    ensures Replay(AuditOf(db.audit, u)) == Some(u in db.records && db.records[u].enabled)
  {
    ReachedOk(env, db);
    assert UserOk(env, db, u);
  }

  /** An active or pending record has ten redeemable codes numbered 0 to 9; an idle one nine after `recover`, none after `disable`. */
  lemma {:induction false} CodeStock(env: Env, db: Db, u: UserId)
    requires Reached(env, db) && u in db.records
    ensures var live := Live(CodesOf(db.codes, u));
            if db.records[u].enabled || db.records[u].pending then
              |live| == 10 && forall i :: 0 <= i < |live| ==> live[i].index == i
            else
              var log := AuditOf(db.audit, u);
              log != [] && |live| == if Last(log).event == EvRecovered then 9 else 0
  {
    ReachedOk(env, db);
    assert UserOk(env, db, u);
  }

  /** Consumed rows, `recovered` events and the recovery-log total agree. */
  lemma {:induction false} RedemptionsConserved(env: Env, db: Db, u: UserId)
    requires Reached(env, db)
    ensures CountEvent(AuditOf(db.audit, u), EvRecovered) == RecoveryTotal(db, u)
  {
    ReachedOk(env, db);
    assert UserOk(env, db, u);
  }

  /** No request of another user changes a user's record, code rows or audit rows. */
  lemma OthersUntouched(env: Env, db: Db, req: Request, t: Time, v: UserId)
    requires SerialOk(env, db) && v != req.user
    ensures var db' := Handle(env, db, req, t).db;
            && Lookup(db', v) == Lookup(db, v)
            && CodesOf(db'.codes, v) == CodesOf(db.codes, v)
            && AuditOf(db'.audit, v) == AuditOf(db.audit, v)
  {
    assert UserOk(env, db, req.user);
    DecideFits(env, db, req, t);
    var d := Decide(env, req, t, Lookup(db, req.user), db.codes, t);
    if Validate(req).None? && d.Proceed? {
      OtherTables(env, db, d.write, t, v);
    }
  }

  /** A `recover` succeeds exactly for an enabled record and a code some unconsumed row redeems, and it always answers 9. */
  lemma RecoverAnswersNine(env: Env, db: Db, sub: UserId, user: UserId, code: string, t: Time)
    requires SerialOk(env, db)
    ensures var h := Handle(env, db, Recover(sub, user, code), t);
            var mine := CodesOf(db.codes, user);
            && (h.outcome.Success? <==>
                  && sub == user && user in db.records && db.records[user].enabled
                  && exists p :: 0 <= p < |mine| && Redeems(mine[p], code))
            && (h.outcome.Success? ==> h.outcome == Success(RecoveredWith(9)))
  {
    var req := Request.Recover(sub, user, code);
    assert UserOk(env, db, user);
    DecideFits(env, db, req, t);
    var d := Decide(env, req, t, Lookup(db, user), db.codes, t);
    if sub == user && d.Proceed? {
      FitsCommits(env, db, d.write);
      OwnTables(db, d.write, t);
      StockAfter(env, db, d.write, t);
    }
  }

  /**
   * A successful `recover` redeems exactly one row: one of the user's, unconsumed until then and matching the
   * given code; nothing else in the table changes, and no other request consumes anything.
   */
  lemma RedeemsOneRow(env: Env, db: Db, req: Request, t: Time)
    requires SerialOk(env, db)
    ensures var h := Handle(env, db, req, t);
            if req.Recover? && h.outcome.Success? then
              exists k :: 0 <= k < |db.codes| && db.codes[k].user == req.user && Redeems(db.codes[k], req.code)
                          && h.db.codes == db.codes[k := db.codes[k].(consumed := true, consumedAt := Some(t))]
            else forall c :: c in h.db.codes && c.consumed ==> c in db.codes
  {
    var d := Decide(env, req, t, Lookup(db, req.user), db.codes, t);
    if Validate(req).None? && d.Proceed? {
      assert UserOk(env, db, req.user);
      DecideFits(env, db, req, t);
      FitsCommits(env, db, d.write);
      if req.Recover? {
        var mine := CodesOf(db.codes, req.user);
        var p := FirstMatch(mine, req.code).value;
        CodesOfUser(db.codes, req.user, p);
        var k :| 0 <= k < |db.codes| && db.codes[k] == mine[p];
        ConsumeAt(db.codes, db.nextCode, k, t);
      } else {
        ConsumedAreOld(db, d.write, t);
      }
    }
  }

  /** Answers `RecoveredWith` given to `u` in a run. */
  function Redemptions(env: Env, calls: seq<Call>, u: UserId): nat
    decreases |calls|
  {
    if calls == [] then 0
    else
      var outcome := LastOutcome(env, EMPTY_DB, calls);
      Redemptions(env, Front(calls), u) +
      (if Last(calls).req.user == u && outcome.Success? && outcome.reply.RecoveredWith? then 1 else 0)
  }

  lemma DecideReplies(env: Env, req: Request, now: Time, snap: Option<Row>, codes: seq<CodeRow>, at: Time)
    ensures var d := Decide(env, req, now, snap, codes, at);
            && (d.Answer? ==> d.outcome.Failure?)
            && (d.Proceed? && d.write.EnableWrite? ==> d.write.reply.Enrolled?)
  {
  }

  lemma TotalAfterWrite(env: Env, db: Db, w: Write, t: Time)
    requires Ordered(db.codes, db.nextCode) && UserOk(env, db, w.user) && Fits(env, db, w)
    requires w.EnableWrite? ==> w.reply.Enrolled?
    ensures var (db', outcome) := (Commit(db, w, t), ReplyTo(db, w, Commit(db, w, t)));
            RecoveryTotal(db', w.user) ==
            RecoveryTotal(db, w.user) + if outcome.Success? && outcome.reply.RecoveredWith? then 1 else 0
  {
    FitsCommits(env, db, w);
    OwnTables(db, w, t);
    StockAfter(env, db, w, t);
  }

  lemma TotalAfter(env: Env, db: Db, req: Request, t: Time)
    requires SerialOk(env, db)
    ensures var h := Handle(env, db, req, t);
            RecoveryTotal(h.db, req.user) ==
            RecoveryTotal(db, req.user) + if h.outcome.Success? && h.outcome.reply.RecoveredWith? then 1 else 0
  {
    assert UserOk(env, db, req.user);
    DecideFits(env, db, req, t);
    DecideReplies(env, req, t, Lookup(db, req.user), db.codes, t);
    var d := Decide(env, req, t, Lookup(db, req.user), db.codes, t);
    if Validate(req).None? && d.Proceed? {
      TotalAfterWrite(env, db, d.write, t);
    }
  }

  /** The recovery-log total is the number of times the user was told of a successful recovery: no row counts twice. */
  lemma {:induction false} RedemptionsCounted(env: Env, calls: seq<Call>, u: UserId)
    ensures RecoveryTotal(Run(env, EMPTY_DB, calls), u) == Redemptions(env, calls, u)
    decreases |calls|
  {
    if calls == [] {
    } else {
      var (db, last) := (Run(env, EMPTY_DB, Front(calls)), Last(calls));
      RedemptionsCounted(env, Front(calls), u);
      SerialRunOk(env, Front(calls));
      if last.req.user == u {
        TotalAfter(env, db, last.req, last.t);
      } else {
        OthersUntouched(env, db, last.req, last.t, u);
      }
    }
  }

  lemma ConsumedAreOld(db: Db, w: Write, t: Time)
    requires !w.RecoverWrite?
    ensures forall c :: c in CodesAfter(db, w, t) && c.consumed ==> c in db.codes
  {
    DeleteSubset(db.codes, w.user);
  }

  // ---------- the enrolment a code belongs to ----------

  /** The first id of the codes the user's last successful `enable` inserted. */
  function EnableBase(env: Env, calls: seq<Call>, u: UserId): Option<nat> {
    if calls == [] then None
    else if Last(calls).req.user == u && Last(calls).req.Enable? && LastOutcome(env, EMPTY_DB, calls).Success? then
      Some(Run(env, EMPTY_DB, Front(calls)).nextCode)
    else EnableBase(env, Front(calls), u)
  }

  predicate OfEnrolment(base: Option<nat>, c: CodeRow) {
    base.Some? && base.value <= c.id < base.value + 10 && c.index == c.id - base.value
  }

  /** A redeemable row after a write was one before it, and not of a user whose codes it replaced, or is newly inserted. */
  lemma RedeemableBefore(db: Db, w: Write, stamp: Time, c: CodeRow)
    requires c in Commit(db, w, stamp).codes && !c.consumed && !Aborts(db, w)
    ensures || (c in db.codes && (w.EnableWrite? || w.DisableWrite? ==> c.user != w.user))
            || (w.EnableWrite? && c in NewCodes(w.user, w.hashes, db.nextCode))
  {
    DeleteSubset(db.codes, w.user);
    if w.RecoverWrite? {
      var i :| 0 <= i < |db.codes| && CodesAfter(db, w, stamp)[i] == c;
      assert c == db.codes[i];
    }
  }

  lemma EnrolmentStep(env: Env, calls: seq<Call>, c: CodeRow)
    requires calls != [] && c in Run(env, EMPTY_DB, calls).codes && !c.consumed
    requires c in Run(env, EMPTY_DB, Front(calls)).codes ==> OfEnrolment(EnableBase(env, Front(calls), c.user), c)
    ensures OfEnrolment(EnableBase(env, calls, c.user), c)
  {
    var (db, req, t) := (Run(env, EMPTY_DB, Front(calls)), Last(calls).req, Last(calls).t);
    var d := Decide(env, req, t, Lookup(db, req.user), db.codes, t);
    DecideKeepsUser(env, req, t, Lookup(db, req.user), db.codes, t);
    DecideReplies(env, req, t, Lookup(db, req.user), db.codes, t);
    if Validate(req).None? && d.Proceed? && !Aborts(db, d.write) {
      RedeemableBefore(db, d.write, t, c);
      assert d.write.EnableWrite? <==> req.Enable?;
    }
  }

  /**
   * The codes a user can redeem are rows of the user's last successful `enable`: their ids are among the ten it took
   * from the sequence, and their numbers count from its first. So a code is redeemed before the next enrolment, if at all.
   */
  lemma {:induction false} RedeemableFromOneEnrolment(env: Env, calls: seq<Call>)
    ensures forall c :: c in Run(env, EMPTY_DB, calls).codes && !c.consumed ==> OfEnrolment(EnableBase(env, calls, c.user), c)
    decreases |calls|
  {
    if calls == [] {
    } else {
      RedeemableFromOneEnrolment(env, Front(calls));
      forall c | c in Run(env, EMPTY_DB, calls).codes && !c.consumed ensures OfEnrolment(EnableBase(env, calls, c.user), c) {
        EnrolmentStep(env, calls, c);
      }
    }
  }
}
