/**
 * One user's part of a run of many users is a run of that user alone: the same answers, the same record, and the
 * same code and audit rows up to the ids the shared sequences hand out.
 */
module Projection {
  import opened Types
  import opened Tables
  import opened Handlers
  import opened Serial

  predicate SameRow(a: CodeRow, b: CodeRow) {
    a.(id := 0) == b.(id := 0)
  }

  predicate SameRows(a: seq<CodeRow>, b: seq<CodeRow>) {
    |a| == |b| && forall i :: 0 <= i < |a| ==> SameRow(a[i], b[i])
  }

  predicate SameLog(a: seq<AuditRow>, b: seq<AuditRow>) {
    |a| == |b| && forall i :: 0 <= i < |a| ==> a[i].(id := 0) == b[i].(id := 0)
  }

  /** The two databases hold the same for `u`, up to ids. */
  predicate SameView(a: Db, b: Db, u: UserId) {
    && Lookup(a, u) == Lookup(b, u)
    && SameRows(CodesOf(a.codes, u), CodesOf(b.codes, u))
    && SameLog(AuditOf(a.audit, u), AuditOf(b.audit, u))
  }

  lemma {:induction false} SameSpent(a: seq<CodeRow>, b: seq<CodeRow>)
    requires SameRows(a, b)
    ensures SameRows(Spent(a), Spent(b)) && |Live(a)| == |Live(b)|
  {
    if a == [] {
    } else {
      assert SameRow(Last(a), Last(b));
      SameSpent(Front(a), Front(b));
    }
  }

  /** The candidate scan stops at the same place. */
  lemma {:induction false} SameMatch(a: seq<CodeRow>, b: seq<CodeRow>, code: string)
    requires SameRows(a, b)
    ensures FirstMatch(a, code) == FirstMatch(b, code)
  {
    if a == [] {
    } else {
      assert SameRow(Last(a), Last(b));
      SameMatch(Front(a), Front(b), code);
      var best := FirstMatch(Front(a), code);
      if best.Some? {
        assert SameRow(a[best.value], b[best.value]);
      }
    }
  }

  /** Two writes ask for the same, up to the id of the code they redeem. */
  predicate SameWrite(a: Write, ma: seq<CodeRow>, b: Write, mb: seq<CodeRow>) {
    if a.RecoverWrite? then
      && b.RecoverWrite? && a.user == b.user
      && exists p :: 0 <= p < |ma| && p < |mb| && !ma[p].consumed && a.codeId == ma[p].id && b.codeId == mb[p].id
    else a == b
  }

  lemma SameRowsAppend(a: seq<CodeRow>, b: seq<CodeRow>, ra: seq<CodeRow>, rb: seq<CodeRow>)
    requires SameRows(a, b) && SameRows(ra, rb)
    ensures SameRows(a + ra, b + rb)
  {
  }

  lemma SameMineAfter(a: Db, b: Db, wa: Write, wb: Write, t: Time)
    requires Ordered(a.codes, a.nextCode) && Ordered(b.codes, b.nextCode) && SameView(a, b, wa.user)
    requires SameWrite(wa, CodesOf(a.codes, wa.user), wb, CodesOf(b.codes, wa.user))
    ensures SameRows(MineAfter(CodesOf(a.codes, wa.user), wa, a.nextCode, t), MineAfter(CodesOf(b.codes, wa.user), wb, b.nextCode, t))
  {
    var (ma, mb) := (CodesOf(a.codes, wa.user), CodesOf(b.codes, wa.user));
    if wa.EnableWrite? {
      SameSpent(ma, mb);
      SameRowsAppend(Spent(ma), Spent(mb), NewCodes(wa.user, wa.hashes, a.nextCode), NewCodes(wa.user, wa.hashes, b.nextCode));
    } else if wa.RecoverWrite? {
      var p :| 0 <= p < |ma| && p < |mb| && !ma[p].consumed && wa.codeId == ma[p].id && wb.codeId == mb[p].id;
      OrderedCodesOf(a.codes, wa.user, a.nextCode);
      OrderedCodesOf(b.codes, wa.user, b.nextCode);
      ConsumeAt(ma, a.nextCode, p, t);
      ConsumeAt(mb, b.nextCode, p, t);
    } else {
      SameSpent(ma, mb);
    }
  }

  lemma SameLogSnoc(a: seq<AuditRow>, b: seq<AuditRow>, ra: seq<AuditRow>, rb: seq<AuditRow>)
    requires SameLog(a, b) && SameLog(ra, rb)
    ensures SameLog(a + ra, b + rb)
  {
  }

  lemma SameRowAfter(wa: Write, ma: seq<CodeRow>, wb: Write, mb: seq<CodeRow>, row: Option<Row>)
    requires SameWrite(wa, ma, wb, mb)
    ensures wa.user == wb.user && RowAfter(wa, row) == RowAfter(wb, row) && EventOf(wa) == EventOf(wb)
  {
  }

  lemma SameCommit(a: Db, b: Db, wa: Write, wb: Write, t: Time)
    requires Ordered(a.codes, a.nextCode) && Ordered(b.codes, b.nextCode) && SameView(a, b, wa.user)
    requires SameWrite(wa, CodesOf(a.codes, wa.user), wb, CodesOf(b.codes, wa.user))
    requires !Aborts(a, wa)
    ensures !Aborts(b, wb) && SameView(Commit(a, wa, t), Commit(b, wb, t), wa.user)
  {
    SameRowAfter(wa, CodesOf(a.codes, wa.user), wb, CodesOf(b.codes, wa.user), Lookup(a, wa.user));
    OwnTables(a, wa, t);
    OwnTables(b, wb, t);
    SameMineAfter(a, b, wa, wb, t);
    if EventOf(wa).Some? {
      SameLogSnoc(AuditOf(a.audit, wa.user), AuditOf(b.audit, wa.user),
                  [AuditRow(|a.audit|, wa.user, EventOf(wa).value, t)], [AuditRow(|b.audit|, wa.user, EventOf(wb).value, t)]);
    }
  }

  lemma SameReply(a: Db, b: Db, wa: Write, wb: Write, t: Time)
    requires !Aborts(a, wa) && !Aborts(b, wb)
    requires SameWrite(wa, CodesOf(a.codes, wa.user), wb, CodesOf(b.codes, wa.user))
    requires SameView(Commit(a, wa, t), Commit(b, wb, t), wa.user)
    ensures ReplyTo(a, wa, Commit(a, wa, t)) == ReplyTo(b, wb, Commit(b, wb, t))
  {
    SameSpent(CodesOf(Commit(a, wa, t).codes, wa.user), CodesOf(Commit(b, wb, t).codes, wa.user));
  }

  lemma SameScan(a: Db, b: Db, req: Request, snap: Option<Row>)
    requires req.Recover? && SameView(a, b, req.user)
    ensures var (d, d') := (DecideRecover(req, snap, a.codes), DecideRecover(req, snap, b.codes));
            if d.Answer? then d' == d
            else d'.Proceed? && SameWrite(d.write, CodesOf(a.codes, req.user), d'.write, CodesOf(b.codes, req.user))
  {
    SameMatch(CodesOf(a.codes, req.user), CodesOf(b.codes, req.user), req.code);
  }

  /** Both decide alike. */
  lemma SameDecision(env: Env, a: Db, b: Db, req: Request, t: Time)
    requires SameView(a, b, req.user)
    ensures var snap := Lookup(a, req.user);
            var (d, d') := (Decide(env, req, t, snap, a.codes, t), Decide(env, req, t, snap, b.codes, t));
            if d.Answer? then d' == d
            else d'.Proceed? && SameWrite(d.write, CodesOf(a.codes, req.user), d'.write, CodesOf(b.codes, req.user))
  {
    if req.Recover? {
      SameScan(a, b, req, Lookup(a, req.user));
    }
  }

  /** Databases that look the same to a user answer the user's requests alike and go on looking the same. */
  lemma SameAnswer(env: Env, a: Db, b: Db, req: Request, t: Time)
    requires SerialOk(env, a) && SerialOk(env, b) && SameView(a, b, req.user)
    ensures var (ha, hb) := (Handle(env, a, req, t), Handle(env, b, req, t));
            ha.outcome == hb.outcome && SameView(ha.db, hb.db, req.user)
  {
    assert UserOk(env, a, req.user);
    SameDecision(env, a, b, req, t);
    DecideFits(env, a, req, t);
    var (d, d') := (Decide(env, req, t, Lookup(a, req.user), a.codes, t), Decide(env, req, t, Lookup(b, req.user), b.codes, t));
    if Validate(req).None? && d.Proceed? {
      FitsCommits(env, a, d.write);
      SameCommit(a, b, d.write, d'.write, t);
      SameReply(a, b, d.write, d'.write, t);
    }
  }

  lemma SameViewVia(a: Db, a': Db, b: Db, u: UserId)
    requires SameView(a, b, u)
    requires Lookup(a', u) == Lookup(a, u) && CodesOf(a'.codes, u) == CodesOf(a.codes, u) && AuditOf(a'.audit, u) == AuditOf(a.audit, u)
    ensures SameView(a', b, u)
  {
  }

  /** Dropping everybody else's requests from a run changes neither what `u` is told nor what is stored for `u`. */
  lemma {:induction false} RunProjects(env: Env, calls: seq<Call>, u: UserId)
    ensures SameView(Run(env, EMPTY_DB, calls), Run(env, EMPTY_DB, CallsOf(calls, u)), u)
    ensures calls != [] && Last(calls).req.user == u ==>
              LastOutcome(env, EMPTY_DB, calls) == LastOutcome(env, EMPTY_DB, CallsOf(calls, u))
    decreases |calls|
  {
    if calls == [] {
    } else {
      var (all, mine, last) := (Run(env, EMPTY_DB, Front(calls)), Run(env, EMPTY_DB, CallsOf(Front(calls), u)), Last(calls));
      RunProjects(env, Front(calls), u);
      SerialRunOk(env, Front(calls));
      SerialRunOk(env, CallsOf(Front(calls), u));
      if last.req.user == u {
        SameAnswer(env, all, mine, last.req, last.t);
        assert Front(CallsOf(calls, u)) == CallsOf(Front(calls), u);
      } else {
        OthersUntouched(env, all, last.req, last.t, u);
        SameViewVia(all, Run(env, EMPTY_DB, calls), mine, u);
      }
    }
  }
}
