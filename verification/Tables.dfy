/** The SQL statements on `backup_codes` and `audit_log`, and what each does to the rows of one user. */
module Tables {
  import opened Types
  import opened Crypto

  function Front<T>(s: seq<T>): seq<T>
    requires s != []
  {
    s[..|s| - 1]
  }

  function Last<T>(s: seq<T>): T
    requires s != []
  {
    s[|s| - 1]
  }

  // ---------- queries ----------

  /** WHERE user_id = u */
  function CodesOf(codes: seq<CodeRow>, u: UserId): seq<CodeRow> {
    if codes == [] then []
    else if Last(codes).user == u then CodesOf(Front(codes), u) + [Last(codes)]
    else CodesOf(Front(codes), u)
  }

  /** WHERE consumed = FALSE */
  function Live(rows: seq<CodeRow>): seq<CodeRow> {
    if rows == [] then []
    else if Last(rows).consumed then Live(Front(rows))
    else Live(Front(rows)) + [Last(rows)]
  }

  /** WHERE consumed = TRUE */
  function Spent(rows: seq<CodeRow>): seq<CodeRow> {
    if rows == [] then []
    else if Last(rows).consumed then Spent(Front(rows)) + [Last(rows)]
    else Spent(Front(rows))
  }

  function AuditOf(audit: seq<AuditRow>, u: UserId): seq<AuditRow> {
    if audit == [] then []
    else if Last(audit).user == u then AuditOf(Front(audit), u) + [Last(audit)]
    else AuditOf(Front(audit), u)
  }

  predicate Redeems(row: CodeRow, code: string) {
    !row.consumed && VerifyBackupCode(code, row.hash)
  }

  /**
   * The candidate scan of `recover` over a user's rows: among the unconsumed ones in `code_index` order, the
   * position of the first whose hash verifies.
   */
  function FirstMatch(rows: seq<CodeRow>, code: string): (p: Option<nat>)
    ensures p.Some? ==> p.value < |rows| && Redeems(rows[p.value], code)
    ensures p.Some? ==> forall q :: 0 <= q < |rows| && Redeems(rows[q], code) ==> rows[p.value].index <= rows[q].index
    ensures p.None? ==> forall q :: 0 <= q < |rows| ==> !Redeems(rows[q], code)
  {
    if rows == [] then None
    else
      var best := FirstMatch(Front(rows), code);
      if Redeems(Last(rows), code) && (best.None? || Last(rows).index < rows[best.value].index) then Some(|rows| - 1)
      else best
  }

  // ---------- statements ----------

  /** DELETE FROM backup_codes WHERE user_id = u AND consumed = FALSE */
  function DeleteLive(codes: seq<CodeRow>, u: UserId): seq<CodeRow> {
    if codes == [] then []
    else if Last(codes).user == u && !Last(codes).consumed then DeleteLive(Front(codes), u)
    else DeleteLive(Front(codes), u) + [Last(codes)]
  }

  /** The rows `enable` inserts: one per hash, numbered from 0, with ids from the sequence. */
  function NewCodes(u: UserId, hashes: seq<CodeHash>, start: nat): (rows: seq<CodeRow>)
    ensures |rows| == |hashes|
    ensures forall i :: 0 <= i < |rows| ==> rows[i] == CodeRow(start + i, u, i, hashes[i], false, None)
  {
    seq(|hashes|, i requires 0 <= i < |hashes| => CodeRow(start + i, u, i, hashes[i], false, None))
  }

  function Redeemed(row: CodeRow, stamp: Time): CodeRow {
    row.(consumed := true, consumedAt := Some(stamp))
  }

  /** UPDATE backup_codes SET consumed = TRUE, consumed_at = stamp WHERE id = id */
  function Consume(codes: seq<CodeRow>, id: nat, stamp: Time): (r: seq<CodeRow>)
    ensures |r| == |codes|
    ensures forall i :: 0 <= i < |codes| ==> r[i] == if codes[i].id == id then Redeemed(codes[i], stamp) else codes[i]
  {
    seq(|codes|, i requires 0 <= i < |codes| => if codes[i].id == id then Redeemed(codes[i], stamp) else codes[i])
  }

  function AppendAudit(audit: seq<AuditRow>, u: UserId, event: AuditEvent, stamp: Time): seq<AuditRow> {
    audit + [AuditRow(|audit|, u, event, stamp)]
  }

  lemma SetGrows(before: set<nat>, after: set<nat>, last: nat, added: bool)
    requires last !in before
    requires forall i: nat :: i in after <==> i in before || (added && i == last)
    ensures |after| == |before| + if added then 1 else 0
  {
    assert after == if added then before + {last} else before;
  }

  // ---------- row identity ----------

  /** Ids grow along the table and stay below `bound`. */
  predicate Ordered(rows: seq<CodeRow>, bound: int) {
    rows == [] || (Last(rows).id < bound && Ordered(Front(rows), Last(rows).id))
  }

  lemma {:induction false} OrderedWeaken(rows: seq<CodeRow>, b: int, b': int)
    requires Ordered(rows, b) && b <= b'
    ensures Ordered(rows, b')
  {
  }

  lemma {:induction false} OrderedBelow(rows: seq<CodeRow>, b: int, i: int)
    requires Ordered(rows, b) && 0 <= i < |rows|
    ensures rows[i].id < b
  {
    if i < |rows| - 1 {
      OrderedBelow(Front(rows), Last(rows).id, i);
    }
  }

  /** An id names at most one row. */
  lemma {:induction false} OrderedUnique(rows: seq<CodeRow>, b: int, i: int, j: int)
    requires Ordered(rows, b) && 0 <= i < j < |rows|
    ensures rows[i].id < rows[j].id
  {
    if j == |rows| - 1 {
      OrderedBelow(Front(rows), Last(rows).id, i);
    } else {
      OrderedUnique(Front(rows), Last(rows).id, i, j);
    }
  }

  lemma {:induction false} OrderedDelete(codes: seq<CodeRow>, u: UserId, b: int)
    requires Ordered(codes, b)
    ensures Ordered(DeleteLive(codes, u), b)
  {
    if codes == [] {
    } else {
      var x := Last(codes);
      OrderedDelete(Front(codes), u, x.id);
      OrderedWeaken(DeleteLive(Front(codes), u), x.id, b);
      assert Front(DeleteLive(Front(codes), u) + [x]) == DeleteLive(Front(codes), u);
    }
  }

  lemma {:induction false} OrderedCodesOf(codes: seq<CodeRow>, u: UserId, b: int)
    requires Ordered(codes, b)
    ensures Ordered(CodesOf(codes, u), b)
  {
    if codes == [] {
    } else {
      var x := Last(codes);
      OrderedCodesOf(Front(codes), u, x.id);
      OrderedWeaken(CodesOf(Front(codes), u), x.id, b);
      assert Front(CodesOf(Front(codes), u) + [x]) == CodesOf(Front(codes), u);
    }
  }

  lemma {:induction false} OrderedLive(rows: seq<CodeRow>, b: int)
    requires Ordered(rows, b)
    ensures Ordered(Live(rows), b)
  {
    if rows == [] {
    } else {
      var x := Last(rows);
      OrderedLive(Front(rows), x.id);
      OrderedWeaken(Live(Front(rows)), x.id, b);
      assert Front(Live(Front(rows)) + [x]) == Live(Front(rows));
    }
  }

  lemma {:induction false} OrderedConsume(codes: seq<CodeRow>, id: nat, stamp: Time, b: int)
    requires Ordered(codes, b)
    ensures Ordered(Consume(codes, id, stamp), b)
  {
    if codes == [] {
    } else {
      OrderedConsume(Front(codes), id, stamp, Last(codes).id);
      assert Front(Consume(codes, id, stamp)) == Consume(Front(codes), id, stamp);
    }
  }

  lemma {:induction false} OrderedAppend(codes: seq<CodeRow>, rows: seq<CodeRow>, start: nat)
    requires Ordered(codes, start)
    requires forall i :: 0 <= i < |rows| ==> rows[i].id == start + i
    ensures Ordered(codes + rows, start + |rows|)
  {
    if rows == [] {
      assert codes + rows == codes;
    } else {
      OrderedAppend(codes, Front(rows), start);
      assert Front(codes + rows) == codes + Front(rows);
    }
  }

  // ---------- each statement, seen through one user's rows ----------

  lemma {:induction false} CodesOfUser(codes: seq<CodeRow>, u: UserId, i: int)
    requires 0 <= i < |CodesOf(codes, u)|
    ensures CodesOf(codes, u)[i].user == u && CodesOf(codes, u)[i] in codes
  {
    if i < |CodesOf(Front(codes), u)| {
      CodesOfUser(Front(codes), u, i);
    }
  }

  lemma {:induction false} LiveRow(rows: seq<CodeRow>, i: int)
    requires 0 <= i < |Live(rows)|
    ensures Live(rows)[i] in rows && !Live(rows)[i].consumed
  {
    if i < |Live(Front(rows))| {
      LiveRow(Front(rows), i);
    }
  }

  lemma {:induction false} CodesOfAppend(codes: seq<CodeRow>, rows: seq<CodeRow>, u: UserId)
    ensures CodesOf(codes + rows, u) == CodesOf(codes, u) + CodesOf(rows, u)
  {
    if rows == [] {
      assert codes + rows == codes;
    } else {
      CodesOfAppend(codes, Front(rows), u);
      assert Front(codes + rows) == codes + Front(rows);
    }
  }

  lemma {:induction false} CodesOfAllMine(rows: seq<CodeRow>, u: UserId)
    requires forall i :: 0 <= i < |rows| ==> rows[i].user == u
    ensures CodesOf(rows, u) == rows
    ensures forall v :: v != u ==> CodesOf(rows, v) == []
  {
    if rows == [] {
    } else {
      CodesOfAllMine(Front(rows), u);
    }
  }

  lemma Snoc(rows: seq<CodeRow>, x: CodeRow, u: UserId)
    ensures CodesOf(rows + [x], u) == if x.user == u then CodesOf(rows, u) + [x] else CodesOf(rows, u)
    ensures Spent(rows + [x]) == if x.consumed then Spent(rows) + [x] else Spent(rows)
    ensures Live(rows + [x]) == if x.consumed then Live(rows) else Live(rows) + [x]
  {
    assert Front(rows + [x]) == rows;
  }

  lemma {:induction false} CodesOfDelete(codes: seq<CodeRow>, u: UserId, v: UserId)
    ensures CodesOf(DeleteLive(codes, u), v) == if u == v then Spent(CodesOf(codes, v)) else CodesOf(codes, v)
  {
    if codes == [] {
    } else {
      CodesOfDelete(Front(codes), u, v);
      Snoc(DeleteLive(Front(codes), u), Last(codes), v);
      Snoc(CodesOf(Front(codes), v), Last(codes), v);
    }
  }

  lemma {:induction false} DeleteSubset(codes: seq<CodeRow>, u: UserId)
    ensures forall c :: c in DeleteLive(codes, u) ==> c in codes && (c.user == u ==> c.consumed)
  {
    if codes == [] {
    } else {
      DeleteSubset(Front(codes), u);
    }
  }

  lemma {:induction false} CodesOfConsume(codes: seq<CodeRow>, id: nat, stamp: Time, v: UserId)
    ensures CodesOf(Consume(codes, id, stamp), v) == Consume(CodesOf(codes, v), id, stamp)
  {
    if codes == [] {
    } else {
      CodesOfConsume(Front(codes), id, stamp, v);
      assert Front(Consume(codes, id, stamp)) == Consume(Front(codes), id, stamp);
    }
  }

  lemma {:induction false} LiveAppend(a: seq<CodeRow>, b: seq<CodeRow>)
    ensures Live(a + b) == Live(a) + Live(b)
  {
    if b == [] {
      assert a + b == a;
    } else {
      LiveAppend(a, Front(b));
      assert Front(a + b) == a + Front(b);
    }
  }

  lemma {:induction false} SpentAppend(a: seq<CodeRow>, b: seq<CodeRow>)
    ensures Spent(a + b) == Spent(a) + Spent(b)
  {
    if b == [] {
      assert a + b == a;
    } else {
      SpentAppend(a, Front(b));
      assert Front(a + b) == a + Front(b);
    }
  }

  /** Deleting the unconsumed rows leaves no unconsumed row and all the consumed ones. */
  lemma {:induction false} SpentOnly(rows: seq<CodeRow>)
    ensures Live(Spent(rows)) == [] && Spent(Spent(rows)) == Spent(rows)
  {
    if rows == [] {
    } else {
      SpentOnly(Front(rows));
      if Last(rows).consumed {
        assert Front(Spent(rows)) == Spent(Front(rows));
      }
    }
  }

  lemma {:induction false} FreshAllLive(rows: seq<CodeRow>)
    requires forall i :: 0 <= i < |rows| ==> !rows[i].consumed
    ensures Live(rows) == rows && Spent(rows) == []
  {
    if rows == [] {
    } else {
      var (front, x) := (Front(rows), Last(rows));
      assert !x.consumed;
      FreshAllLive(front);
      Snoc(front, x, x.user);
      assert front + [x] == rows;
    }
  }

  /** Where ids are unique, `WHERE id = ...` touches exactly the row it was read from. */
  lemma ConsumeAt(rows: seq<CodeRow>, b: int, p: nat, stamp: Time)
    requires Ordered(rows, b) && p < |rows|
    ensures Consume(rows, rows[p].id, stamp) == rows[p := Redeemed(rows[p], stamp)]
  {
    forall i | 0 <= i < |rows| && i != p ensures rows[i].id != rows[p].id {
      if i < p { OrderedUnique(rows, b, i, p); } else { OrderedUnique(rows, b, p, i); }
    }
  }

  /** Redeeming one unconsumed row moves exactly one row from the stock to the history. */
  lemma {:induction false} RedeemMovesOne(rows: seq<CodeRow>, p: nat, stamp: Time)
    requires p < |rows| && !rows[p].consumed
    ensures var after := rows[p := Redeemed(rows[p], stamp)];
            |Live(after)| == |Live(rows)| - 1 && |Spent(after)| == |Spent(rows)| + 1
  {
    var after := rows[p := Redeemed(rows[p], stamp)];
    if p == |rows| - 1 {
      assert Front(after) == Front(rows);
    } else {
      RedeemMovesOne(Front(rows), p, stamp);
      assert Front(after) == Front(rows)[p := Redeemed(rows[p], stamp)];
    }
  }

  lemma AuditOfAppend(audit: seq<AuditRow>, u: UserId, event: AuditEvent, stamp: Time, v: UserId)
    ensures AuditOf(AppendAudit(audit, u, event, stamp), v) ==
            AuditOf(audit, v) + if u == v then [AuditRow(|audit|, u, event, stamp)] else []
  {
    assert Front(AppendAudit(audit, u, event, stamp)) == audit;
  }
}
