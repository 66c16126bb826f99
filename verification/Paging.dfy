/** The paged audit log, and what reading it page by page returns while it grows. */
module Paging {
  import opened Types
  import opened Tables
  import opened Interleaved
  import opened Lifecycle

  // ---------- page parameters ----------

  const DEFAULT_PAGE_SIZE := 20
  const MAX_PAGE_SIZE := 100

  datatype PageSpec = PageSpec(page: int, pageSize: int)
  {
    function Offset(): int { page * pageSize }
  }

  function Given(given: Option<int>, default: int): int {
    if given.Some? then given.value else default
  }

  function Distance(a: int, b: int): nat { if a < b then b - a else a - b }

  /** A value left out counts as its default; one out of range becomes the nearest value in range. */
  function Resolve(page: Option<int>, pageSize: Option<int>): (spec: PageSpec)
    ensures spec.page >= 0 && 1 <= spec.pageSize <= 100
    ensures var p := Given(page, 0);
            forall q :: q >= 0 && q != spec.page ==> Distance(p, spec.page) < Distance(p, q)
    ensures var size := Given(pageSize, 20);
            forall q :: 1 <= q <= 100 && q != spec.pageSize ==> Distance(size, spec.pageSize) < Distance(size, q)
  {
    var (p, size) := (Given(page, 0), Given(pageSize, DEFAULT_PAGE_SIZE));
    PageSpec(if p < 0 then 0 else p,
             if size < 1 then 1 else if size > MAX_PAGE_SIZE then MAX_PAGE_SIZE else size)
  }

  // ---------- ORDER BY created_at DESC, id DESC ----------

  /** `a` is listed before `b`. */
  predicate Newer(a: AuditRow, b: AuditRow) {
    a.createdAt > b.createdAt || (a.createdAt == b.createdAt && a.id > b.id)
  }

  function InsertRow(rows: seq<AuditRow>, r: AuditRow): seq<AuditRow> {
    if rows != [] && Newer(rows[0], r) then [rows[0]] + InsertRow(rows[1..], r) else [r] + rows
  }

  function Listing(log: seq<AuditRow>): seq<AuditRow> {
    if log == [] then [] else InsertRow(Listing(Front(log)), Last(log))
  }

  predicate Sorted(rows: seq<AuditRow>) {
    forall i, j :: 0 <= i < j < |rows| ==> Newer(rows[i], rows[j])
  }

  /** How many rows are listed before `x`: the offset of `x`. */
  function Rank(rows: seq<AuditRow>, x: AuditRow): nat {
    if rows == [] then 0 else Rank(Front(rows), x) + (if Newer(Last(rows), x) then 1 else 0)
  }

  predicate DistinctIds(rows: seq<AuditRow>) {
    forall i, j :: 0 <= i < j < |rows| ==> rows[i].id != rows[j].id
  }

  lemma {:induction false} RankAppend(a: seq<AuditRow>, b: seq<AuditRow>, x: AuditRow)
    ensures Rank(a + b, x) == Rank(a, x) + Rank(b, x)
  {
    if b == [] {
      assert a + b == a;
    } else {
      RankAppend(a, Front(b), x);
      assert Front(a + b) == a + Front(b);
    }
  }

  lemma RankOne(r: AuditRow, x: AuditRow)
    ensures Rank([r], x) == if Newer(r, x) then 1 else 0
  {
    assert Front([r]) == [];
  }

  /** Insertion adds the row, keeps the order and moves every other row by the rank the new one adds. */
  lemma {:induction false} InsertSorted(rows: seq<AuditRow>, r: AuditRow)
    requires Sorted(rows) && forall i :: 0 <= i < |rows| ==> rows[i].id != r.id
    ensures var s := InsertRow(rows, r);
            && |s| == |rows| + 1 && Sorted(s)
            && (forall y :: y in s <==> y in rows || y == r)
            && (forall x :: Rank(s, x) == Rank(rows, x) + if Newer(r, x) then 1 else 0)
  {
    var s := InsertRow(rows, r);
    if rows != [] && Newer(rows[0], r) {
      var rest := rows[1..];
      InsertSorted(rest, r);
      assert rows == [rows[0]] + rest;
      forall x ensures Rank(s, x) == Rank(rows, x) + if Newer(r, x) then 1 else 0 {
        RankAppend([rows[0]], rest, x);
        RankAppend([rows[0]], InsertRow(rest, r), x);
      }
      forall i, j | 0 <= i < j < |s| ensures Newer(s[i], s[j]) {
        if i == 0 {
          assert s[j] in InsertRow(rest, r);
        }
      }
    } else {
      forall x ensures Rank(s, x) == Rank(rows, x) + if Newer(r, x) then 1 else 0 {
        RankAppend([r], rows, x);
        RankOne(r, x);
      }
      forall i, j | 0 <= i < j < |s| ensures Newer(s[i], s[j]) {
        if i == 0 && j > 1 {
          assert Newer(rows[0], rows[j - 1]);
        }
      }
    }
  }

  /** The listing holds the same rows, in order. */
  lemma {:induction false} ListingSorts(log: seq<AuditRow>)
    requires DistinctIds(log)
    ensures |Listing(log)| == |log| && Sorted(Listing(log))
    ensures forall y :: y in Listing(log) <==> y in log
    ensures forall x :: Rank(Listing(log), x) == Rank(log, x)
  {
    if log == [] {
    } else {
      ListingSorts(Front(log));
      forall i | 0 <= i < |Listing(Front(log))| ensures Listing(Front(log))[i].id != Last(log).id {
        assert Listing(Front(log))[i] in Front(log);
      }
      InsertSorted(Listing(Front(log)), Last(log));
    }
  }

  lemma {:induction false} SortedRank(rows: seq<AuditRow>, i: nat, n: nat)
    requires Sorted(rows) && i < |rows| && n <= |rows|
    ensures Rank(rows[..n], rows[i]) == if n < i then n else i
  {
    if n == 0 {
    } else {
      SortedRank(rows, i, n - 1);
      assert Front(rows[..n]) == rows[..n - 1];
      assert n - 1 < i ==> Newer(rows[n - 1], rows[i]);
      assert i < n - 1 ==> Newer(rows[i], rows[n - 1]);
    }
  }

  /** A row's offset in the listing is the number of newer rows in the table. */
  lemma OffsetIsRank(log: seq<AuditRow>, x: AuditRow)
    requires DistinctIds(log) && x in log
    ensures Rank(log, x) < |Listing(log)| && Listing(log)[Rank(log, x)] == x
  {
    ListingSorts(log);
    var rows := Listing(log);
    var i :| 0 <= i < |rows| && rows[i] == x;
    SortedRank(rows, i, |rows|);
    assert rows[..|rows|] == rows;
  }

  /** Rows are only added, wherever they sort, so an offset never decreases. */
  lemma RankGrows(before: seq<AuditRow>, after: seq<AuditRow>, x: AuditRow)
    requires before <= after
    ensures Rank(before, x) <= Rank(after, x)
  {
    assert after == before + after[|before|..];
    RankAppend(before, after[|before|..], x);
  }

  // ---------- LIMIT and OFFSET ----------

  function Slice(rows: seq<AuditRow>, offset: nat, limit: nat): (page: seq<AuditRow>)
    ensures |page| <= limit
    ensures |page| < limit ==> |rows| < offset + limit
    ensures forall q :: offset <= q < offset + limit && q < |rows| ==> rows[q] in page
  {
    var from := if offset < |rows| then offset else |rows|;
    var to := if offset + limit < |rows| then offset + limit else |rows|;
    var page := rows[from..to];
    assert forall q :: offset <= q < offset + limit && q < |rows| ==> page[q - offset] == rows[q];
    page
  }

  datatype PageReply = Page(entries: seq<AuditRow>, total: nat, page: int) | Refused(error: ErrorCode)

  /** `GET /2fa/audit-log/{user}` */
  function AuditLog(db: Db, sub: UserId, user: UserId, page: Option<int>, pageSize: Option<int>): PageReply {
    var spec := Resolve(page, pageSize);
    if sub != user then Refused(Forbidden)
    else if user !in db.records then Refused(NotFound)
    else
      var log := AuditOf(db.audit, user);
      OffsetNonNegative(spec);
      Page(Slice(Listing(log), spec.Offset(), spec.pageSize), |log|, spec.page)
  }

  lemma OffsetNonNegative(spec: PageSpec)
    requires spec.page >= 0 && spec.pageSize >= 1
    ensures spec.Offset() >= 0
  {
  }

  // ---------- the table stays fit for paging ----------

  lemma {:induction false} AuditOfGrows(before: seq<AuditRow>, after: seq<AuditRow>, u: UserId)
    requires before <= after
    ensures AuditOf(before, u) <= AuditOf(after, u)
    decreases |after|
  {
    if |before| < |after| {
      assert before <= Front(after);
      AuditOfGrows(before, Front(after), u);
    } else {
      assert before == after;
    }
  }

  predicate Numbered(audit: seq<AuditRow>) {
    forall i :: 0 <= i < |audit| ==> audit[i].id == i
  }

  lemma {:induction false} ExecNumbered(env: Env, s: System, steps: seq<Step>)
    requires Numbered(s.db.audit)
    ensures Numbered(Exec(env, s, steps).db.audit)
    decreases |steps|
  {
    if steps == [] {
    } else {
      ExecNumbered(env, s, Front(steps));
    }
  }

  lemma {:induction false} AuditOfDistinct(audit: seq<AuditRow>, u: UserId)
    requires Numbered(audit)
    ensures DistinctIds(AuditOf(audit, u))
    ensures forall i :: 0 <= i < |AuditOf(audit, u)| ==> AuditOf(audit, u)[i].id < |audit|
  {
    if audit == [] {
    } else {
      AuditOfDistinct(Front(audit), u);
    }
  }

  /** Of the log a user sees all his rows and no other. */
  lemma {:induction false} AuditOfExactly(audit: seq<AuditRow>, u: UserId)
    ensures forall x :: x in AuditOf(audit, u) <==> x in audit && x.user == u
  {
    if audit == [] {
    } else {
      AuditOfExactly(Front(audit), u);
      assert audit == Front(audit) + [Last(audit)];
    }
  }

  function AuditPositions(audit: seq<AuditRow>, u: UserId): (p: set<nat>)
    ensures forall i: nat :: i in p <==> i < |audit| && audit[i].user == u
  {
    set i: nat | i < |audit| && audit[i].user == u
  }

  lemma AuditPositionsSnoc(audit: seq<AuditRow>, u: UserId)
    requires audit != []
    ensures |AuditPositions(audit, u)| == |AuditPositions(Front(audit), u)| + if Last(audit).user == u then 1 else 0
  {
    var (before, after, last) := (AuditPositions(Front(audit), u), AuditPositions(audit, u), |audit| - 1);
    forall i: nat ensures i in after <==> i in before || (audit[last].user == u && i == last) {
      if i < last {
        assert Front(audit)[i] == audit[i];
      }
    }
    SetGrows(before, after, last, audit[last].user == u);
  }

  lemma {:induction false} AuditCounted(audit: seq<AuditRow>, u: UserId)
    ensures |AuditOf(audit, u)| == |AuditPositions(audit, u)|
  {
    if audit == [] {
    } else {
      AuditCounted(Front(audit), u);
      AuditPositionsSnoc(audit, u);
    }
  }

  // ---------- one page ----------

  /** The log of a user is shown to that user alone, and only if there is a record. */
  lemma AuditLogAnswers(db: Db, sub: UserId, user: UserId, page: Option<int>, pageSize: Option<int>)
    ensures var reply := AuditLog(db, sub, user, page, pageSize);
            && (reply == Refused(Forbidden) <==> sub != user)
            && (reply == Refused(NotFound) <==> sub == user && user !in db.records)
            && (reply.Page? <==> sub == user && user in db.records)
  {
  }

  /** The entries come newest first: by time of creation and, where that is equal, by id. */
  predicate NewestFirst(entries: seq<AuditRow>) {
    forall i, j :: 0 <= i < j < |entries| ==>
      || entries[i].createdAt > entries[j].createdAt
      || (entries[i].createdAt == entries[j].createdAt && entries[i].id > entries[j].id)
  }

  /** Entry `i` is a row of the log to which exactly `offset + i` are newer. */
  predicate RanksFrom(entries: seq<AuditRow>, log: seq<AuditRow>, offset: int) {
    forall i :: 0 <= i < |entries| ==> entries[i] in log && Rank(log, entries[i]) == offset + i
  }

  lemma SortedIsNewestFirst(rows: seq<AuditRow>)
    requires Sorted(rows)
    ensures NewestFirst(rows)
  {
  }

  lemma SliceAt(rows: seq<AuditRow>, offset: nat, size: nat)
    ensures |Slice(rows, offset, size)| == AtMost(AtLeastZero(|rows| - offset), size)
    ensures forall i :: 0 <= i < |Slice(rows, offset, size)| ==> offset + i < |rows| && Slice(rows, offset, size)[i] == rows[offset + i]
  {
    var to := if offset + size < |rows| then offset + size else |rows|;
    if offset < |rows| {
      assert Slice(rows, offset, size) == rows[offset..to];
    } else {
      assert Slice(rows, offset, size) == [];
    }
  }

  lemma SliceSorted(rows: seq<AuditRow>, offset: nat, size: nat)
    requires Sorted(rows)
    ensures Sorted(Slice(rows, offset, size))
  {
    SliceAt(rows, offset, size);
    var entries := Slice(rows, offset, size);
    forall i, j | 0 <= i < j < |entries| ensures Newer(entries[i], entries[j]) {
      assert Newer(rows[offset + i], rows[offset + j]);
    }
  }

  lemma SliceShows(log: seq<AuditRow>, offset: nat, size: nat)
    requires DistinctIds(log)
    ensures var entries := Slice(Listing(log), offset, size);
            && NewestFirst(entries) && RanksFrom(entries, log, offset)
            && |entries| == AtMost(AtLeastZero(|log| - offset), size)
  {
    var (rows, entries) := (Listing(log), Slice(Listing(log), offset, size));
    ListingSorts(log);
    SliceAt(rows, offset, size);
    SliceSorted(rows, offset, size);
    SortedIsNewestFirst(entries);
    assert rows[..|rows|] == rows;
    forall i | 0 <= i < |entries| ensures entries[i] in log && Rank(log, entries[i]) == offset + i {
      SortedRank(rows, offset + i, |rows|);
    }
  }

  lemma PageIsSlice(db: Db, user: UserId, page: Option<int>, pageSize: Option<int>)
    requires user in db.records
    ensures var (log, spec) := (AuditOf(db.audit, user), Resolve(page, pageSize));
            && spec.Offset() == spec.page * spec.pageSize >= 0
            && AuditLog(db, user, user, page, pageSize) == Page(Slice(Listing(log), spec.Offset(), spec.pageSize), |log|, spec.page)
  {
    OffsetNonNegative(Resolve(page, pageSize));
  }

  /**
   * A page holds the rows of that user from its offset on, the newest first and at most its size of them, and comes
   * with the number of all of them.
   */
  lemma PageShows(db: Db, user: UserId, page: Option<int>, pageSize: Option<int>)
    requires Numbered(db.audit) && user in db.records
    ensures var (reply, spec) := (AuditLog(db, user, user, page, pageSize), Resolve(page, pageSize));
            && reply.page == spec.page && reply.total == |AuditPositions(db.audit, user)|
            && (forall x :: x in reply.entries ==> x in db.audit && x.user == user)
            && NewestFirst(reply.entries)
            && RanksFrom(reply.entries, AuditOf(db.audit, user), spec.Offset())
            && |reply.entries| == AtMost(AtLeastZero(reply.total - spec.Offset()), spec.pageSize)
  {
    var (log, spec) := (AuditOf(db.audit, user), Resolve(page, pageSize));
    PageIsSlice(db, user, page, pageSize);
    AuditOfExactly(db.audit, user);
    AuditCounted(db.audit, user);
    AuditOfDistinct(db.audit, user);
    SliceShows(log, spec.Offset(), spec.pageSize);
  }

  function AtMost(n: int, limit: int): int { if n < limit then n else limit }

  function AtLeastZero(n: int): int { if n < 0 then 0 else n }

  // ---------- the walk ----------

  ghost predicate LeadsTo(env: Env, s: System, s': System) {
    exists steps :: s' == Exec(env, s, steps)
  }

  /** Each state comes from the one before it by some interleaved steps. */
  ghost predicate Successive(env: Env, states: seq<System>) {
    forall k :: 0 < k < |states| ==> LeadsTo(env, states[k - 1], states[k])
  }

  lemma {:induction false} StateOfWalk(env: Env, states: seq<System>, u: UserId, k: nat)
    requires Successive(env, states) && k < |states| && Reachable(env, states[0])
    ensures Numbered(states[k].db.audit)
    ensures states[0].db.records.Keys <= states[k].db.records.Keys
    ensures AuditOf(states[0].db.audit, u) <= AuditOf(states[k].db.audit, u)
    ensures k > 0 ==> AuditOf(states[k - 1].db.audit, u) <= AuditOf(states[k].db.audit, u)
    ensures Safe(env, states[k])
  {
    if k == 0 {
      ReachableSafe(env, states[0]);
      var clock, steps :| states[0] == Exec(env, InitialSystem(clock), steps);
      ExecNumbered(env, InitialSystem(clock), steps);
    } else {
      StateOfWalk(env, states, u, k - 1);
      assert LeadsTo(env, states[k - 1], states[k]);
      var steps :| states[k] == Exec(env, states[k - 1], steps);
      ExecNumbered(env, states[k - 1], steps);
      ExecSafe(env, states[k - 1], steps);
      HistoryOnlyGrows(env, states[k - 1], steps);
      AuditOfGrows(states[k - 1].db.audit, states[k].db.audit, u);
    }
  }

  /** The offset of `x` when page `k` is read. */
  function OffsetAt(states: seq<System>, u: UserId, k: nat, x: AuditRow): nat
    requires k < |states|
  {
    Rank(AuditOf(states[k].db.audit, u), x)
  }

  function ReadPage(states: seq<System>, u: UserId, k: nat, pageSize: Option<int>): PageReply
    requires k < |states|
  {
    AuditLog(states[k].db, u, u, Some(k), pageSize)
  }

  /** A read is a slice of the listing, from the offset of page `k`. */
  lemma ReadIsSlice(states: seq<System>, u: UserId, k: nat, pageSize: Option<int>)
    requires k < |states| && u in states[k].db.records
    ensures var (log, size) := (AuditOf(states[k].db.audit, u), Resolve(None, pageSize).pageSize);
            k * size >= 0 && ReadPage(states, u, k, pageSize) == Page(Slice(Listing(log), k * size, size), |log|, k)
  {
    var spec := Resolve(Some(k), pageSize);
    assert spec == PageSpec(k, Resolve(None, pageSize).pageSize);
    OffsetNonNegative(spec);
  }

  /** Page `k` returns `x` if `x` sits at one of its offsets. */
  lemma PageHolds(env: Env, states: seq<System>, u: UserId, k: nat, pageSize: Option<int>, x: AuditRow)
    requires Successive(env, states) && k < |states| && Reachable(env, states[0]) && u in states[0].db.records
    requires x in AuditOf(states[0].db.audit, u)
    ensures var (size, reply) := (Resolve(None, pageSize).pageSize, ReadPage(states, u, k, pageSize));
            && reply.Page?
            && (k * size <= OffsetAt(states, u, k, x) < k * size + size ==> x in reply.entries)
            && (|reply.entries| < size ==> OffsetAt(states, u, k, x) < k * size + size)
  {
    StateOfWalk(env, states, u, k);
    AuditOfDistinct(states[k].db.audit, u);
    OffsetIsRank(AuditOf(states[k].db.audit, u), x);
    ReadIsSlice(states, u, k, pageSize);
  }

  /** A row beyond page `k` is not before page `k + 1` at the next read. */
  lemma NotSkipped(env: Env, states: seq<System>, u: UserId, k: nat, size: nat, x: AuditRow)
    requires Successive(env, states) && k + 1 < |states| && Reachable(env, states[0])
    requires OffsetAt(states, u, k, x) >= k * size + size
    ensures OffsetAt(states, u, k + 1, x) >= (k + 1) * size
  {
    StateOfWalk(env, states, u, k + 1);
    RankGrows(AuditOf(states[k].db.audit, u), AuditOf(states[k + 1].db.audit, u), x);
    assert (k + 1) * size == k * size + size;
  }

  /** `x` is on some page read from the `k`-th on. */
  ghost predicate ReturnedFrom(states: seq<System>, u: UserId, k: nat, pageSize: Option<int>, x: AuditRow) {
    exists j: nat :: k <= j < |states| && Returned(states, u, j, pageSize, x)
  }

  predicate Returned(states: seq<System>, u: UserId, j: nat, pageSize: Option<int>, x: AuditRow)
    requires j < |states|
  {
    ReadPage(states, u, j, pageSize).Page? && x in ReadPage(states, u, j, pageSize).entries
  }

  /** From page `k` on, a row not yet passed is returned before the walk ends. */
  lemma {:induction false} WalkFrom(env: Env, states: seq<System>, u: UserId, k: nat, pageSize: Option<int>, x: AuditRow)
    requires Successive(env, states) && k < |states| && Reachable(env, states[0]) && u in states[0].db.records
    requires x in AuditOf(states[0].db.audit, u)
    requires OffsetAt(states, u, k, x) >= k * Resolve(None, pageSize).pageSize
    requires var last := ReadPage(states, u, |states| - 1, pageSize);
             last.Page? && |last.entries| < Resolve(None, pageSize).pageSize
    ensures ReturnedFrom(states, u, k, pageSize, x)
    decreases |states| - k
  {
    var size := Resolve(None, pageSize).pageSize;
    PageHolds(env, states, u, k, pageSize, x);
    if OffsetAt(states, u, k, x) < k * size + size {
      assert Returned(states, u, k, pageSize, x);
    } else {
      NotSkipped(env, states, u, k, size, x);
      WalkFrom(env, states, u, k + 1, pageSize, x);
      var j: nat :| k + 1 <= j < |states| && Returned(states, u, j, pageSize, x);
    }
  }

  /**
   * Reading pages 0, 1, 2, ... of a user's audit log until a short page, while any requests run in between,
   * returns every row that was there at the first read.
   */
  lemma WalkReturnsAll(env: Env, states: seq<System>, u: UserId, pageSize: Option<int>, x: AuditRow)
    requires states != [] && Successive(env, states) && Reachable(env, states[0]) && u in states[0].db.records
    requires var last := ReadPage(states, u, |states| - 1, pageSize);
             last.Page? && |last.entries| < Resolve(None, pageSize).pageSize
    requires x in states[0].db.audit && x.user == u
    ensures ReturnedFrom(states, u, 0, pageSize, x)
  {
    AuditOfExactly(states[0].db.audit, u);
    WalkFrom(env, states, u, 0, pageSize, x);
  }

  /** When nothing is appended in between, the pages laid end to end are the listing, each row once. */
  function Pages(rows: seq<AuditRow>, size: nat, n: nat): seq<AuditRow> {
    if n == 0 then [] else Pages(rows, size, n - 1) + Slice(rows, (n - 1) * size, size)
  }

  lemma SliceContinues(rows: seq<AuditRow>, offset: nat, limit: nat)
    ensures (if offset < |rows| then rows[..offset] else rows) + Slice(rows, offset, limit) ==
            if offset + limit < |rows| then rows[..offset + limit] else rows
  {
  }

  lemma {:induction false} PagesTile(rows: seq<AuditRow>, size: nat, n: nat)
    ensures Pages(rows, size, n) == if n * size < |rows| then rows[..n * size] else rows
  {
    if n == 0 {
    } else {
      PagesTile(rows, size, n - 1);
      SliceContinues(rows, (n - 1) * size, size);
      assert n * size == (n - 1) * size + size;
    }
  }
}
