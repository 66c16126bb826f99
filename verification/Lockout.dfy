/** The lockout counter under interleaving: it is exact, and it bounds the rate at which guesses can fail. */
module Lockout {
  import opened Types
  import opened Tables
  import opened Handlers
  import opened Interleaved
  import opened Lifecycle

  /** The lock the failures since the last reset call for: none before the fifth, then 15 minutes from the latest. */
  function LockOf(fails: seq<FailureRecord>): Option<Time> {
    if |fails| >= MAX_FAILED_ATTEMPTS then Some(Last(fails).now + LOCKOUT_DURATION) else None
  }

  predicate RowExact(row: Row, fails: seq<FailureRecord>) {
    row.failedAttempts == |fails| && row.lockedUntil == LockOf(fails)
  }

  // ---------- exactness ----------

  predicate Exact(s: System, u: UserId) {
    var fails := HistoryOf(s, u).fails;
    if u in s.db.records then RowExact(s.db.records[u], fails) else fails == []
  }

  lemma CommitExact(env: Env, s: System, id: nat, stamp: Time, u: UserId)
    requires Safe(env, s) && Exact(s, u) && Waiting(s, id) && s.flights[id].phase.Writing?
    ensures Exact(DoCommit(s, id, stamp), u)
  {
    var w := s.flights[id].phase.write;
    assert FlightSafe(env, s, s.flights[id]);
    if w.user == u && w.FailureWrite? && !Aborts(s.db, w) {
      var (fails, s') := (HistoryOf(s, u).fails, DoCommit(s, id, stamp));
      assert |HistoryOf(s', u).fails| == |fails| + 1 && Last(HistoryOf(s', u).fails).now == w.now;
    }
  }

  lemma NextExact(env: Env, s: System, step: Step, u: UserId)
    requires Safe(env, s) && Exact(s, u)
    ensures Exact(Next(env, s, step), u)
  {
    if step.CommitStep? && Waiting(s, step.id) && s.flights[step.id].phase.Writing? {
      CommitExact(env, s, step.id, step.stamp, u);
    }
  }

  // ---------- the guard, seen from the commit ----------

  /** What a flight of `u` knows: its snapshot shows the record as it stood after `seen` failures, and a pending failure got past the lock it saw. */
  predicate FlightGuarded(s: System, u: UserId, f: Flight) {
    var h := HistoryOf(s, u);
    && f.now <= s.clock
    && (f.req.user == u ==> f.epoch <= h.resets)
    && (f.req.user == u && f.epoch == h.resets ==>
          && f.seen <= |h.fails|
          && (f.phase.Loaded? && f.phase.snap.Some? ==> RowExact(f.phase.snap.value, h.fails[..f.seen])))
    && (f.phase.Writing? && f.phase.write.FailureWrite? ==>
          && f.req.IsGuess()
          && f.phase.write.now == f.now
          && (f.req.user == u ==> PastLock(h.fails, SeenNow(f, h), f.now)))
  }

  /** `now` is not before the end of the lock that `seen` failures call for. */
  predicate PastLock(fails: seq<FailureRecord>, seen: nat, now: Time) {
    MAX_FAILED_ATTEMPTS <= seen <= |fails| ==> now >= fails[seen - 1].now + LOCKOUT_DURATION
  }

  predicate RecordGuarded(s: System, u: UserId, j: int)
    requires 0 <= j < |HistoryOf(s, u).fails|
  {
    var fails := HistoryOf(s, u).fails;
    && fails[j].now <= fails[j].at <= s.clock
    && fails[j].seen <= j
    && PastLock(fails, fails[j].seen, fails[j].now)
    && forall i :: 0 <= i < j ==> fails[i].at <= fails[j].at
  }

  ghost predicate Guarded(s: System, u: UserId) {
    && (forall i :: 0 <= i < |s.flights| ==> FlightGuarded(s, u, s.flights[i]))
    && (forall j :: 0 <= j < |HistoryOf(s, u).fails| ==> RecordGuarded(s, u, j))
  }

  /** A guess that goes on to record a failure was not locked out by its snapshot. */
  lemma CheckPassesLock(env: Env, f: Flight, codes: seq<CodeRow>, at: Time)
    requires f.phase.Loaded?
    ensures var d := Decide(env, f.req, f.now, f.phase.snap, codes, at);
            d.Proceed? && d.write.FailureWrite? ==>
              && f.req.IsGuess() && d.write.now == f.now && d.write.user == f.req.user
              && f.phase.snap.Some? && !f.phase.snap.value.IsLocked(f.now)
  {
  }

  /** All a step can do to the history of one user: nothing, one more failure, or a reset. */
  predicate HistoryStep(s: System, s': System, u: UserId) {
    var (h, h') := (HistoryOf(s, u), HistoryOf(s', u));
    && s.clock <= s'.clock
    && (|| (h'.resets == h.resets && h'.fails == h.fails)
        || (h'.resets == h.resets && |h'.fails| == |h.fails| + 1 && Front(h'.fails) == h.fails)
        || (h'.resets == h.resets + 1 && h'.fails == []))
  }

  lemma NextHistoryStep(env: Env, s: System, step: Step, u: UserId)
    ensures HistoryStep(s, Next(env, s, step), u)
  {
  }

  lemma FlightStays(s: System, s': System, u: UserId, f: Flight)
    requires HistoryStep(s, s', u) && FlightGuarded(s, u, f)
    ensures FlightGuarded(s', u, f)
  {
    var (h, h') := (HistoryOf(s, u), HistoryOf(s', u));
    if h'.fails != [] && f.epoch == h.resets && f.req.user == u {
      assert h'.fails[..f.seen] == h.fails[..f.seen];
    }
  }

  lemma LoadGuarded(s: System, id: nat, u: UserId)
    requires Exact(s, u) && Waiting(s, id) && s.flights[id].phase.Arrived? && FlightGuarded(s, u, s.flights[id])
    ensures FlightGuarded(DoLoad(s, id), u, DoLoad(s, id).flights[id])
  {
    assert HistoryOf(s, u).fails[..|HistoryOf(s, u).fails|] == HistoryOf(s, u).fails;
  }

  lemma CheckGuarded(env: Env, s: System, id: nat, u: UserId)
    requires Waiting(s, id) && s.flights[id].phase.Loaded? && FlightGuarded(s, u, s.flights[id])
    ensures FlightGuarded(DoCheck(env, s, id), u, DoCheck(env, s, id).flights[id])
  {
    var (f, h) := (s.flights[id], HistoryOf(s, u));
    CheckPassesLock(env, f, s.db.codes, s.clock);
    if f.req.user == u && f.epoch == h.resets && f.seen >= MAX_FAILED_ATTEMPTS {
      assert Last(h.fails[..f.seen]) == h.fails[f.seen - 1];
    }
  }

  lemma NextFlightsGuarded(env: Env, s: System, step: Step, u: UserId)
    requires Exact(s, u) && Guarded(s, u)
    ensures var s' := Next(env, s, step); forall i :: 0 <= i < |s'.flights| ==> FlightGuarded(s', u, s'.flights[i])
  {
    var s' := Next(env, s, step);
    NextHistoryStep(env, s, step, u);
    forall i | 0 <= i < |s'.flights| ensures FlightGuarded(s', u, s'.flights[i]) {
      if i < |s.flights| {
        FlightStays(s, s', u, s.flights[i]);
        if step.Load? && step.id == i && s.flights[i].phase.Arrived? {
          LoadGuarded(s, i, u);
        } else if step.Check? && step.id == i && s.flights[i].phase.Loaded? {
          CheckGuarded(env, s, i, u);
        }
      }
    }
  }

  /** The record a commit adds is guarded because the flight that committed it was. */
  lemma NewRecordGuarded(env: Env, s: System, id: nat, stamp: Time, u: UserId)
    requires Safe(env, s)
    requires Guarded(s, u) && Waiting(s, id) && s.flights[id].phase.Writing?
    requires |HistoryOf(DoCommit(s, id, stamp), u).fails| == |HistoryOf(s, u).fails| + 1
    ensures RecordGuarded(DoCommit(s, id, stamp), u, |HistoryOf(s, u).fails|)
  {
    var fails := HistoryOf(s, u).fails;
    forall i | 0 <= i < |fails| ensures fails[i].at <= s.clock {
      assert RecordGuarded(s, u, i);
    }
  }

  lemma NextGuarded(env: Env, s: System, step: Step, u: UserId)
    requires Safe(env, s) && Exact(s, u) && Guarded(s, u)
    ensures Guarded(Next(env, s, step), u)
  {
    var s' := Next(env, s, step);
    var (fails, fails') := (HistoryOf(s, u).fails, HistoryOf(s', u).fails);
    NextHistoryStep(env, s, step, u);
    NextFlightsGuarded(env, s, step, u);
    forall j | 0 <= j < |fails'| ensures RecordGuarded(s', u, j) {
      if j == |fails| {
        NewRecordGuarded(env, s, step.id, step.stamp, u);
      } else {
        assert RecordGuarded(s, u, j);
        assert forall i :: 0 <= i <= j ==> fails'[i] == fails[i];
      }
    }
  }

  // ---------- who was in flight ----------

  /** Every failure was committed by a request of its own, which is over. */
  predicate Owned(s: System, h: History) {
    && (forall j :: 0 <= j < |h.fails| ==> h.fails[j].id < |s.flights| && s.flights[h.fails[j].id].phase.Done?)
    && (forall i, j :: 0 <= i < j < |h.fails| ==> h.fails[i].id != h.fails[j].id)
  }

  /** The request was in flight at each earlier failure its snapshot does not show. */
  predicate Overlapping(h: History) {
    forall i, j :: 0 <= i <= j < |h.fails| && h.fails[j].seen <= i ==> h.fails[j].id in h.fails[i].crowd
  }

  /** So are the guesses still in flight. */
  ghost predicate Witnessed(s: System, u: UserId, h: History) {
    forall i, k: nat :: 0 <= i < |h.fails| && k < |s.flights| && GuessInFlight(s.flights[k], u) && SeenNow(s.flights[k], h) <= i
      ==> k in h.fails[i].crowd
  }

  ghost predicate Crowded(s: System, u: UserId) {
    var h := HistoryOf(s, u);
    Owned(s, h) && Overlapping(h) && Witnessed(s, u, h)
  }

  /** A step without a commit for `u` lets a guess get its snapshot, which shows every failure so far, or be answered. */
  lemma CrowdedStays(s: System, s': System, u: UserId)
    requires Crowded(s, u) && HistoryOf(s', u) == HistoryOf(s, u) && |s.flights| <= |s'.flights|
    requires forall k :: 0 <= k < |s.flights| && s.flights[k].phase.Done? ==> s'.flights[k].phase.Done?
    requires forall k :: 0 <= k < |s'.flights| && GuessInFlight(s'.flights[k], u) ==>
               || SeenNow(s'.flights[k], HistoryOf(s, u)) >= |HistoryOf(s, u).fails|
               || (&& k < |s.flights| && GuessInFlight(s.flights[k], u)
                   && SeenNow(s.flights[k], HistoryOf(s, u)) == SeenNow(s'.flights[k], HistoryOf(s, u)))
    ensures Crowded(s', u)
  {
  }

  lemma OverlappingSnoc(h: History, r: FailureRecord)
    requires Overlapping(h) && r.id in r.crowd
    requires forall i :: 0 <= i < |h.fails| && r.seen <= i ==> r.id in h.fails[i].crowd
    ensures Overlapping(h.(fails := h.fails + [r]))
  {
  }

  lemma WitnessedSnoc(s: System, s': System, u: UserId, h: History, r: FailureRecord)
    requires Witnessed(s, u, h) && r.crowd == Crowd(s, u) && |s'.flights| == |s.flights|
    requires forall k :: 0 <= k < |s.flights| && GuessInFlight(s'.flights[k], u) ==> s'.flights[k] == s.flights[k]
    ensures Witnessed(s', u, h.(fails := h.fails + [r]))
  {
    var h' := h.(fails := h.fails + [r]);
    forall i, k: nat | 0 <= i < |h'.fails| && k < |s'.flights| && GuessInFlight(s'.flights[k], u) && SeenNow(s'.flights[k], h') <= i
      ensures k in h'.fails[i].crowd
    {
      assert k in Crowd(s, u) && SeenNow(s.flights[k], h) <= i;
    }
  }

  lemma FailureCrowded(env: Env, s: System, id: nat, stamp: Time, u: UserId)
    requires Safe(env, s) && Guarded(s, u) && Crowded(s, u)
    requires Waiting(s, id) && s.flights[id].phase.Writing? && s.flights[id].phase.write.FailureWrite?
    requires s.flights[id].req.user == u && !Aborts(s.db, s.flights[id].phase.write)
    ensures Crowded(DoCommit(s, id, stamp), u)
  {
    var (f, h, s') := (s.flights[id], HistoryOf(s, u), DoCommit(s, id, stamp));
    assert FlightSafe(env, s, f) && FlightGuarded(s, u, f) && GuessInFlight(f, u);
    var r := FailureRecord(id, f.now, s.clock, SeenNow(f, h), Crowd(s, u));
    assert HistoryOf(s', u) == h.(fails := h.fails + [r]);
    assert id in Crowd(s, u);
    OverlappingSnoc(h, r);
    WitnessedSnoc(s, s', u, h, r);
  }

  lemma CommitCrowded(env: Env, s: System, id: nat, stamp: Time, u: UserId)
    requires Safe(env, s) && Guarded(s, u) && Crowded(s, u) && Waiting(s, id) && s.flights[id].phase.Writing?
    ensures Crowded(DoCommit(s, id, stamp), u)
  {
    var w := s.flights[id].phase.write;
    assert FlightSafe(env, s, s.flights[id]);
    if Aborts(s.db, w) || w.user != u {
      CrowdedStays(s, DoCommit(s, id, stamp), u);
    } else if w.FailureWrite? {
      FailureCrowded(env, s, id, stamp, u);
    } else {
      assert HistoryOf(DoCommit(s, id, stamp), u).fails == [];
    }
  }

  lemma NextCrowded(env: Env, s: System, step: Step, u: UserId)
    requires Safe(env, s) && Guarded(s, u) && Crowded(s, u)
    ensures Crowded(Next(env, s, step), u)
  {
    if step.CommitStep? && Waiting(s, step.id) && s.flights[step.id].phase.Writing? {
      CommitCrowded(env, s, step.id, step.stamp, u);
    } else {
      CrowdedStays(s, Next(env, s, step), u);
    }
  }

  // ---------- over every run ----------

  ghost predicate Invariant(env: Env, s: System, u: UserId) {
    Safe(env, s) && Exact(s, u) && Guarded(s, u) && Crowded(s, u)
  }

  lemma {:induction false} ExecInvariant(env: Env, s: System, steps: seq<Step>, u: UserId)
    requires Invariant(env, s, u)
    ensures Invariant(env, Exec(env, s, steps), u)
    decreases |steps|
  {
    if steps == [] {
    } else {
      ExecInvariant(env, s, Front(steps), u);
      var mid := Exec(env, s, Front(steps));
      NextSafe(env, mid, Last(steps));
      NextExact(env, mid, Last(steps), u);
      NextGuarded(env, mid, Last(steps), u);
      NextCrowded(env, mid, Last(steps), u);
    }
  }

  lemma ReachableInvariant(env: Env, s: System, u: UserId)
    requires Reachable(env, s)
    ensures Invariant(env, s, u)
  {
    var clock, steps :| s == Exec(env, InitialSystem(clock), steps);
    ExecInvariant(env, InitialSystem(clock), steps, u);
  }

  /**
   * In every reachable state the counter is the number of failures committed since the last reset, and there is
   * a lock exactly from the fifth on, ending 15 minutes after the `now` of the latest failure.
   */
  lemma CounterExact(env: Env, s: System, u: UserId)
    requires Reachable(env, s) && u in s.db.records
    ensures var (row, fails) := (s.db.records[u], HistoryOf(s, u).fails);
            && row.failedAttempts == |fails|
            && (row.lockedUntil.Some? <==> row.failedAttempts >= 5)
            && (row.lockedUntil.Some? ==> row.lockedUntil.value == Last(fails).now + 900_000_000)
  {
    ReachableInvariant(env, s, u);
  }

  /** A committed failure is a 423 exactly when it is at least the fifth since the last reset; it never aborts. */
  lemma FailureAnswer(env: Env, s: System, id: nat, stamp: Time)
    requires Reachable(env, s) && id < |s.flights| && s.flights[id].phase.Writing? && s.flights[id].phase.write.FailureWrite?
    ensures var u := s.flights[id].req.user;
            var s' := Next(env, s, CommitStep(id, stamp));
            && |HistoryOf(s', u).fails| == |HistoryOf(s, u).fails| + 1
            && s'.flights[id].phase == Done(Failure(if |HistoryOf(s', u).fails| >= 5 then AccountLocked else InvalidToken))
  {
    ReachableInvariant(env, s, s.flights[id].req.user);
    assert FlightSafe(env, s, s.flights[id]);
  }

  // ---------- the guess rate ----------

  /** Each failure commits at most `delay` after its captured `now`, while at most `width` guesses are in flight. */
  predicate Prompt(fails: seq<FailureRecord>, delay: Time, width: nat) {
    forall r :: r in fails ==> r.at <= r.now + delay && |r.crowd| <= width
  }

  /**
   * Once the counter has reached five, a request whose failure commits sooner than `LOCKOUT_DURATION - delay`
   * after another one had loaded its snapshot before that one committed.
   */
  lemma LateFailuresOverlap(s: System, u: UserId, delay: Time, width: nat, i: nat, j: nat)
    requires Guarded(s, u)
    requires Prompt(HistoryOf(s, u).fails, delay, width)
    requires 4 <= i <= j < |HistoryOf(s, u).fails|
    requires HistoryOf(s, u).fails[j].at < HistoryOf(s, u).fails[i].at + 900_000_000 - delay
    ensures HistoryOf(s, u).fails[j].seen <= i
  {
    var fails := HistoryOf(s, u).fails;
    var seen := fails[j].seen;
    assert RecordGuarded(s, u, j);
    if seen >= MAX_FAILED_ATTEMPTS {
      assert RecordGuarded(s, u, seen - 1);
      assert fails[seen - 1] in fails;
    }
  }

  lemma {:induction false} DistinctInSet(ids: seq<nat>, all: set<nat>)
    requires forall i :: 0 <= i < |ids| ==> ids[i] in all
    requires forall i, j :: 0 <= i < j < |ids| ==> ids[i] != ids[j]
    ensures |ids| <= |all|
  {
    if ids == [] {
    } else {
      DistinctInSet(Front(ids), all - {Last(ids)});
    }
  }

  /** So no more than `width` failures past the fourth fit into less than `LOCKOUT_DURATION - delay`. */
  lemma WindowHoldsWidth(s: System, u: UserId, delay: Time, width: nat, i: nat, j: nat)
    requires Guarded(s, u) && Crowded(s, u)
    requires Prompt(HistoryOf(s, u).fails, delay, width)
    requires 4 <= i <= j < |HistoryOf(s, u).fails|
    requires HistoryOf(s, u).fails[j].at < HistoryOf(s, u).fails[i].at + 900_000_000 - delay
    ensures j - i < width
  {
    var fails := HistoryOf(s, u).fails;
    var ids := seq(j - i + 1, k requires 0 <= k < j - i + 1 => fails[i + k].id);
    forall k | 0 <= k < |ids| ensures ids[k] in fails[i].crowd {
      assert RecordGuarded(s, u, j);
      LateFailuresOverlap(s, u, delay, width, i, i + k);
    }
    DistinctInSet(ids, fails[i].crowd);
    assert fails[i] in fails;
  }

  lemma MulMonotone(a: nat, b: int, c: int)
    requires b <= c
    ensures a * b <= a * c
  {
  }

  /** Failures `a` to `b` commit in order, and no more than `width` of them within less than `window`. */
  predicate Sparse(fails: seq<FailureRecord>, a: nat, b: nat, width: nat, window: int)
    requires b <= |fails|
  {
    && (forall i, j :: a <= i <= j < b ==> fails[i].at <= fails[j].at)
    && (forall i, j :: a <= i <= j < b && fails[j].at < fails[i].at + window ==> j - i < width)
  }

  /** At most `width` in any window shorter than `window` makes at most `width` more for each further window. */
  lemma {:induction false} CountByWindows(fails: seq<FailureRecord>, a: nat, b: nat, width: nat, window: int, more: nat)
    requires a < b <= |fails| && window > 0 && Sparse(fails, a, b, width, window)
    requires fails[b - 1].at - fails[a].at < window + more * window
    ensures b - a <= width + width * more
    decreases more
  {
    if b - a > width {
      assert fails[a + width].at >= fails[a].at + window;
      assert more > 0;
      assert more * window == window + (more - 1) * window;
      CountByWindows(fails, a + width, b, width, window, more - 1);
      assert width * more == width + width * (more - 1);
    } else {
      MulMonotone(width, 0, more);
    }
  }

  lemma SpanInWindows(width: nat, window: int, span: int) returns (more: nat)
    requires window > 0 && span >= 0
    ensures span < window + more * window
    ensures width * (1 + span / window) == width + width * more
  {
    more := span / window;
  }

  lemma CountBySpan(fails: seq<FailureRecord>, a: nat, b: nat, width: nat, window: int, span: int)
    requires a < b <= |fails| && window > 0 && Sparse(fails, a, b, width, window)
    requires fails[b - 1].at - fails[a].at <= span
    ensures b - a <= width * (1 + span / window)
  {
    assert fails[a].at <= fails[b - 1].at;
    var more := SpanInWindows(width, window, span);
    CountByWindows(fails, a, b, width, window, more);
  }

  lemma LateFailuresSparse(s: System, u: UserId, delay: Time, width: nat, a: nat, b: nat)
    requires Guarded(s, u) && Crowded(s, u)
    requires Prompt(HistoryOf(s, u).fails, delay, width)
    requires MAX_FAILED_ATTEMPTS - 1 <= a <= b <= |HistoryOf(s, u).fails|
    ensures Sparse(HistoryOf(s, u).fails, a, b, width, LOCKOUT_DURATION - delay)
  {
    var fails := HistoryOf(s, u).fails;
    forall i, j | a <= i <= j < b ensures fails[i].at <= fails[j].at {
      assert RecordGuarded(s, u, j);
    }
    forall i, j | a <= i <= j < b && fails[j].at < fails[i].at + (LOCKOUT_DURATION - delay) ensures j - i < width {
      WindowHoldsWidth(s, u, delay, width, i, j);
    }
  }

  lemma WindowsNonNegative(width: nat, window: int, span: int)
    requires window > 0 && span >= 0
    ensures width * (1 + span / window) >= 0
  {
    assert span / window >= 0;
    MulMonotone(width, 0, 1 + span / window);
  }

  lemma SpanNonNegative(s: System, u: UserId, a: nat, b: nat, span: int)
    requires Guarded(s, u) && a < b <= |HistoryOf(s, u).fails|
    requires HistoryOf(s, u).fails[b - 1].at - HistoryOf(s, u).fails[a].at <= span
    ensures span >= 0
  {
    assert RecordGuarded(s, u, b - 1);
  }

  lemma RateBound(s: System, u: UserId, delay: Time, width: nat, a: nat, b: nat, span: int, window: int)
    requires Guarded(s, u) && Crowded(s, u)
    requires Prompt(HistoryOf(s, u).fails, delay, width)
    requires window == LOCKOUT_DURATION - delay > 0 && a < b <= |HistoryOf(s, u).fails|
    requires HistoryOf(s, u).fails[b - 1].at - HistoryOf(s, u).fails[a].at <= span
    ensures b - a <= 4 + width * (1 + span / window)
  {
    SpanNonNegative(s, u, a, b, span);
    WindowsNonNegative(width, window, span);
    var from := if a < 4 then 4 else a;
    if from < b {
      assert RecordGuarded(s, u, from);
      LateFailuresSparse(s, u, delay, width, from, b);
      CountBySpan(HistoryOf(s, u).fails, from, b, width, window, span);
    }
  }

  /**
   * The guess-rate bound. In every reachable state, of the failures recorded since the last reset those that fall
   * within any span of time number at most `4 + width * (1 + span / (LOCKOUT_DURATION - delay))`, however the
   * requests interleave.
   */
  lemma GuessRateBound(env: Env, s: System, u: UserId, delay: Time, width: nat, a: nat, b: nat, span: int)
    requires Reachable(env, s)
    requires delay < 900_000_000 && Prompt(HistoryOf(s, u).fails, delay, width)
    requires a < b <= |HistoryOf(s, u).fails|
    requires HistoryOf(s, u).fails[b - 1].at - HistoryOf(s, u).fails[a].at <= span
    ensures b - a <= 4 + width * (1 + span / (900_000_000 - delay))
  {
    var window := 900_000_000 - delay;
    assert b - a <= 4 + width * (1 + span / window) by {
      ReachableInvariant(env, s, u);
      RateBound(s, u, delay, width, a, b, span, window);
    }
  }
}
