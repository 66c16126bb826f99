/** A burst of wrong guesses at one active record: how many are told 401 and how many 423, under every interleaving. */
module Burst {
  import opened Types
  import opened Tables
  import opened Handlers
  import opened Interleaved
  import opened Lifecycle
  import opened Lockout
  import Totp

  // ---------- counting answers ----------

  datatype Kind = All | Over | ToldError(error: ErrorCode)

  predicate Counts(f: Flight, u: UserId, kind: Kind) {
    f.req.user == u &&
    match kind
    case All => true
    case Over => f.phase.Done?
    case ToldError(error) => f.phase == Done(Failure(error))
  }

  /** How many of `u`'s requests are of the given kind. */
  function Tally(flights: seq<Flight>, u: UserId, kind: Kind): nat {
    if flights == [] then 0
    else Tally(Front(flights), u, kind) + (if Counts(Last(flights), u, kind) then 1 else 0)
  }

  lemma {:induction false} TallySet(flights: seq<Flight>, id: nat, f: Flight, u: UserId, kind: Kind)
    requires id < |flights|
    ensures Tally(flights[id := f], u, kind) ==
            Tally(flights, u, kind) - (if Counts(flights[id], u, kind) then 1 else 0) + (if Counts(f, u, kind) then 1 else 0)
  {
    if id == |flights| - 1 {
      assert Front(flights[id := f]) == Front(flights);
    } else {
      TallySet(Front(flights), id, f, u, kind);
      assert Front(flights[id := f]) == Front(flights)[id := f];
    }
  }

  lemma TallySnoc(flights: seq<Flight>, f: Flight, u: UserId, kind: Kind)
    ensures Tally(flights + [f], u, kind) == Tally(flights, u, kind) + (if Counts(f, u, kind) then 1 else 0)
  {
    assert Front(flights + [f]) == flights;
  }

  lemma {:induction false} AllOver(flights: seq<Flight>, u: UserId)
    requires forall i :: 0 <= i < |flights| && flights[i].req.user == u ==> flights[i].phase.Done?
    ensures Tally(flights, u, Over) == Tally(flights, u, All)
  {
    if flights == [] {
    } else {
      AllOver(Front(flights), u);
    }
  }

  // ---------- the burst ----------

  /** A well-formed, authorised guess whose token is wrong at every instant from `from` to `to`. */
  ghost predicate WrongGuess(env: Env, secret: string, req: Request, u: UserId, from: Time, to: Time) {
    && req.IsGuess() && req.user == u
    && Validate(req).None?
    && Totp.IsValidFormat(req.token)
    && forall t :: from <= t <= to ==> !Totp.Accepts(env, secret, t, req.token)
  }

  function Min(a: int, b: int): int { if a <= b then a else b }
  function Max(a: int, b: int): int { if a >= b then a else b }

  /** How many more failures still get a 401 when the counter stands at `c`. */
  function Allowance(c: int): int { Max(0, 4 - c) }

  function Base(row: Row): Row {
    row.(failedAttempts := 0, lockedUntil := None)
  }

  /** The burst starts in `s0` from the active record `row0`. */
  ghost predicate Started(env: Env, s0: System, u: UserId, secret: string) {
    && Invariant(env, s0, u)
    && u in s0.db.records && s0.db.records[u].enabled
    && TotpFromRecord(env, s0.db.records[u]) == Secret(secret)
    && forall i :: 0 <= i < |s0.flights| && s0.flights[i].req.user == u ==> s0.flights[i].phase.Done?
  }

  /** A request of the burst: its snapshot shows the record but for the counter, and no lock before the fifth failure. */
  ghost predicate InBurst(env: Env, row: Row, f: Flight, u: UserId, secret: string, from: Time, to: Time) {
    f.req.user == u && !f.phase.Done? ==>
      && WrongGuess(env, secret, f.req, u, from, to)
      && match f.phase
         case Arrived => true
         case Loaded(snap) =>
           && snap.Some? && Base(snap.value) == Base(row)
           && (snap.value.lockedUntil.Some? ==> row.failedAttempts >= MAX_FAILED_ATTEMPTS)
         case Writing(w) => w.FailureWrite? && w.user == u
         case _ => false
  }

  /** The state of the count: failures so far, and the answers given since `s0`. */
  predicate Balanced(s0: System, s: System, u: UserId)
    requires u in s0.db.records && u in s.db.records
  {
    var (c, n) := (s0.db.records[u].failedAttempts, s.db.records[u].failedAttempts);
    var unauthorized := Tally(s.flights, u, ToldError(InvalidToken)) - Tally(s0.flights, u, ToldError(InvalidToken));
    var locked := Tally(s.flights, u, ToldError(AccountLocked)) - Tally(s0.flights, u, ToldError(AccountLocked));
    var over := Tally(s.flights, u, Over) - Tally(s0.flights, u, Over);
    && unauthorized == Min(n - c, Allowance(c))
    && unauthorized + locked == over
    && over >= n - c >= 0
    && (over > n - c ==> n >= MAX_FAILED_ATTEMPTS)
  }

  ghost predicate Bursting(env: Env, s0: System, s: System, u: UserId, secret: string, to: Time) {
    && u in s0.db.records && u in s.db.records
    && s0.clock <= s.clock
    && Base(s.db.records[u]) == Base(s0.db.records[u])
    && (forall i :: 0 <= i < |s.flights| ==> InBurst(env, s.db.records[u], s.flights[i], u, secret, s0.clock, to))
    && Balanced(s0, s, u)
  }

  /** A request of the burst that has its snapshot is refused by the lock it saw, or goes on to record a failure. */
  lemma CheckInBurst(env: Env, row0: Row, row: Row, f: Flight, u: UserId, secret: string, from: Time, to: Time, codes: seq<CodeRow>, at: Time)
    requires row0.enabled && TotpFromRecord(env, row0) == Secret(secret) && Base(row) == Base(row0)
    requires f.req.user == u && f.phase.Loaded? && InBurst(env, row, f, u, secret, from, to)
    requires from <= at <= to
    ensures var d := Decide(env, f.req, f.now, f.phase.snap, codes, at);
            if f.phase.snap.value.IsLocked(f.now) then d == Answer(Failure(AccountLocked)) && row.failedAttempts >= MAX_FAILED_ATTEMPTS
            else d == Proceed(FailureWrite(u, f.now))
  {
    var snap := f.phase.snap.value;
    assert snap.enabled == Base(snap).enabled && row0.enabled == Base(row0).enabled;
    assert TotpFromRecord(env, snap) == TotpFromRecord(env, Base(snap)) == TotpFromRecord(env, Base(row0));
  }

  lemma TallyAll(flights: seq<Flight>, id: nat, f: Flight, u: UserId)
    requires id < |flights|
    ensures forall kind :: Tally(flights[id := f], u, kind) ==
              Tally(flights, u, kind) - (if Counts(flights[id], u, kind) then 1 else 0) + (if Counts(f, u, kind) then 1 else 0)
  {
    forall kind ensures Tally(flights[id := f], u, kind) ==
              Tally(flights, u, kind) - (if Counts(flights[id], u, kind) then 1 else 0) + (if Counts(f, u, kind) then 1 else 0)
    {
      TallySet(flights, id, f, u, kind);
    }
  }

  lemma ArriveBursting(env: Env, s0: System, s: System, req: Request, u: UserId, secret: string, to: Time)
    requires Bursting(env, s0, s, u, secret, to)
    requires req.user == u ==> WrongGuess(env, secret, req, u, s0.clock, to)
    ensures Bursting(env, s0, DoArrive(s, req), u, secret, to)
  {
    var f := Last(DoArrive(s, req).flights);
    forall kind ensures Tally(s.flights + [f], u, kind) == Tally(s.flights, u, kind) + (if Counts(f, u, kind) then 1 else 0) {
      TallySnoc(s.flights, f, u, kind);
    }
  }

  lemma LoadBursting(env: Env, s0: System, s: System, id: nat, u: UserId, secret: string, to: Time)
    requires Bursting(env, s0, s, u, secret, to) && Exact(s, u)
    ensures Bursting(env, s0, DoLoad(s, id), u, secret, to)
  {
    if Waiting(s, id) && s.flights[id].phase.Arrived? {
      assert InBurst(env, s.db.records[u], s.flights[id], u, secret, s0.clock, to);
      TallyAll(s.flights, id, DoLoad(s, id).flights[id], u);
    }
  }

  lemma InBurstStays(env: Env, row: Row, row': Row, f: Flight, u: UserId, secret: string, from: Time, to: Time)
    requires InBurst(env, row, f, u, secret, from, to)
    requires Base(row') == Base(row) && row'.failedAttempts >= row.failedAttempts
    ensures InBurst(env, row', f, u, secret, from, to)
  {
  }

  lemma CheckedFlight(env: Env, s0: System, s: System, id: nat, u: UserId, secret: string, to: Time)
    requires Started(env, s0, u, secret) && Bursting(env, s0, s, u, secret, to) && s.clock <= to
    requires Waiting(s, id) && s.flights[id].phase.Loaded? && s.flights[id].req.user == u
    ensures var (row, f) := (s.db.records[u], DoCheck(env, s, id).flights[id]);
            && f.req == s.flights[id].req
            && (f.phase == Writing(FailureWrite(u, f.now)) ||
                (f.phase == Done(Failure(AccountLocked)) && row.failedAttempts >= MAX_FAILED_ATTEMPTS))
  {
    var f := s.flights[id];
    assert InBurst(env, s.db.records[u], f, u, secret, s0.clock, to);
    CheckInBurst(env, s0.db.records[u], s.db.records[u], f, u, secret, s0.clock, to, s.db.codes, s.clock);
  }

  lemma CheckBalanced(s0: System, s: System, s': System, id: nat, u: UserId)
    requires u in s0.db.records && u in s.db.records && Balanced(s0, s, u) && s'.db == s.db
    requires id < |s.flights| == |s'.flights|
    requires s'.flights == s.flights[id := s.flights[id].(phase := s'.flights[id].phase)]
    requires s.flights[id].req.user == u ==>
               && !s.flights[id].phase.Done?
               && (s'.flights[id].phase.Writing? ||
                   (s'.flights[id].phase == Done(Failure(AccountLocked)) && s.db.records[u].failedAttempts >= MAX_FAILED_ATTEMPTS))
    ensures Balanced(s0, s', u)
  {
    TallyAll(s.flights, id, s'.flights[id], u);
  }

  lemma CheckBursting(env: Env, s0: System, s: System, id: nat, u: UserId, secret: string, to: Time)
    requires Started(env, s0, u, secret) && Bursting(env, s0, s, u, secret, to) && s.clock <= to
    ensures Bursting(env, s0, DoCheck(env, s, id), u, secret, to)
  {
    if Waiting(s, id) && s.flights[id].phase.Loaded? {
      var s' := DoCheck(env, s, id);
      assert s'.flights == s.flights[id := s.flights[id].(phase := s'.flights[id].phase)];
      if s.flights[id].req.user == u {
        CheckedFlight(env, s0, s, id, u, secret, to);
      }
      CheckBalanced(s0, s, s', id, u);
      forall i | 0 <= i < |s'.flights| ensures InBurst(env, s'.db.records[u], s'.flights[i], u, secret, s0.clock, to) {
        assert InBurst(env, s.db.records[u], s.flights[i], u, secret, s0.clock, to);
      }
    }
  }

  /** A failure of the burst: the counter goes up by one and the answer goes by the new count. */
  lemma FailureInBurst(env: Env, s: System, id: nat, stamp: Time, u: UserId)
    requires Invariant(env, s, u) && Waiting(s, id) && u in s.db.records
    requires s.flights[id].req.user == u && s.flights[id].phase.Writing? && s.flights[id].phase.write.FailureWrite?
    ensures var s' := DoCommit(s, id, stamp);
            var n := s.db.records[u].failedAttempts + 1;
            && s'.clock == s.clock
            && u in s'.db.records && s'.db.records[u].failedAttempts == n
            && Base(s'.db.records[u]) == Base(s.db.records[u])
            && s'.flights == s.flights[id := s.flights[id].(phase :=
                 Done(Failure(if n >= MAX_FAILED_ATTEMPTS then AccountLocked else InvalidToken)))]
  {
    assert FlightSafe(env, s, s.flights[id]);
    AbortsIff(env, s, id);
  }

  lemma OtherCommit(env: Env, s: System, id: nat, stamp: Time, u: UserId)
    requires Safe(env, s) && Waiting(s, id) && s.flights[id].phase.Writing? && s.flights[id].req.user != u
    ensures var s' := DoCommit(s, id, stamp);
            && s'.clock == s.clock && Lookup(s'.db, u) == Lookup(s.db, u)
            && |s'.flights| == |s.flights| && s'.flights[id].req.user != u
            && s'.flights == s.flights[id := s'.flights[id]]
  {
    assert FlightSafe(env, s, s.flights[id]);
  }

  lemma FailureBalanced(s0: System, s: System, s': System, id: nat, u: UserId)
    requires u in s0.db.records && u in s.db.records && u in s'.db.records && Balanced(s0, s, u)
    requires id < |s.flights| && s.flights[id].req.user == u && !s.flights[id].phase.Done?
    requires var n := s.db.records[u].failedAttempts + 1;
             && s'.db.records[u].failedAttempts == n
             && s'.flights == s.flights[id := s.flights[id].(phase :=
                  Done(Failure(if n >= MAX_FAILED_ATTEMPTS then AccountLocked else InvalidToken)))]
    ensures Balanced(s0, s', u)
  {
    TallyAll(s.flights, id, s'.flights[id], u);
  }

  lemma OtherBalanced(s0: System, s: System, s': System, id: nat, u: UserId)
    requires u in s0.db.records && u in s.db.records && Balanced(s0, s, u)
    requires id < |s.flights| && s.flights[id].req.user != u
    requires Lookup(s'.db, u) == Lookup(s.db, u) && |s'.flights| == |s.flights| && s'.flights[id].req.user != u
    requires s'.flights == s.flights[id := s'.flights[id]]
    ensures u in s'.db.records && s'.db.records[u] == s.db.records[u] && Balanced(s0, s', u)
  {
    assert Lookup(s'.db, u).Some?;
    TallyAll(s.flights, id, s'.flights[id], u);
  }

  lemma CommitBursting(env: Env, s0: System, s: System, id: nat, stamp: Time, u: UserId, secret: string, to: Time)
    requires Started(env, s0, u, secret) && Bursting(env, s0, s, u, secret, to) && Invariant(env, s, u)
    ensures Bursting(env, s0, DoCommit(s, id, stamp), u, secret, to)
  {
    if Waiting(s, id) && s.flights[id].phase.Writing? {
      var (f, s') := (s.flights[id], DoCommit(s, id, stamp));
      assert InBurst(env, s.db.records[u], f, u, secret, s0.clock, to);
      if f.req.user == u {
        FailureInBurst(env, s, id, stamp, u);
        FailureBalanced(s0, s, s', id, u);
      } else {
        OtherCommit(env, s, id, stamp, u);
        OtherBalanced(s0, s, s', id, u);
      }
      forall i | 0 <= i < |s'.flights| ensures InBurst(env, s'.db.records[u], s'.flights[i], u, secret, s0.clock, to) {
        if i != id {
          InBurstStays(env, s.db.records[u], s'.db.records[u], s.flights[i], u, secret, s0.clock, to);
        }
      }
    }
  }

  lemma CountBursting(env: Env, s0: System, s: System, id: nat, u: UserId, secret: string, to: Time)
    requires Bursting(env, s0, s, u, secret, to)
    ensures Bursting(env, s0, DoCount(s, id), u, secret, to)
  {
    if Waiting(s, id) && s.flights[id].phase.Counting? {
      assert InBurst(env, s.db.records[u], s.flights[id], u, secret, s0.clock, to);
      TallyAll(s.flights, id, DoCount(s, id).flights[id], u);
    }
  }

  lemma NextBursting(env: Env, s0: System, s: System, step: Step, u: UserId, secret: string, to: Time)
    requires Started(env, s0, u, secret) && Bursting(env, s0, s, u, secret, to) && Invariant(env, s, u) && s.clock <= to
    requires step.Arrive? && step.req.user == u ==> WrongGuess(env, secret, step.req, u, s0.clock, to)
    ensures Bursting(env, s0, Next(env, s, step), u, secret, to)
  {
    match step
    case Tick(_) =>
    case Arrive(req) => ArriveBursting(env, s0, s, req, u, secret, to);
    case Load(id) => LoadBursting(env, s0, s, id, u, secret, to);
    case Check(id) => CheckBursting(env, s0, s, id, u, secret, to);
    case CommitStep(id, stamp) => CommitBursting(env, s0, s, id, stamp, u, secret, to);
    case Count(id) => CountBursting(env, s0, s, id, u, secret, to);
  }

  lemma ClockRuns(env: Env, s: System, step: Step)
    ensures s.clock <= Next(env, s, step).clock
  {
  }

  lemma {:induction false} ExecBursting(env: Env, s0: System, steps: seq<Step>, u: UserId, secret: string, to: Time)
    requires Started(env, s0, u, secret) && Exec(env, s0, steps).clock <= to
    requires forall i :: 0 <= i < |steps| && steps[i].Arrive? && steps[i].req.user == u ==>
               WrongGuess(env, secret, steps[i].req, u, s0.clock, to)
    ensures Bursting(env, s0, Exec(env, s0, steps), u, secret, to)
    decreases |steps|
  {
    if steps == [] {
      assert Bursting(env, s0, s0, u, secret, to);
    } else {
      var mid := Exec(env, s0, Front(steps));
      ClockRuns(env, mid, Last(steps));
      ExecBursting(env, s0, Front(steps), u, secret, to);
      ExecInvariant(env, s0, Front(steps), u);
      NextBursting(env, s0, mid, Last(steps), u, secret, to);
    }
  }

  /** Some interleaving leads from `s0` to `s` in which every request of `u` that arrives is a wrong guess. */
  ghost predicate WrongGuessesOnly(env: Env, s0: System, s: System, u: UserId, secret: string) {
    exists steps: seq<Step> ::
      && s == Exec(env, s0, steps)
      && forall i :: 0 <= i < |steps| && steps[i].Arrive? && steps[i].req.user == u ==>
           WrongGuess(env, secret, steps[i].req, u, s0.clock, s.clock)
  }

  /** No request of `u` is waiting for its answer. */
  predicate AllAnswered(s: System, u: UserId) {
    forall i :: 0 <= i < |s.flights| && s.flights[i].req.user == u ==> s.flights[i].phase.Done?
  }

  lemma WrongGuessesBurst(env: Env, s0: System, s: System, u: UserId, secret: string)
    requires Started(env, s0, u, secret) && WrongGuessesOnly(env, s0, s, u, secret)
    ensures Bursting(env, s0, s, u, secret, s.clock)
  {
    var steps: seq<Step> :|
      && s == Exec(env, s0, steps)
      && forall i :: 0 <= i < |steps| && steps[i].Arrive? && steps[i].req.user == u ==>
           WrongGuess(env, secret, steps[i].req, u, s0.clock, s.clock);
    ExecBursting(env, s0, steps, u, secret, s.clock);
  }

  /**
   * What the guesses of `u` between `s0` and `s` came to: all of `n` answered, as many 401s as the counter allowed and
   * otherwise 423; each counted, unless the counter stands past the limit, where a guess may have met the lock instead.
   */
  predicate Settled(s0: System, s: System, u: UserId)
    requires u in s0.db.records && u in s.db.records
  {
    var (c, c') := (s0.db.records[u].failedAttempts, s.db.records[u].failedAttempts);
    var n := Tally(s.flights, u, All) - Tally(s0.flights, u, All);
    var unauthorized := Tally(s.flights, u, ToldError(InvalidToken)) - Tally(s0.flights, u, ToldError(InvalidToken));
    var locked := Tally(s.flights, u, ToldError(AccountLocked)) - Tally(s0.flights, u, ToldError(AccountLocked));
    && unauthorized == Min(n, Allowance(s0.db.records[u].failedAttempts))
    && locked == n - unauthorized
    && c <= c' <= c + n && (c' < c + n ==> c' >= 5)
  }

  lemma BalancedSettles(s0: System, s: System, u: UserId)
    requires u in s0.db.records && u in s.db.records && Balanced(s0, s, u)
    requires AllAnswered(s0, u) && AllAnswered(s, u)
    ensures Settled(s0, s, u)
  {
    AllOver(s0.flights, u);
    AllOver(s.flights, u);
  }

  /**
   * `n` wrong guesses at an active record whose counter stands at `c`, in any interleaving with each other and
   * with anything other users do: once all are answered, exactly `min(n, max(0, 4 - c))` were told 401 and all
   * the others 423. Every one of them is in the counter, except that once it has reached five some may have met the
   * lock instead.
   */
  lemma BurstAnswers(env: Env, s0: System, s: System, u: UserId, secret: string)
    requires Reachable(env, s0) && AllAnswered(s0, u)
    requires u in s0.db.records && s0.db.records[u].enabled && TotpFromRecord(env, s0.db.records[u]) == Secret(secret)
    requires WrongGuessesOnly(env, s0, s, u, secret) && AllAnswered(s, u)
    ensures u in s.db.records && Settled(s0, s, u)
  {
    ReachableInvariant(env, s0, u);
    WrongGuessesBurst(env, s0, s, u, secret);
    BalancedSettles(s0, s, u);
  }
}
