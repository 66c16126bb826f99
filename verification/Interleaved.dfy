/**
 * Any number of requests in flight over one database. A request arrives and captures its `now`; loads its
 * snapshot; checks its token or scans its candidates; commits its write; and, for `recover`, counts what is
 * left. Every one of these is a separate step, so anything may happen between any two of them.
 */
module Interleaved {
  import opened Types
  import opened Tables
  import opened Handlers

  datatype Phase =
    | Arrived
    | Loaded(snap: Option<Row>)
    | Writing(write: Write)
    | Counting
    | Done(outcome: Outcome)

  /**
   * A request in flight. The rest is history, taken when the snapshot was loaded: how many resets its user's record
   * had gone through and how many failures since the last one (`epoch`, `seen`), how many enables had been
   * committed for it, and which request had committed the last of them (`enables`, `writer`).
   */
  datatype Flight = Flight(req: Request, now: Time, phase: Phase, epoch: nat, seen: nat, enables: nat, writer: nat)

  /**
   * A recorded failure: who committed it, the `now` it captured, when it committed, how many of the failures
   * before it its snapshot could show, and which guesses were in flight when it committed.
   */
  datatype FailureRecord = FailureRecord(id: nat, now: Time, at: Time, seen: nat, crowd: set<nat>)

  /**
   * History of one user's record: committed resets, failures since the last one, committed enables, the first id of
   * the last batch of codes and the request that committed it.
   */
  datatype History = History(resets: nat, fails: seq<FailureRecord>, enables: nat, batch: nat, writer: nat)

  const NO_HISTORY := History(0, [], 0, 0, 0)

  datatype System = System(db: Db, clock: Time, flights: seq<Flight>, history: map<UserId, History>)

  datatype Step =
    | Tick(delta: nat)
    | Arrive(req: Request)
    | Load(id: nat)
    | Check(id: nat)
    | CommitStep(id: nat, stamp: Time)
    | Count(id: nat)

  function InitialSystem(clock: Time): System {
    System(EMPTY_DB, clock, [], map[])
  }

  function HistoryOf(s: System, u: UserId): History {
    if u in s.history then s.history[u] else NO_HISTORY
  }

  /** A guess at `u`'s token that has its snapshot and is not answered yet. */
  predicate GuessInFlight(f: Flight, u: UserId) {
    f.req.IsGuess() && f.req.user == u && (f.phase.Loaded? || f.phase.Writing?)
  }

  function Crowd(s: System, u: UserId): (ids: set<nat>)
    ensures forall i: nat :: i in ids <==> i < |s.flights| && GuessInFlight(s.flights[i], u)
  {
    set i: nat | i < |s.flights| && GuessInFlight(s.flights[i], u)
  }

  /** How many failures since the last reset the flight's snapshot could show. */
  function SeenNow(f: Flight, h: History): nat {
    if f.epoch == h.resets then f.seen else 0
  }

  function HistoryAfter(s: System, id: nat, w: Write): History
    requires id < |s.flights|
  {
    var h := HistoryOf(s, w.user);
    if w.FailureWrite? then
      h.(fails := h.fails + [FailureRecord(id, w.now, s.clock, SeenNow(s.flights[id], h), Crowd(s, w.user))])
    else if w.EnableWrite? then History(h.resets + 1, [], h.enables + 1, s.db.nextCode, id)
    else h.(resets := h.resets + 1, fails := [])
  }

  predicate Waiting(s: System, id: nat) {
    id < |s.flights| && !s.flights[id].phase.Done?
  }

  function SetFlight(s: System, id: nat, f: Flight): System
    requires id < |s.flights|
  {
    s.(flights := s.flights[id := f])
  }

  function DoArrive(s: System, req: Request): System {
    var refused := Validate(req);
    s.(flights := s.flights + [Flight(req, s.clock, if refused.Some? then Done(refused.value) else Arrived, 0, 0, 0, 0)])
  }

  function DoLoad(s: System, id: nat): System {
    if Waiting(s, id) && s.flights[id].phase.Arrived? then
      var f := s.flights[id];
      var h := HistoryOf(s, f.req.user);
      SetFlight(s, id, f.(phase := Loaded(Lookup(s.db, f.req.user)), epoch := h.resets, seen := |h.fails|,
                               enables := h.enables, writer := h.writer))
    else s
  }

  function DoCheck(env: Env, s: System, id: nat): System {
    if Waiting(s, id) && s.flights[id].phase.Loaded? then
      var f := s.flights[id];
      match Decide(env, f.req, f.now, f.phase.snap, s.db.codes, s.clock)
      case Answer(outcome) => SetFlight(s, id, f.(phase := Done(outcome)))
      case Proceed(w) => SetFlight(s, id, f.(phase := Writing(w)))
    else s
  }

  function DoCommit(s: System, id: nat, stamp: Time): System {
    if Waiting(s, id) && s.flights[id].phase.Writing? then
      var f := s.flights[id];
      var w := f.phase.write;
      var after := Commit(s.db, w, stamp);
      if Aborts(s.db, w) then SetFlight(s, id, f.(phase := Done(Failure(Internal))))
      else
        System(after, s.clock,
               s.flights[id := f.(phase := if w.RecoverWrite? then Counting else Done(ReplyTo(s.db, w, after)))],
               s.history[w.user := HistoryAfter(s, id, w)])
    else s
  }

  function DoCount(s: System, id: nat): System {
    if Waiting(s, id) && s.flights[id].phase.Counting? then
      var f := s.flights[id];
      SetFlight(s, id, f.(phase := Done(Success(RecoveredWith(Remaining(s.db, f.req.user))))))
    else s
  }

  /** One step; a step that is not enabled changes nothing. */
  function Next(env: Env, s: System, step: Step): System {
    match step
    case Tick(delta) => s.(clock := s.clock + delta)
    case Arrive(req) => DoArrive(s, req)
    case Load(id) => DoLoad(s, id)
    case Check(id) => DoCheck(env, s, id)
    case CommitStep(id, stamp) => DoCommit(s, id, stamp)
    case Count(id) => DoCount(s, id)
  }

  function Exec(env: Env, s: System, steps: seq<Step>): System
    decreases |steps|
  {
    if steps == [] then s else Next(env, Exec(env, s, Front(steps)), Last(steps))
  }

  /** The states some schedule of some requests leads to from an empty database. */
  ghost predicate Reachable(env: Env, s: System) {
    exists clock, steps :: s == Exec(env, InitialSystem(clock), steps)
  }

  lemma ExecSnoc(env: Env, s: System, steps: seq<Step>, step: Step)
    ensures Exec(env, s, steps + [step]) == Next(env, Exec(env, s, steps), step)
  {
    assert Front(steps + [step]) == steps;
  }

  /** Once a request has its snapshot, checking, committing and counting at once answers as `Handle` does. */
  lemma SerialTail(env: Env, s: System, id: nat)
    requires id < |s.flights| && s.flights[id].phase == Loaded(Lookup(s.db, s.flights[id].req.user))
    requires s.flights[id].now == s.clock && Validate(s.flights[id].req).None?
    ensures var s' := DoCount(DoCommit(DoCheck(env, s, id), id, s.clock), id);
            var handled := Handle(env, s.db, s.flights[id].req, s.clock);
            && s'.db == handled.db
            && s'.flights == s.flights[id := s.flights[id].(phase := Done(handled.outcome))]
  {
    var req := s.flights[id].req;
    DecideKeepsUser(env, req, s.clock, Lookup(s.db, req.user), s.db.codes, s.clock);
  }

  lemma ExecThree(env: Env, s: System, a: Step, b: Step, c: Step)
    ensures Exec(env, s, [a, b, c]) == Next(env, Next(env, Next(env, s, a), b), c)
  {
    ExecSnoc(env, s, [], a);
    ExecSnoc(env, s, [a], b);
    ExecSnoc(env, s, [a, b], c);
    assert [] + [a] == [a] && [a] + [b] == [a, b] && [a, b] + [c] == [a, b, c];
  }

  lemma ExecFive(env: Env, s: System, a: Step, b: Step, c: Step, d: Step, e: Step)
    ensures Exec(env, s, [a, b, c, d, e]) == Next(env, Next(env, Next(env, Next(env, Next(env, s, a), b), c), d), e)
  {
    ExecThree(env, s, a, b, c);
    ExecSnoc(env, s, [a, b, c], d);
    ExecSnoc(env, s, [a, b, c, d], e);
    assert [a, b, c] + [d] == [a, b, c, d] && [a, b, c, d] + [e] == [a, b, c, d, e];
  }

  /** The five steps of a request taken back to back are the request handled on its own. */
  lemma SerialSchedule(env: Env, s: System, req: Request)
    ensures var id := |s.flights|;
            var s' := Exec(env, s, [Arrive(req), Load(id), Check(id), CommitStep(id, s.clock), Count(id)]);
            var handled := Handle(env, s.db, req, s.clock);
            && s'.db == handled.db
            && |s'.flights| == id + 1
            && s'.flights[id].req == req && s'.flights[id].phase == Done(handled.outcome)
            && s'.flights[..id] == s.flights
  {
    var id := |s.flights|;
    ExecFive(env, s, Arrive(req), Load(id), Check(id), CommitStep(id, s.clock), Count(id));
    if Validate(req).None? {
      SerialTail(env, DoLoad(DoArrive(s, req), id), id);
    }
  }
}
