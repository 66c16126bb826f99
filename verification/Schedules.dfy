/** Serial runs are among the interleavings, so what every interleaving keeps they keep too. */
module Schedules {
  import opened Types
  import opened Tables
  import opened Handlers
  import opened Interleaved
  import opened Serial

  /** The calls come in the order of their times, none before `from`. */
  predicate Timely(calls: seq<Call>, from: Time) {
    calls == [] || (Timely(Front(calls), from) && LastTime(Front(calls), from) <= Last(calls).t)
  }

  function LastTime(calls: seq<Call>, from: Time): Time {
    if calls == [] then from else Last(calls).t
  }

  lemma {:induction false} ExecAppend(env: Env, s: System, a: seq<Step>, b: seq<Step>)
    ensures Exec(env, s, a + b) == Exec(env, Exec(env, s, a), b)
    decreases |b|
  {
    if b == [] {
      assert a + b == a;
    } else {
      ExecAppend(env, s, a, Front(b));
      assert Front(a + b) == a + Front(b) && Last(a + b) == Last(b);
    }
  }

  lemma OnlyTicksMoveClock(env: Env, s: System, step: Step)
    requires !step.Tick?
    ensures Next(env, s, step).clock == s.clock
  {
  }

  lemma {:induction false} WithoutTicks(env: Env, s: System, steps: seq<Step>)
    requires forall i :: 0 <= i < |steps| ==> !steps[i].Tick?
    ensures Exec(env, s, steps).clock == s.clock
    decreases |steps|
  {
    if steps == [] {
    } else {
      WithoutTicks(env, s, Front(steps));
      OnlyTicksMoveClock(env, Exec(env, s, Front(steps)), Last(steps));
    }
  }

  lemma Wait(env: Env, s: System, t: Time)
    requires s.clock <= t
    ensures Exec(env, s, [Tick(t - s.clock)]) == s.(clock := t)
  {
    ExecSnoc(env, s, [], Tick(t - s.clock));
    assert [] + [Tick(t - s.clock)] == [Tick(t - s.clock)];
  }

  /** `s'` is `s` once one more request has come and been answered at `t`. */
  predicate Answers(env: Env, s: System, s': System, call: Call) {
    var handled := Handle(env, s.db, call.req, call.t);
    && s'.db == handled.db && s'.clock == call.t
    && |s'.flights| == |s.flights| + 1 && s'.flights[..|s.flights|] == s.flights
    && s'.flights[|s.flights|].req == call.req && s'.flights[|s.flights|].phase == Done(handled.outcome)
  }

  lemma CallSteps(env: Env, s: System, req: Request) returns (steps: seq<Step>)
    ensures Answers(env, s, Exec(env, s, steps), Call(req, s.clock))
  {
    var id := |s.flights|;
    steps := [Arrive(req), Load(id), Check(id), CommitStep(id, s.clock), Count(id)];
    SerialSchedule(env, s, req);
    WithoutTicks(env, s, steps);
  }

  /** One call at its time: wait, then take its five steps. */
  lemma CallSchedule(env: Env, s: System, call: Call) returns (steps: seq<Step>)
    requires s.clock <= call.t
    ensures Answers(env, s, Exec(env, s, steps), call)
  {
    Wait(env, s, call.t);
    var five := CallSteps(env, s.(clock := call.t), call.req);
    ExecAppend(env, s, [Tick(call.t - s.clock)], five);
    steps := [Tick(call.t - s.clock)] + five;
  }

  /** Request `i` in flight is call `i` of the run, answered as the run answers it. */
  predicate AnsweredAlike(env: Env, s: System, calls: seq<Call>, i: nat)
    requires i < |calls| == |s.flights|
  {
    s.flights[i].req == calls[i].req && s.flights[i].phase == Done(LastOutcome(env, EMPTY_DB, calls[..i + 1]))
  }

  /**
   * Every serial run with a forward-moving clock is the schedule that takes each request's steps back to back:
   * the same tables, the same clock, and every request answered the same.
   */
  lemma {:induction false} RunIsSchedule(env: Env, calls: seq<Call>, from: Time) returns (steps: seq<Step>)
    requires Timely(calls, from)
    ensures var s := Exec(env, InitialSystem(from), steps);
            && s.db == Run(env, EMPTY_DB, calls) && s.clock == LastTime(calls, from)
            && |s.flights| == |calls|
            && forall i :: 0 <= i < |calls| ==> AnsweredAlike(env, s, calls, i)
    decreases |calls|
  {
    if calls == [] {
      steps := [];
    } else {
      var before := RunIsSchedule(env, Front(calls), from);
      var s := Exec(env, InitialSystem(from), before);
      var more := CallSchedule(env, s, Last(calls));
      ExecAppend(env, InitialSystem(from), before, more);
      steps := before + more;
      AnsweredBefore(env, s, Exec(env, s, more), calls);
    }
  }

  lemma AnsweredBefore(env: Env, s: System, s': System, calls: seq<Call>)
    requires calls != [] && |s.flights| == |calls| - 1 && s.db == Run(env, EMPTY_DB, Front(calls))
    requires forall i :: 0 <= i < |calls| - 1 ==> AnsweredAlike(env, s, Front(calls), i)
    requires Answers(env, s, s', Last(calls))
    ensures forall i :: 0 <= i < |calls| ==> AnsweredAlike(env, s', calls, i)
  {
    forall i | 0 <= i < |calls| ensures AnsweredAlike(env, s', calls, i) {
      if i == |calls| - 1 {
        assert calls[..i + 1] == calls;
      } else {
        assert AnsweredAlike(env, s, Front(calls), i);
        assert Front(calls)[..i + 1] == calls[..i + 1] && s'.flights[..|s.flights|][i] == s'.flights[i];
      }
    }
  }
}
