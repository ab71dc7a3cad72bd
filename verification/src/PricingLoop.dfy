/** The pricing loop as a system of jobs: any interleaving of taking, running and evaluating them. */
module PricingLoop {
  import opened PricingJobs

  datatype Phase = Queued | Running | Settled

  /** Job i, where it is, and how often it has been run since the queue was set up. */
  datatype Loop = Loop(jobs: seq<Job>, phases: seq<Phase>, runs: seq<nat>)

  datatype Event =
    | Take(i: nat)                                    // getNextPricingjob returns job i, or discards it if done
    | Abort(i: nat)                                   // the loop drops the job without running it
    | Finish(i: nat, status: Status, nimpcols: nat)   // the solver answers and the job is evaluated

  predicate Shaped(s: Loop) {
    |s.jobs| == |s.phases| == |s.runs|
  }

  predicate Enabled(s: Loop, e: Event) {
    Shaped(s) && e.i < |s.jobs| && s.phases[e.i] == if e.Take? then Queued else Running
  }

  function Step(P: Params, s: Loop, e: Event): (t: Loop)
    requires Enabled(s, e)
    ensures Shaped(t) && |t.jobs| == |s.jobs|
  {
    match e
    case Take(i) => s.(phases := s.phases[i := if IsDone(s.jobs[i]) then Settled else Running])
    case Abort(i) => s.(phases := s.phases[i := Settled])
    case Finish(i, status, nimpcols) =>
      var v := RunJob(P, s.jobs[i], status, nimpcols);
      Loop(s.jobs[i := v.job], s.phases[i := if v.requeued then Queued else Settled], s.runs[i := s.runs[i] + 1])
  }

  /** setupPriorityQueue: all jobs are reset, those of the current chunk are queued. */
  function Setup(P: Params, heuristic: bool, nbranchconss: seq<nat>, inChunk: seq<bool>): (s: Loop)
    requires |inChunk| == |nbranchconss|
    ensures Shaped(s) && |s.jobs| == |nbranchconss|
  {
    Loop(seq(|nbranchconss|, i requires 0 <= i < |nbranchconss| => Fresh(P, heuristic, nbranchconss[i], 0)),
         seq(|inChunk|, i requires 0 <= i < |inChunk| => if inChunk[i] then Queued else Settled),
         seq(|inChunk|, i => 0))
  }

  function Budget(P: Params, nbranchconss: nat): nat {
    (P.heurpricingiters + 1) * (EnabledFrom(P.solvers, 0) + nbranchconss)
  }

  /** The runs made so far plus the work left stay within the budget of the job. */
  ghost predicate WithinBudget(P: Params, s: Loop, i: nat)
    requires Shaped(s) && i < |s.jobs|
  {
    && s.runs[i] <= Budget(P, s.jobs[i].nbranchconss)
    && (s.phases[i] != Settled ==>
          Pending(P, s.jobs[i]) && s.runs[i] + Work(P, s.jobs[i]) <= Budget(P, s.jobs[i].nbranchconss))
  }

  ghost predicate AllWithinBudget(P: Params, s: Loop) {
    Shaped(s) && forall i :: 0 <= i < |s.jobs| ==> WithinBudget(P, s, i)
  }

  /** An upper bound on the number of events to come. */
  function Fuel(P: Params, j: Job, phase: Phase): nat
    requires phase != Settled ==> Pending(P, j)
  {
    if phase == Settled then 0 else 2 * Work(P, j) - if phase == Running then 1 else 0
  }

  function TotalFuel(P: Params, s: Loop, n: nat): nat
    requires AllWithinBudget(P, s) && n <= |s.jobs|
  {
    if n == 0 then 0
    else
      assert WithinBudget(P, s, n - 1);
      TotalFuel(P, s, n - 1) + Fuel(P, s.jobs[n - 1], s.phases[n - 1])
  }

  lemma SetupWithinBudget(P: Params, heuristic: bool, nbranchconss: seq<nat>, inChunk: seq<bool>)
    requires |inChunk| == |nbranchconss| && EnabledFrom(P.solvers, 0) > 0 && (heuristic ==> P.heurpricingiters > 0)
    ensures AllWithinBudget(P, Setup(P, heuristic, nbranchconss, inChunk))
  {
    var s := Setup(P, heuristic, nbranchconss, inChunk);
    forall i | 0 <= i < |s.jobs| ensures WithinBudget(P, s, i) {
      FreshWork(P, heuristic, nbranchconss[i], 0);
    }
  }

  lemma StepWithinBudget(P: Params, s: Loop, e: Event)
    requires AllWithinBudget(P, s) && Enabled(s, e)
    ensures AllWithinBudget(P, Step(P, s, e))
    ensures forall i :: 0 <= i < |s.jobs| ==> Step(P, s, e).jobs[i].nbranchconss == s.jobs[i].nbranchconss
  {
    var t := Step(P, s, e);
    assert WithinBudget(P, s, e.i);
    if e.Finish? { RunUsesWork(P, s.jobs[e.i], e.status, e.nimpcols); }
    forall i | 0 <= i < |t.jobs| ensures WithinBudget(P, t, i) {
      assert WithinBudget(P, s, i);
    }
  }

  lemma StepBurnsFuel(P: Params, s: Loop, e: Event)
    requires AllWithinBudget(P, s) && Enabled(s, e)
    ensures AllWithinBudget(P, Step(P, s, e))
    ensures TotalFuel(P, Step(P, s, e), |s.jobs|) < TotalFuel(P, s, |s.jobs|)
  {
    StepWithinBudget(P, s, e);
    assert WithinBudget(P, s, e.i);
    if e.Finish? { RunUsesWork(P, s.jobs[e.i], e.status, e.nimpcols); }
    FuelOfOthers(P, s, Step(P, s, e), e.i, |s.jobs|);
  }

  lemma {:induction false} FuelOfOthers(P: Params, s: Loop, t: Loop, k: nat, n: nat)
    requires AllWithinBudget(P, s) && AllWithinBudget(P, t) && |t.jobs| == |s.jobs| && k < |s.jobs| && n <= |s.jobs|
    requires forall i :: 0 <= i < |s.jobs| && i != k ==> t.jobs[i] == s.jobs[i] && t.phases[i] == s.phases[i]
    requires WithinBudget(P, s, k) && WithinBudget(P, t, k) &&
             Fuel(P, t.jobs[k], t.phases[k]) < Fuel(P, s.jobs[k], s.phases[k])
    ensures if n <= k then TotalFuel(P, t, n) == TotalFuel(P, s, n) else TotalFuel(P, t, n) < TotalFuel(P, s, n)
  {
    if n > 0 { FuelOfOthers(P, s, t, k, n - 1); }
  }

  ghost predicate IsRun(P: Params, s: Loop, events: seq<Event>)
    decreases |events|
  {
    |events| == 0 || (Enabled(s, events[0]) && IsRun(P, Step(P, s, events[0]), events[1..]))
  }

  function After(P: Params, s: Loop, events: seq<Event>): Loop
    requires IsRun(P, s, events)
    decreases |events|
  {
    if |events| == 0 then s else After(P, Step(P, s, events[0]), events[1..])
  }

  /** Every run is finite, and in every state it reaches each job is within its budget. */
  lemma {:induction false} RunsWithinBudget(P: Params, s: Loop, events: seq<Event>)
    requires AllWithinBudget(P, s) && IsRun(P, s, events)
    ensures var t := After(P, s, events);
      && AllWithinBudget(P, t) && |t.jobs| == |s.jobs|
      && (forall i :: 0 <= i < |s.jobs| ==> t.jobs[i].nbranchconss == s.jobs[i].nbranchconss)
      && |events| + TotalFuel(P, t, |t.jobs|) <= TotalFuel(P, s, |s.jobs|)
    decreases |events|
  {
    if |events| > 0 {
      StepWithinBudget(P, s, events[0]);
      StepBurnsFuel(P, s, events[0]);
      RunsWithinBudget(P, Step(P, s, events[0]), events[1..]);
    }
  }

  function Sum(s: seq<nat>): nat {
    if |s| == 0 then 0 else Sum(s[..|s| - 1]) + s[|s| - 1]
  }

  /** tmpmaxniters: the iteration limit of initPricing before it is capped. */
  function UncappedIterations(P: Params, nbranchconss: seq<nat>): nat {
    if |nbranchconss| == 0 then 0
    else UncappedIterations(P, nbranchconss[..|nbranchconss| - 1]) + Iterations(P, nbranchconss[|nbranchconss| - 1])
  }

  lemma {:induction false} SumWithinIterations(P: Params, nbranchconss: seq<nat>, runs: seq<nat>)
    requires |runs| == |nbranchconss|
    requires forall i :: 0 <= i < |runs| ==> runs[i] <= Iterations(P, nbranchconss[i])
    ensures Sum(runs) <= UncappedIterations(P, nbranchconss)
  {
    if |runs| > 0 { SumWithinIterations(P, nbranchconss[..|runs| - 1], runs[..|runs| - 1]); }
  }

  /**
   * From setupPriorityQueue on, whatever the solvers answer and however the steps interleave: each job is run
   * at most (heurpricingiters+1)*(enabled solvers+branching constraints) times, and all together at most
   * tmpmaxniters times.
   */
  lemma TotalRunsBounded(P: Params, heuristic: bool, nbranchconss: seq<nat>, inChunk: seq<bool>, events: seq<Event>)
    requires |inChunk| == |nbranchconss| && EnabledFrom(P.solvers, 0) > 0 && (heuristic ==> P.heurpricingiters > 0)
    requires IsRun(P, Setup(P, heuristic, nbranchconss, inChunk), events)
    ensures var t := After(P, Setup(P, heuristic, nbranchconss, inChunk), events);
      && |t.runs| == |nbranchconss|
      && (forall i :: 0 <= i < |t.runs| ==>
            t.runs[i] <= Budget(P, nbranchconss[i]) <= Iterations(P, nbranchconss[i]))
      && Sum(t.runs) <= UncappedIterations(P, nbranchconss)
  {
    var s := Setup(P, heuristic, nbranchconss, inChunk);
    SetupWithinBudget(P, heuristic, nbranchconss, inChunk);
    RunsWithinBudget(P, s, events);
    var t := After(P, s, events);
    forall i | 0 <= i < |t.runs|
      ensures t.runs[i] <= Budget(P, nbranchconss[i]) <= Iterations(P, nbranchconss[i])
    {
      assert WithinBudget(P, t, i);
      WorkWithinIterations(P, nbranchconss[i]);
    }
    SumWithinIterations(P, nbranchconss, t.runs);
  }

  // ---------- the sequential loop under its iteration limit ----------

  /** How often a single pending job is run when the solvers always give the worst answer. */
  function WorstRuns(P: Params, j: Job): nat
    requires Pending(P, j) && !IsDone(j)
    decreases Work(P, j)
  {
    WorstRunUsesOne(P, j);
    var v := RunJob(P, j, WorstAnswer(j), 0);
    1 + if v.requeued then WorstRuns(P, v.job) else 0
  }

  /** The worst case is exactly the work of the job: the bound cannot be improved. */
  lemma {:induction false} WorstRunsIsWork(P: Params, j: Job)
    requires Pending(P, j) && !IsDone(j)
    ensures WorstRuns(P, j) == Work(P, j)
    decreases Work(P, j)
  {
    WorstRunUsesOne(P, j);
    var v := RunJob(P, j, WorstAnswer(j), 0);
    if v.requeued { WorstRunsIsWork(P, v.job); }
  }

  // ---------- the depth limit of heuristic pricing ----------

  /** No job that is still in play is heuristic, nor can become so. */
  ghost predicate StaysExact(P: Params, s: Loop) {
    Shaped(s) && forall i :: 0 <= i < |s.jobs| ==> JobStaysExact(P, s, i)
  }

  ghost predicate JobStaysExact(P: Params, s: Loop, i: nat)
    requires Shaped(s) && i < |s.jobs|
  {
    s.phases[i] != Settled ==>
      Pending(P, s.jobs[i]) && !s.jobs[i].heuristic && (P.heurpricingiters == 0 || Work(P, s.jobs[i]) == 1)
  }

  lemma StepStaysExact(P: Params, s: Loop, e: Event)
    requires StaysExact(P, s) && Enabled(s, e)
    ensures StaysExact(P, Step(P, s, e))
  {
    var t := Step(P, s, e);
    assert JobStaysExact(P, s, e.i);
    if e.Finish? {
      RunUsesWork(P, s.jobs[e.i], e.status, e.nimpcols);
      if P.heurpricingiters == 0 { ExactStaysExact(P, s.jobs[e.i], e.status, e.nimpcols); }
    }
    forall i | 0 <= i < |t.jobs| ensures JobStaysExact(P, t, i) {
      assert JobStaysExact(P, s, i);
    }
  }

  lemma {:induction false} RunStaysExact(P: Params, s: Loop, events: seq<Event>)
    requires StaysExact(P, s) && IsRun(P, s, events)
    ensures StaysExact(P, After(P, s, events))
    decreases |events|
  {
    if |events| > 0 {
      StepStaysExact(P, s, events[0]);
      RunStaysExact(P, Step(P, s, events[0]), events[1..]);
    }
  }

  /** Job i is being run, and heuristically. */
  predicate RunsHeuristically(s: Loop, i: int) {
    Shaped(s) && 0 <= i < |s.jobs| && s.phases[i] == Running && s.jobs[i].heuristic
  }

  ghost predicate ReachesHeuristicRun(P: Params, s: Loop) {
    exists events, i :: IsRun(P, s, events) && RunsHeuristically(After(P, s, events), i)
  }

  /** A job that can be queued again: it has another enabled solver, or a branching constraint. */
  predicate Repeatable(P: Params, nbranchconss: nat) {
    EnabledFrom(P.solvers, 0) > 1 || nbranchconss > 0
  }

  /** An exact job that is run once without success, and then taken again. */
  function Repeat(j: Job, i: nat): seq<Event> {
    [Take(i), Finish(i, WorstAnswer(j), 0), Take(i)]
  }

  lemma RepeatIsRun(P: Params, s: Loop, i: nat)
    requires Shaped(s) && i < |s.jobs| && s.phases[i] == Queued && Pending(P, s.jobs[i]) && !IsDone(s.jobs[i])
    requires !s.jobs[i].heuristic && P.heurpricingiters > 0 && Work(P, s.jobs[i]) > 1
    ensures IsRun(P, s, Repeat(s.jobs[i], i)) && RunsHeuristically(After(P, s, Repeat(s.jobs[i], i)), i)
  {
    var j := s.jobs[i];
    var events := Repeat(j, i);
    WorstRunUsesOne(P, j);
    RequeuedExactJob(P, j, WorstAnswer(j), 0);
    var t := Step(P, s, events[0]);
    var u := Step(P, t, events[1]);
    assert t.jobs[i] == j && t.phases[i] == Running;
    assert u.phases[i] == Queued && u.jobs[i].heuristic && !IsDone(u.jobs[i]);
    RunCons(P, u, events[2], []);
    RunCons(P, t, events[1], [events[2]]);
    RunCons(P, s, events[0], [events[1], events[2]]);
    assert [events[2]] + [] == [events[2]] && [events[1]] + [events[2]] == [events[1], events[2]];
    assert [events[0]] + [events[1], events[2]] == events;
  }

  lemma RunCons(P: Params, s: Loop, e: Event, rest: seq<Event>)
    requires Enabled(s, e) && IsRun(P, Step(P, s, e), rest)
    ensures IsRun(P, s, [e] + rest) && After(P, s, [e] + rest) == After(P, Step(P, s, e), rest)
  {
    assert ([e] + rest)[1..] == rest;
  }

  /**
   * Below the depth limit all jobs start exact. The limit is not looked at again: some run of the loop solves a job
   * heuristically exactly if heuristic iterations are allowed and some job of the chunk can be queued again.
   */
  lemma DepthLimitIff(P: Params, maxheurdepth: int, depth: nat, nbranchconss: seq<nat>, inChunk: seq<bool>)
    requires |inChunk| == |nbranchconss| && EnabledFrom(P.solvers, 0) > 0 && 0 <= maxheurdepth < depth
    ensures !HeuristicAt(P, maxheurdepth, depth)
    ensures ReachesHeuristicRun(P, Setup(P, HeuristicAt(P, maxheurdepth, depth), nbranchconss, inChunk)) <==>
      P.heurpricingiters > 0 &&
      exists i :: 0 <= i < |inChunk| && inChunk[i] && Repeatable(P, nbranchconss[i])
  {
    var s := Setup(P, false, nbranchconss, inChunk);
    if i :| P.heurpricingiters > 0 && 0 <= i < |inChunk| && inChunk[i] && Repeatable(P, nbranchconss[i]) {
      ExactFreshWork(P, nbranchconss[i]);
      RepeatIsRun(P, s, i);
    } else {
      forall i | 0 <= i < |s.jobs| ensures JobStaysExact(P, s, i) {
        ExactFreshWork(P, nbranchconss[i]);
      }
      forall events, i | IsRun(P, s, events) ensures !RunsHeuristically(After(P, s, events), i) {
        RunStaysExact(P, s, events);
        if 0 <= i < |After(P, s, events).jobs| { assert JobStaysExact(P, After(P, s, events), i); }
      }
    }
  }

  /** Two solvers, one heuristic iteration, heuristics allowed at the root only: at depth 1 a heuristic run follows. */
  lemma DepthLimitPassed()
    ensures var s := Setup(Params([true, true], 1), HeuristicAt(Params([true, true], 1), 0, 1), [0], [true]);
      && !s.jobs[0].heuristic
      && IsRun(Params([true, true], 1), s, Repeat(s.jobs[0], 0))
      && RunsHeuristically(After(Params([true, true], 1), s, Repeat(s.jobs[0], 0)), 0)
  {
    var P := Params([true, true], 1);
    assert EnabledFrom(P.solvers, 1) == 1 && EnabledFrom(P.solvers, 0) == 2;
    ExactFreshWork(P, 0);
    RepeatIsRun(P, Setup(P, false, [0], [true]), 0);
  }
}
