/** The iteration limit of the pricing loop, and when it can end the loop with a job still queued. */
module IterationLimit {
  import opened PricingJobs
  import opened PricingLoop

  const ITERATION_CAP: nat := 16383

  /** maxniters, as initPricing computes it from all pricing problems. */
  function MaxNIters(P: Params, nbranchconss: seq<nat>): nat {
    var n := UncappedIterations(P, nbranchconss);
    if n < ITERATION_CAP then n else ITERATION_CAP
  }

  /** What one iteration does with the job that it takes out of the queue. */
  datatype Turn =
    | Solve(i: nat, status: Status, nimpcols: nat)
    | Drop(i: nat)

  predicate QueueEmpty(s: Loop) {
    forall i :: 0 <= i < |s.phases| ==> s.phases[i] != Queued
  }

  /** Between two iterations: no job is running, and the queued ones are pending and not done. */
  ghost predicate Ready(P: Params, s: Loop) {
    Shaped(s) && forall i :: 0 <= i < |s.jobs| ==> JobReady(P, s, i)
  }

  ghost predicate JobReady(P: Params, s: Loop, i: nat)
    requires Shaped(s) && i < |s.jobs|
  {
    s.phases[i] != Running && (s.phases[i] == Queued ==> Pending(P, s.jobs[i]) && !IsDone(s.jobs[i]))
  }

  predicate CanTake(s: Loop, turn: Turn) {
    Shaped(s) && turn.i < |s.jobs| && s.phases[turn.i] == Queued && !IsDone(s.jobs[turn.i])
  }

  function TakeTurn(P: Params, s: Loop, turn: Turn): (t: Loop)
    requires CanTake(s, turn)
    ensures Shaped(t) && |t.jobs| == |s.jobs|
  {
    var taken := Step(P, s, Take(turn.i));
    match turn
    case Solve(i, status, nimpcols) => Step(P, taken, Finish(i, status, nimpcols))
    case Drop(i) => Step(P, taken, Abort(i))
  }

  /** An iteration may take any queued job; with an empty queue it does nothing. */
  ghost predicate Legal(P: Params, s: Loop, turns: seq<Turn>)
    decreases |turns|
  {
    |turns| == 0 || QueueEmpty(s) || (CanTake(s, turns[0]) && Legal(P, TakeTurn(P, s, turns[0]), turns[1..]))
  }

  /** The loop: as many iterations as there are turns. */
  function Looped(P: Params, s: Loop, turns: seq<Turn>): (t: Loop)
    requires Legal(P, s, turns)
    decreases |turns|
  {
    if |turns| == 0 || QueueEmpty(s) then s else Looped(P, TakeTurn(P, s, turns[0]), turns[1..])
  }

  // ---------- the work in the queue ----------

  function JobWork(P: Params, s: Loop, i: nat): nat
    requires Ready(P, s) && i < |s.jobs|
  {
    assert JobReady(P, s, i);
    if s.phases[i] == Queued then Work(P, s.jobs[i]) else 0
  }

  /** The work of the first n jobs. */
  function WorkUpTo(P: Params, s: Loop, n: nat): nat
    requires Ready(P, s) && n <= |s.jobs|
  {
    if n == 0 then 0 else WorkUpTo(P, s, n - 1) + JobWork(P, s, n - 1)
  }

  function TotalWork(P: Params, s: Loop): nat
    requires Ready(P, s)
  {
    WorkUpTo(P, s, |s.jobs|)
  }

  lemma {:induction false} NoWorkNoJobs(P: Params, s: Loop, n: nat)
    requires Ready(P, s) && n <= |s.jobs|
    ensures WorkUpTo(P, s, n) == 0 <==> forall i :: 0 <= i < n ==> s.phases[i] != Queued
  {
    if n > 0 { NoWorkNoJobs(P, s, n - 1); }
  }

  lemma {:induction false} WorkOfOthers(P: Params, s: Loop, t: Loop, k: nat, n: nat)
    requires Ready(P, s) && Ready(P, t) && |t.jobs| == |s.jobs| && k < |s.jobs| && n <= |s.jobs|
    requires forall i :: 0 <= i < |s.jobs| && i != k ==> t.jobs[i] == s.jobs[i] && t.phases[i] == s.phases[i]
    ensures WorkUpTo(P, t, n) - WorkUpTo(P, s, n) == if n <= k then 0 else JobWork(P, t, k) - JobWork(P, s, k)
  {
    if n > 0 { WorkOfOthers(P, s, t, k, n - 1); }
  }

  predicate WorstTurn(s: Loop, turn: Turn) {
    turn.i < |s.jobs| && turn == Solve(turn.i, WorstAnswer(s.jobs[turn.i]), 0)
  }

  lemma TurnKeepsReady(P: Params, s: Loop, turn: Turn)
    requires Ready(P, s) && CanTake(s, turn)
    ensures Ready(P, TakeTurn(P, s, turn))
  {
    var t := TakeTurn(P, s, turn);
    assert JobReady(P, s, turn.i);
    if turn.Solve? {
      RunUsesWork(P, s.jobs[turn.i], turn.status, turn.nimpcols);
      if RunJob(P, s.jobs[turn.i], turn.status, turn.nimpcols).requeued {
        RequeuedNotDone(P, s.jobs[turn.i], turn.status, turn.nimpcols);
      }
    }
    forall i | 0 <= i < |t.jobs| ensures JobReady(P, t, i) {
      assert JobReady(P, s, i);
    }
  }

  /** Whatever job is taken and whatever the answer is: at least one unit is used up, and exactly one by the worst. */
  lemma TurnUsesWork(P: Params, s: Loop, turn: Turn)
    requires Ready(P, s) && CanTake(s, turn)
    ensures Ready(P, TakeTurn(P, s, turn)) && TotalWork(P, TakeTurn(P, s, turn)) < TotalWork(P, s)
    ensures WorstTurn(s, turn) ==> TotalWork(P, TakeTurn(P, s, turn)) == TotalWork(P, s) - 1
  {
    var t := TakeTurn(P, s, turn);
    assert JobReady(P, s, turn.i);
    TurnKeepsReady(P, s, turn);
    if turn.Solve? {
      RunUsesWork(P, s.jobs[turn.i], turn.status, turn.nimpcols);
      if WorstTurn(s, turn) { WorstRunUsesOne(P, s.jobs[turn.i]); }
    }
    WorkOfOthers(P, s, t, turn.i, |s.jobs|);
  }

  /** Every iteration uses up work until the queue is empty. */
  lemma {:induction false} IterationsUseWork(P: Params, s: Loop, turns: seq<Turn>)
    requires Ready(P, s) && Legal(P, s, turns)
    ensures var t := Looped(P, s, turns);
      Ready(P, t) && (QueueEmpty(t) || TotalWork(P, t) + |turns| <= TotalWork(P, s))
    decreases |turns|
  {
    if |turns| > 0 && !QueueEmpty(s) {
      TurnUsesWork(P, s, turns[0]);
      IterationsUseWork(P, TakeTurn(P, s, turns[0]), turns[1..]);
    }
  }

  // ---------- the worst case ----------

  /** In each iteration the solver gives the worst answer. */
  ghost predicate AllWorst(P: Params, s: Loop, turns: seq<Turn>)
    requires Legal(P, s, turns)
    decreases |turns|
  {
    |turns| == 0 || QueueEmpty(s) ||
    (WorstTurn(s, turns[0]) && AllWorst(P, TakeTurn(P, s, turns[0]), turns[1..]))
  }

  /** In whatever order the jobs are taken: under the worst answers every iteration uses up a single unit. */
  lemma {:induction false} WorstIterations(P: Params, s: Loop, turns: seq<Turn>)
    requires Ready(P, s) && Legal(P, s, turns) && AllWorst(P, s, turns)
    ensures var t := Looped(P, s, turns);
      Ready(P, t) && TotalWork(P, t) == if |turns| <= TotalWork(P, s) then TotalWork(P, s) - |turns| else 0
    decreases |turns|
  {
    NoWorkNoJobs(P, s, |s.jobs|);
    if |turns| > 0 && !QueueEmpty(s) {
      TurnUsesWork(P, s, turns[0]);
      WorstIterations(P, TakeTurn(P, s, turns[0]), turns[1..]);
    }
  }

  /** Such iterations exist. */
  lemma {:induction false} WorstSchedule(P: Params, s: Loop, n: nat) returns (turns: seq<Turn>)
    requires Ready(P, s)
    ensures |turns| == n && Legal(P, s, turns) && AllWorst(P, s, turns)
    decreases n
  {
    if n == 0 {
      turns := [];
    } else if QueueEmpty(s) {
      turns := seq(n, i => Drop(0));
    } else {
      var i :| 0 <= i < |s.phases| && s.phases[i] == Queued;
      assert JobReady(P, s, i);
      var turn := Solve(i, WorstAnswer(s.jobs[i]), 0);
      TurnKeepsReady(P, s, turn);
      var rest := WorstSchedule(P, TakeTurn(P, s, turn), n - 1);
      turns := [turn] + rest;
      assert turns[1..] == rest;
    }
  }

  /** n iterations empty the queue, whatever the order and the answers. */
  ghost predicate AlwaysEmpties(P: Params, s: Loop, n: nat) {
    forall turns :: |turns| == n && Legal(P, s, turns) ==> QueueEmpty(Looped(P, s, turns))
  }

  lemma EmptiesIff(P: Params, s: Loop, n: nat)
    requires Ready(P, s)
    ensures AlwaysEmpties(P, s, n) <==> TotalWork(P, s) <= n
  {
    if TotalWork(P, s) <= n {
      forall turns | |turns| == n && Legal(P, s, turns) ensures QueueEmpty(Looped(P, s, turns)) {
        IterationsUseWork(P, s, turns);
        var t := Looped(P, s, turns);
        NoWorkNoJobs(P, t, |t.jobs|);
      }
    } else {
      var turns := WorstSchedule(P, s, n);
      WorstIterations(P, s, turns);
      NoWorkNoJobs(P, Looped(P, s, turns), |Looped(P, s, turns).jobs|);
    }
  }

  // ---------- the limit and its cap ----------

  /** The budget of a job, less the heuristic iterations that it saves when it is set up exact. */
  function StartBudget(P: Params, heuristic: bool, nbranchconss: nat): int {
    Budget(P, nbranchconss) - if heuristic then 0 else P.heurpricingiters
  }

  /** The budgets of those of the first n jobs that are in the chunk. */
  function QueuedBudget(P: Params, heuristic: bool, nbranchconss: seq<nat>, inChunk: seq<bool>, n: nat): int
    requires n <= |nbranchconss| == |inChunk|
  {
    if n == 0 then 0
    else
      QueuedBudget(P, heuristic, nbranchconss, inChunk, n - 1) +
      if inChunk[n - 1] then StartBudget(P, heuristic, nbranchconss[n - 1]) else 0
  }

  lemma {:induction false} QueuedBudgetPrefix(P: Params, heuristic: bool, nbranchconss: seq<nat>, inChunk: seq<bool>,
                                              b: nat, flag: bool, n: nat)
    requires n <= |nbranchconss| == |inChunk|
    ensures QueuedBudget(P, heuristic, nbranchconss + [b], inChunk + [flag], n) ==
            QueuedBudget(P, heuristic, nbranchconss, inChunk, n)
  {
    if n > 0 { QueuedBudgetPrefix(P, heuristic, nbranchconss, inChunk, b, flag, n - 1); }
  }

  lemma SetupReady(P: Params, heuristic: bool, nbranchconss: seq<nat>, inChunk: seq<bool>)
    requires |inChunk| == |nbranchconss| && EnabledFrom(P.solvers, 0) > 0 && (heuristic ==> P.heurpricingiters > 0)
    ensures Ready(P, Setup(P, heuristic, nbranchconss, inChunk))
  {
    var s := Setup(P, heuristic, nbranchconss, inChunk);
    forall i | 0 <= i < |s.jobs| ensures JobReady(P, s, i) {
      FreshWork(P, heuristic, nbranchconss[i], 0);
    }
  }

  lemma StartWork(P: Params, heuristic: bool, nbranchconss: nat)
    requires EnabledFrom(P.solvers, 0) > 0 && (heuristic ==> P.heurpricingiters > 0)
    ensures var j := Fresh(P, heuristic, nbranchconss, 0);
      Pending(P, j) && Work(P, j) == StartBudget(P, heuristic, nbranchconss) <= Iterations(P, nbranchconss)
  {
    FreshWork(P, heuristic, nbranchconss, 0);
    WorkWithinIterations(P, nbranchconss);
    if !heuristic { ExactFreshWork(P, nbranchconss); }
  }

  /** The work of the queue is the budget of its jobs. */
  lemma {:induction false} SetupWork(P: Params, heuristic: bool, nbranchconss: seq<nat>, inChunk: seq<bool>, n: nat)
    requires n <= |inChunk| == |nbranchconss| && EnabledFrom(P.solvers, 0) > 0
    requires heuristic ==> P.heurpricingiters > 0
    requires Ready(P, Setup(P, heuristic, nbranchconss, inChunk))
    ensures WorkUpTo(P, Setup(P, heuristic, nbranchconss, inChunk), n) ==
            QueuedBudget(P, heuristic, nbranchconss, inChunk, n)
  {
    if n > 0 {
      SetupWork(P, heuristic, nbranchconss, inChunk, n - 1);
      StartWork(P, heuristic, nbranchconss[n - 1]);
    }
  }

  lemma {:induction false} BudgetWithinIterations(P: Params, heuristic: bool, nbranchconss: seq<nat>,
                                                  inChunk: seq<bool>, n: nat)
    requires n <= |inChunk| == |nbranchconss| && EnabledFrom(P.solvers, 0) > 0
    requires heuristic ==> P.heurpricingiters > 0
    ensures QueuedBudget(P, heuristic, nbranchconss, inChunk, n) <= UncappedIterations(P, nbranchconss[..n])
  {
    if n > 0 {
      BudgetWithinIterations(P, heuristic, nbranchconss, inChunk, n - 1);
      StartWork(P, heuristic, nbranchconss[n - 1]);
      assert nbranchconss[..n][..n - 1] == nbranchconss[..n - 1];
    }
  }

  /**
   * The limit of initPricing empties the queue of any chunk in any order and for any answers exactly if the budgets of
   * the queued jobs add up to no more than the cap. Without the cap the limit would always do.
   */
  lemma CapSuffices(P: Params, heuristic: bool, nbranchconss: seq<nat>, inChunk: seq<bool>)
    requires |inChunk| == |nbranchconss| && EnabledFrom(P.solvers, 0) > 0 && (heuristic ==> P.heurpricingiters > 0)
    ensures var s := Setup(P, heuristic, nbranchconss, inChunk);
      && (AlwaysEmpties(P, s, MaxNIters(P, nbranchconss)) <==>
          QueuedBudget(P, heuristic, nbranchconss, inChunk, |inChunk|) <= ITERATION_CAP)
      && AlwaysEmpties(P, s, UncappedIterations(P, nbranchconss))
  {
    var s := Setup(P, heuristic, nbranchconss, inChunk);
    SetupReady(P, heuristic, nbranchconss, inChunk);
    SetupWork(P, heuristic, nbranchconss, inChunk, |inChunk|);
    BudgetWithinIterations(P, heuristic, nbranchconss, inChunk, |inChunk|);
    assert nbranchconss[..|inChunk|] == nbranchconss;
    EmptiesIff(P, s, MaxNIters(P, nbranchconss));
    EmptiesIff(P, s, UncappedIterations(P, nbranchconss));
  }

  /** Two problems, each of which alone fits under the cap, exceed it together. */
  lemma CapFallsShort()
    ensures !AlwaysEmpties(Params([true], 8191), Setup(Params([true], 8191), true, [0, 0], [true, true]),
                           MaxNIters(Params([true], 8191), [0, 0]))
    ensures Budget(Params([true], 8191), 0) <= ITERATION_CAP
  {
    var P := Params([true], 8191);
    assert EnabledFrom(P.solvers, 0) == 1;
    CapSuffices(P, true, [0, 0], [true, true]);
    assert QueuedBudget(P, true, [0, 0], [true, true], 1) == 8192;
    assert QueuedBudget(P, true, [0, 0], [true, true], 2) == 16384;
  }
}
