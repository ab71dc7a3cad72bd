/** The life of a pricing job: retries, escalation over modes, branching constraints and solvers. */
module PricingJobs {

  datatype Status = Unknown | NotApplicable | SolverLimit | Optimal | Infeasible | Unbounded

  /** The pricing solvers by priority (true: enabled) and the number of heuristic iterations. */
  datatype Params = Params(solvers: seq<bool>, heurpricingiters: nat)

  /** A pricing job together with its pricing problem; solver |solvers| stands for none. */
  datatype Job = Job(solver: nat, heuristic: bool, nheuriters: nat, nbranchconss: nat, branchconsidx: nat,
                     status: Status, nimpcols: nat)

  /** First enabled solver at or after i. */
  function NextEnabled(solvers: seq<bool>, i: nat): (k: nat)
    ensures k >= i
    decreases |solvers| - i
  {
    if i < |solvers| && !solvers[i] then NextEnabled(solvers, i + 1) else i
  }

  function EnabledFrom(solvers: seq<bool>, i: nat): (n: nat)
    ensures n <= if i < |solvers| then |solvers| - i else 0
    decreases |solvers| - i
  {
    if i >= |solvers| then 0 else (if solvers[i] then 1 else 0) + EnabledFrom(solvers, i + 1)
  }

  lemma {:induction false} NextEnabledCounts(solvers: seq<bool>, i: nat)
    ensures var k := NextEnabled(solvers, i);
      && EnabledFrom(solvers, i) == (if k < |solvers| then 1 + EnabledFrom(solvers, k + 1) else 0)
      && (k < |solvers| ==> solvers[k])
    decreases |solvers| - i
  {
    if i < |solvers| && !solvers[i] { NextEnabledCounts(solvers, i + 1); }
  }

  // ---------- the transitions ----------

  predicate IsDone(j: Job) {
    || j.nimpcols > 0
    || (j.status == Optimal && j.branchconsidx == 0)
    || j.status == Infeasible
    || j.status == Unbounded
  }

  predicate NeedsNextBranchingcons(j: Job) {
    j.nimpcols == 0 && j.status == Optimal && j.branchconsidx > 0
  }

  function ResetHeuristic(j: Job): Job {
    j.(heuristic := true, nheuriters := 0)
  }

  /** A job as setupPriorityQueue leaves it. */
  function Fresh(P: Params, heuristic: bool, nbranchconss: nat, nheuriters: nat): Job {
    var j := Job(NextEnabled(P.solvers, 0), false, nheuriters, nbranchconss, nbranchconss, Unknown, 0);
    if heuristic then ResetHeuristic(j) else j
  }

  /** GCGpricingprobUpdate: a solver that was not applicable changes nothing. */
  function Update(j: Job, status: Status, nimpcols: nat): Job {
    if status == NotApplicable then j else j.(status := status, nimpcols := j.nimpcols + nimpcols)
  }

  /** A job after its evaluation, and whether it is queued again. */
  datatype Verdict = Verdict(job: Job, requeued: bool)

  function NextBranchcons(P: Params, j: Job): Job
    requires j.branchconsidx > 0
  {
    var k := j.(branchconsidx := j.branchconsidx - 1, status := Unknown);
    if P.heurpricingiters > 0 then ResetHeuristic(k) else k
  }

  function NextSolver(P: Params, j: Job): Job {
    var k := j.(solver := NextEnabled(P.solvers, j.solver + 1));
    if P.heurpricingiters > 0 then ResetHeuristic(k) else k
  }

  function Evaluate(P: Params, j: Job, status: Status): Verdict {
    var k := if j.heuristic then j.(nheuriters := j.nheuriters + 1) else j;
    if IsDone(k) then Verdict(k, false)
    else if j.heuristic && status != Optimal && status != NotApplicable then
      if status != SolverLimit || k.nheuriters >= P.heurpricingiters
      then Verdict(k.(heuristic := false), true) else Verdict(k, true)
    else if NeedsNextBranchingcons(k) then Verdict(NextBranchcons(P, k), true)
    else
      var n := NextSolver(P, k);
      Verdict(n, n.solver < |P.solvers|)
  }

  /** One run: the solver answers with a status and a number of improving columns. */
  function RunJob(P: Params, j: Job, status: Status, nimpcols: nat): Verdict {
    Evaluate(P, Update(j, status, nimpcols), status)
  }

  /** No enabled solver lies between: the next one is the first after i. */
  lemma {:induction false} NextEnabledIsFirst(solvers: seq<bool>, i: nat)
    ensures forall k :: i <= k < NextEnabled(solvers, i) && k < |solvers| ==> !solvers[k]
    ensures NextEnabled(solvers, i) < |solvers| ==> solvers[NextEnabled(solvers, i)]
    decreases |solvers| - i
  {
    if i < |solvers| && !solvers[i] { NextEnabledIsFirst(solvers, i + 1); }
  }

  /** Nothing changes except what is listed. */
  predicate SameProblem(j: Job, k: Job) {
    k.nbranchconss == j.nbranchconss && k.nimpcols == j.nimpcols
  }

  /**
   * What evaluating a job does after a run has found no column: a heuristic run that hits a solver limit is repeated
   * while iterations are left; any other one that was not optimal, but applicable, is repeated exactly; after an
   * optimal run the next branching constraint follows, and after the last one the problem is solved; otherwise the next
   * enabled solver takes over, if there is one. A phase that starts over is heuristic if heuristics are allowed.
   */
  lemma EvaluationTable(P: Params, j: Job, status: Status)
    requires j.nimpcols == 0 && (status == NotApplicable || j.status == status)
    requires status == NotApplicable ==> j.status == Unknown || j.status == SolverLimit
    ensures var v := Evaluate(P, j, status);
      && SameProblem(j, v.job)
      && (status in {Infeasible, Unbounded} ==> !v.requeued)
      && (status == SolverLimit && j.heuristic ==>
            && v.requeued && v.job.solver == j.solver && v.job.branchconsidx == j.branchconsidx
            && v.job.nheuriters == j.nheuriters + 1 && (v.job.heuristic <==> v.job.nheuriters < P.heurpricingiters))
      && (status == Unknown && j.heuristic ==>
            && v.requeued && v.job.solver == j.solver && !v.job.heuristic && v.job.branchconsidx == j.branchconsidx)
      && (status == Optimal && j.branchconsidx == 0 ==> !v.requeued)
      && (status == Optimal && j.branchconsidx > 0 ==>
            && v.requeued && v.job.solver == j.solver && v.job.branchconsidx == j.branchconsidx - 1
            && v.job.status == Unknown && StartsOver(P, j, v.job))
      && (status == NotApplicable || (status in {Unknown, SolverLimit} && !j.heuristic) ==>
            && v.job.solver == NextEnabled(P.solvers, j.solver + 1) && (v.requeued <==> v.job.solver < |P.solvers|)
            && v.job.branchconsidx == j.branchconsidx && StartsOver(P, j, v.job))
  {
  }

  /** The job begins a new phase. */
  predicate StartsOver(P: Params, j: Job, k: Job) {
    if P.heurpricingiters > 0 then k.heuristic && k.nheuriters == 0 else k.heuristic == j.heuristic
  }

  // ---------- the work that is left ----------

  /** What every job in the queue satisfies. */
  predicate Pending(P: Params, j: Job) {
    && j.solver < |P.solvers| && P.solvers[j.solver]
    && (j.heuristic ==> j.nheuriters < P.heurpricingiters)
    && j.branchconsidx <= j.nbranchconss
  }

  function RunsInPhase(P: Params, j: Job): nat
    requires Pending(P, j)
  {
    if j.heuristic then P.heurpricingiters - j.nheuriters + 1 else 1
  }

  /** The most runs a pending job can still need. */
  function Work(P: Params, j: Job): (w: nat)
    requires Pending(P, j)
    ensures w > 0
  {
    RunsInPhase(P, j) + (P.heurpricingiters + 1) * (EnabledFrom(P.solvers, j.solver + 1) + j.branchconsidx)
  }

  lemma FullPhase(P: Params, n: nat)
    ensures (P.heurpricingiters + 1) * (n + 1) == (P.heurpricingiters + 1) + (P.heurpricingiters + 1) * n
  {
  }

  lemma NextBranchconsWork(P: Params, j: Job)
    requires Pending(P, j) && j.branchconsidx > 0
    ensures Pending(P, NextBranchcons(P, j))
    ensures Work(P, NextBranchcons(P, j)) + RunsInPhase(P, j) <= Work(P, j)
    ensures !j.heuristic ==> Work(P, NextBranchcons(P, j)) + 1 == Work(P, j)
  {
    FullPhase(P, EnabledFrom(P.solvers, j.solver + 1) + j.branchconsidx - 1);
  }

  lemma NextSolverWork(P: Params, j: Job)
    requires Pending(P, j) && NextSolver(P, j).solver < |P.solvers|
    ensures Pending(P, NextSolver(P, j))
    ensures Work(P, NextSolver(P, j)) + RunsInPhase(P, j) <= Work(P, j)
    ensures !j.heuristic ==> Work(P, NextSolver(P, j)) + 1 == Work(P, j)
  {
    NextEnabledCounts(P.solvers, j.solver + 1);
    FullPhase(P, EnabledFrom(P.solvers, NextSolver(P, j).solver + 1) + j.branchconsidx);
  }

  /** Whatever the solver answers, a run uses up work, and a job that is queued again is pending again. */
  lemma RunUsesWork(P: Params, j: Job, status: Status, nimpcols: nat)
    requires Pending(P, j)
    ensures var v := RunJob(P, j, status, nimpcols);
      v.job.nbranchconss == j.nbranchconss &&
      (v.requeued ==> Pending(P, v.job) && Work(P, v.job) < Work(P, j))
  {
    var u := Update(j, status, nimpcols);
    var k := if u.heuristic then u.(nheuriters := u.nheuriters + 1) else u;
    if !IsDone(k) {
      if u.heuristic && status != Optimal && status != NotApplicable {
      } else if NeedsNextBranchingcons(k) {
        NextBranchconsWork(P, u);
        assert NextBranchcons(P, k) == NextBranchcons(P, u);
      } else if NextSolver(P, k).solver < |P.solvers| {
        NextSolverWork(P, u);
        assert NextSolver(P, k) == NextSolver(P, u);
      }
    }
  }

  /** The assertion inside evaluatePricingjob: an unfinished heuristic job stopped without a verdict. */
  lemma HeuristicStatusExpected(P: Params, j: Job, status: Status, nimpcols: nat)
    requires j.heuristic && !IsDone(Update(j, status, nimpcols)) && status != Optimal && status != NotApplicable
    ensures status == Unknown || status == SolverLimit
  {
  }

  /** The answer that keeps a pending job busy longest. */
  function WorstAnswer(j: Job): Status {
    if !j.heuristic && j.branchconsidx > 0 then Optimal else SolverLimit
  }

  /** The bound is attained: under the worst answers every run uses up exactly one unit of work. */
  lemma WorstRunUsesOne(P: Params, j: Job)
    requires Pending(P, j) && !IsDone(j)
    ensures var v := RunJob(P, j, WorstAnswer(j), 0);
      if v.requeued then Pending(P, v.job) && !IsDone(v.job) && Work(P, v.job) == Work(P, j) - 1
      else Work(P, j) == 1
  {
    var u := Update(j, WorstAnswer(j), 0);
    if !j.heuristic {
      if j.branchconsidx > 0 {
        NextBranchconsWork(P, u);
      } else {
        NextEnabledCounts(P.solvers, j.solver + 1);
        if NextSolver(P, u).solver < |P.solvers| { NextSolverWork(P, u); }
      }
    }
  }

  /** The number of runs a freshly set up job can need. */
  lemma FreshWork(P: Params, heuristic: bool, nbranchconss: nat, nheuriters: nat)
    requires EnabledFrom(P.solvers, 0) > 0 && (heuristic ==> P.heurpricingiters > 0)
    ensures var j := Fresh(P, heuristic, nbranchconss, nheuriters);
      && Pending(P, j) && !IsDone(j)
      && Work(P, j) <= (P.heurpricingiters + 1) * (EnabledFrom(P.solvers, 0) + nbranchconss)
      && (heuristic ==> Work(P, j) == (P.heurpricingiters + 1) * (EnabledFrom(P.solvers, 0) + nbranchconss))
  {
    NextEnabledCounts(P.solvers, 0);
    FullPhase(P, EnabledFrom(P.solvers, 0) - 1 + nbranchconss);
  }

  /** The iteration limit of initPricing for one problem. */
  function Iterations(P: Params, nbranchconss: nat): nat {
    |P.solvers| * (P.heurpricingiters + 1) * (nbranchconss + 1)
  }

  /** The exact bound never exceeds the one that the controller computes. */
  lemma WorkWithinIterations(P: Params, nbranchconss: nat)
    requires EnabledFrom(P.solvers, 0) > 0
    ensures (P.heurpricingiters + 1) * (EnabledFrom(P.solvers, 0) + nbranchconss) <= Iterations(P, nbranchconss)
  {
    PairsOutnumberSteps(|P.solvers|, EnabledFrom(P.solvers, 0), nbranchconss);
    TimesMonotone(P.heurpricingiters + 1, EnabledFrom(P.solvers, 0) + nbranchconss, |P.solvers| * (nbranchconss + 1));
    TimesRegroup(|P.solvers|, P.heurpricingiters + 1, nbranchconss + 1);
  }

  lemma PairsOutnumberSteps(s: nat, e: nat, b: nat)
    requires 1 <= e <= s
    ensures e + b <= s * (b + 1)
  {
    TimesMonotone(b, 1, s);
    assert s * (b + 1) == s * b + s;
  }

  lemma TimesMonotone(h: nat, a: nat, b: nat)
    requires a <= b
    ensures h * a <= h * b
  {
  }

  lemma TimesRegroup(s: nat, h: nat, b: nat)
    ensures h * (s * b) == s * h * b
  {
  }

  // ---------- heuristic and exact runs ----------

  /** Whether setupPriorityQueue makes the jobs heuristic at this depth of the tree. */
  predicate HeuristicAt(P: Params, maxheurdepth: int, depth: nat) {
    P.heurpricingiters > 0 && (maxheurdepth == -1 || depth <= maxheurdepth)
  }

  /** An exact job that is queued again becomes heuristic if heuristic iterations are allowed at all. */
  lemma RequeuedExactJob(P: Params, j: Job, status: Status, nimpcols: nat)
    requires !j.heuristic && RunJob(P, j, status, nimpcols).requeued
    ensures RunJob(P, j, status, nimpcols).job.heuristic <==> P.heurpricingiters > 0
  {
  }

  /** Without heuristic iterations an exact job stays exact. */
  lemma ExactStaysExact(P: Params, j: Job, status: Status, nimpcols: nat)
    requires !j.heuristic && P.heurpricingiters == 0
    ensures !RunJob(P, j, status, nimpcols).job.heuristic
  {
  }

  lemma RequeuedNotDone(P: Params, j: Job, status: Status, nimpcols: nat)
    requires RunJob(P, j, status, nimpcols).requeued
    ensures !IsDone(RunJob(P, j, status, nimpcols).job)
  {
  }

  /** A job that is set up exact has a single run unless it can be queued again. */
  lemma ExactFreshWork(P: Params, nbranchconss: nat)
    requires EnabledFrom(P.solvers, 0) > 0
    ensures var j := Fresh(P, false, nbranchconss, 0);
      && Pending(P, j) && !IsDone(j) && !j.heuristic
      && Work(P, j) + P.heurpricingiters == (P.heurpricingiters + 1) * (EnabledFrom(P.solvers, 0) + nbranchconss)
      && (Work(P, j) == 1 <==> EnabledFrom(P.solvers, 0) == 1 && nbranchconss == 0)
  {
    NextEnabledCounts(P.solvers, 0);
    var n := EnabledFrom(P.solvers, 0) - 1 + nbranchconss;
    FullPhase(P, n);
    if n > 0 { FullPhase(P, n - 1); }
  }
}
