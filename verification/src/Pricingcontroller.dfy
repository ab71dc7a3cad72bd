/** The pricing controller: its queue of jobs, its chunks, and the pricing loop that drives it. */
module PricingControl {
  import opened Numbers
  import opened PricingJobs
  import opened Chunks
  import Runs = PricingLoop
  import Limit = IterationLimit

  // ---------- the order of the priority queue ----------

  /** What comparePricingjobs looks at. */
  datatype Key = Key(priority: int, heuristic: bool, nheuriters: nat, score: real, probnr: nat)

  /** Solver priority, fewer heuristic iterations, heuristic before exact, score, problem number. */
  function ComparePricingjobs(a: Key, b: Key): int {
    if a.priority > b.priority then -1
    else if a.priority < b.priority then 1
    else if a.heuristic && b.heuristic && a.nheuriters < b.nheuriters then -1
    else if a.heuristic && b.heuristic && a.nheuriters > b.nheuriters then 1
    else if a.heuristic != b.heuristic then (if a.heuristic then -1 else 1)
    else if a.score > b.score then -1
    else if a.score < b.score then 1
    else if a.probnr < b.probnr then -1
    else 1
  }

  /** On jobs of different problems the comparison is a strict total order. */
  lemma CompareIsStrictOrder(a: Key, b: Key, c: Key)
    requires a.probnr != b.probnr && b.probnr != c.probnr && a.probnr != c.probnr
    ensures ComparePricingjobs(a, b) == -ComparePricingjobs(b, a)
    ensures ComparePricingjobs(a, b) < 0 && ComparePricingjobs(b, c) < 0 ==> ComparePricingjobs(a, c) < 0
  {
  }

  /** What it means for a job to come before another one, criterion by criterion. */
  ghost predicate Precedes(a: Key, b: Key) {
    && a.priority >= b.priority
    && (a.priority == b.priority ==>
          && (b.heuristic ==> a.heuristic)
          && (a.heuristic && b.heuristic ==> a.nheuriters <= b.nheuriters)
          && (a.heuristic == b.heuristic && (a.heuristic ==> a.nheuriters == b.nheuriters) ==>
                && a.score >= b.score
                && (a.score == b.score ==> a.probnr <= b.probnr)))
  }

  lemma CompareMeansPrecedes(a: Key, b: Key)
    requires a.probnr != b.probnr
    ensures ComparePricingjobs(a, b) < 0 <==> Precedes(a, b)
  {
  }

  // ---------- the mutable records ----------

  datatype LowerBound = MinusInfinity | Finite(value: real)

  function Greater(a: LowerBound, b: LowerBound): LowerBound {
    if a.Finite? && (b.MinusInfinity? || a.value > b.value) then a else b
  }

  predicate NotBelow(a: LowerBound, b: LowerBound) {
    b.MinusInfinity? || (a.Finite? && a.value >= b.value)
  }

  /** What the score of a job is computed from. */
  datatype Scoring = Scoring(criterion: char, dualsolconv: real, npointsprob: int, nraysprob: int, ncolslastrounds: int)

  function Score(s: Scoring, probnr: nat): real {
    match s.criterion
    case 'i' => -(probnr as real)
    case 'd' => s.dualsolconv
    case 'r' => -(0.2 * s.npointsprob as real + s.nraysprob as real)
    case 'l' => s.ncolslastrounds as real
    case _ => 0.0
  }

  class PricingProb {
    const probnr: nat
    var nbranchconss: nat
    var branchconsidx: nat
    var status: Status
    var lowerbound: LowerBound
    var nimpcols: nat
    var nsolves: nat

    constructor (probnr: nat)
      ensures this.probnr == probnr && nbranchconss == 0 && branchconsidx == 0 && status == Unknown
      ensures lowerbound == MinusInfinity && nimpcols == 0 && nsolves == 0
    {
      this.probnr := probnr;
      nbranchconss, branchconsidx, status, lowerbound, nimpcols, nsolves := 0, 0, Unknown, MinusInfinity, 0, 0;
    }
  }

  class PricingJob {
    const prob: PricingProb
    const chunk: nat
    var solver: nat
    var heuristic: bool
    var nheuriters: nat
    var score: real

    constructor (prob: PricingProb, solver: nat, chunk: nat)
      ensures this.prob == prob && this.chunk == chunk && this.solver == solver
      ensures !heuristic && nheuriters == 0 && score == 0.0
    {
      this.prob, this.solver, this.chunk := prob, solver, chunk;
      score, heuristic, nheuriters := 0.0, false, 0;
    }

    /** The job and its problem as a value. */
    function State(): Job
      reads this, prob
    {
      Job(solver, heuristic, nheuriters, prob.nbranchconss, prob.branchconsidx, prob.status, prob.nimpcols)
    }

    function GetKey(priorities: seq<int>): Key
      reads this, prob
    {
      Key(if solver < |priorities| then priorities[solver] else 0, heuristic, nheuriters, score, prob.probnr)
    }

    /** GCGpricingjobSetup: the first solver again, heuristic or exact. */
    method Setup(P: Params, heuristic: bool, scoring: Scoring)
      modifies this
      ensures this.solver == NextEnabled(P.solvers, 0) && this.heuristic == heuristic
      ensures score == Score(scoring, prob.probnr)
      ensures scoring.criterion == 'i' ==> score == -(prob.probnr as real)
      ensures scoring.criterion == 'd' ==> score == scoring.dualsolconv
      ensures scoring.criterion == 'r' ==> 5.0 * score == -((scoring.npointsprob + 5 * scoring.nraysprob) as real)
      ensures scoring.criterion == 'l' ==> score == scoring.ncolslastrounds as real
      ensures nheuriters == if heuristic then 0 else old(nheuriters)
    {
      this.score := Score(scoring, prob.probnr);
      this.solver := NextEnabled(P.solvers, 0);
      this.heuristic := heuristic;
      if heuristic { nheuriters := 0; }
    }
  }

  /** One job per problem: jobs with different positions share neither the job nor the problem. */
  ghost predicate Separated(jobs: seq<PricingJob>) {
    forall x, y :: 0 <= x < y < |jobs| ==>
      jobs[x] != jobs[y] && jobs[x].prob != jobs[y].prob && jobs[x].prob.probnr != jobs[y].prob.probnr
  }

  const INT_MAX: nat := 0x7FFF_FFFF

  class Pricingcontroller {
    const P: Params
    const priorities: seq<int>
    const maxheurdepth: int
    const jobs: seq<PricingJob>
    const nchunks: nat
    var queue: seq<PricingJob>
    var curchunk: nat
    var startchunk: nat
    var nsolvedprobs: nat
    var maxniters: nat

    ghost predicate Valid()
      reads this
    {
      && Separated(jobs)
      && curchunk < nchunks && startchunk < nchunks
      && (forall k :: 0 <= k < |jobs| ==> jobs[k].chunk < nchunks)
      && (forall k :: 0 <= k < |queue| ==> queue[k] in jobs)
      && (forall x, y :: 0 <= x < y < |queue| ==> queue[x] != queue[y])
    }

    /**
     * initSol: one problem per relevant block, numbered by its block, and, if any solver is enabled, one job for
     * each; the k-th problem belongs to chunk k / actchunksize.
     */
    constructor (P: Params, priorities: seq<int>, maxheurdepth: int, relevant: seq<bool>, chunksize: nat)
      requires chunksize > 0 && CountRelevant(relevant) > 0
      ensures Valid() && queue == [] && curchunk == nchunks - 1 && nsolvedprobs == 0
      ensures this.P == P && this.maxheurdepth == maxheurdepth
      ensures nchunks == NChunks(CountRelevant(relevant), ActChunkSize(chunksize, CountRelevant(relevant)))
      ensures |jobs| == if NextEnabled(P.solvers, 0) < |P.solvers| then CountRelevant(relevant) else 0
      ensures forall k :: 0 <= k < |jobs| ==>
        jobs[k].chunk == ChunkOf(k, ActChunkSize(chunksize, CountRelevant(relevant)))
      ensures fresh(jobs) && forall k :: 0 <= k < |jobs| ==> fresh(jobs[k].prob)
    {
      var nrel := CountRelevant(relevant);
      var act := ActChunkSize(chunksize, nrel);
      NChunksBounds(nrel, act);
      var built := CreateJobs(P, relevant, act);
      this.P, this.priorities, this.maxheurdepth := P, priorities, maxheurdepth;
      this.nchunks := NChunks(nrel, act);
      this.jobs := built;
      this.curchunk, this.startchunk := NChunks(nrel, act) - 1, 0;
      this.queue, this.nsolvedprobs, this.maxniters := [], 0, INT_MAX;
      new;
      forall k | 0 <= k < |jobs| ensures jobs[k].chunk < nchunks {
        ChunkInRange(nrel, act, k);
      }
    }

    /**
     * initPricing: the next chunk, the generic branching constraints of every problem, and the iteration limit. The
     * blocks are those of the generic nodes from the active one upwards; a negative one has no problem.
     */
    method InitPricing(consblocks: seq<int>)
      requires Valid()
      modifies this`curchunk, this`startchunk, this`maxniters, set k | 0 <= k < |jobs| :: jobs[k].prob
      ensures Valid() && curchunk == startchunk == NextChunk(old(curchunk), nchunks)
      ensures forall k :: 0 <= k < |jobs| ==>
        jobs[k].prob.nbranchconss == Occurrences(consblocks, jobs[k].prob.probnr) && jobs[k].prob.branchconsidx == 0
      ensures maxniters == Limit.MaxNIters(P, Counts(jobs, consblocks))
    {
      MoveChunkForward();
      GetGenericBranchconss(consblocks);
      maxniters := ComputeMaxNIters();
      CountsAgree(jobs, consblocks);
    }

    method GetGenericBranchconss(consblocks: seq<int>)
      requires Separated(jobs)
      modifies set k | 0 <= k < |jobs| :: jobs[k].prob
      ensures forall k :: 0 <= k < |jobs| ==>
        jobs[k].prob.nbranchconss == Occurrences(consblocks, jobs[k].prob.probnr) && jobs[k].prob.branchconsidx == 0
    {
      for i := 0 to |jobs|
        invariant forall k :: 0 <= k < i ==> jobs[k].prob.nbranchconss == 0 && jobs[k].prob.branchconsidx == 0
      {
        jobs[i].prob.nbranchconss, jobs[i].prob.branchconsidx := 0, 0;
      }
      for n := 0 to |consblocks|
        invariant forall k :: 0 <= k < |jobs| ==>
          jobs[k].prob.nbranchconss == Occurrences(consblocks[..n], jobs[k].prob.probnr) &&
          jobs[k].prob.branchconsidx == 0
      {
        assert consblocks[..n + 1][..n] == consblocks[..n];
        AddBranchcons(consblocks[n]);
      }
      assert consblocks[..|consblocks|] == consblocks;
    }

    method ComputeMaxNIters() returns (n: nat)
      ensures n == Limit.MaxNIters(P, BranchCounts(jobs))
    {
      n := 0;
      for i := 0 to |jobs|
        invariant n == Runs.UncappedIterations(P, BranchCounts(jobs[..i]))
      {
        CountOneMore(P, jobs, i);
        n := n + Iterations(P, jobs[i].prob.nbranchconss);
      }
      assert jobs[..|jobs|] == jobs;
      if n >= Limit.ITERATION_CAP { n := Limit.ITERATION_CAP; }
    }

    /** The problem of the block gets one more branching constraint. */
    method AddBranchcons(block: int)
      requires Separated(jobs)
      modifies set k | 0 <= k < |jobs| :: jobs[k].prob`nbranchconss
      ensures forall k :: 0 <= k < |jobs| ==>
        jobs[k].prob.nbranchconss == old(jobs[k].prob.nbranchconss) + if jobs[k].prob.probnr == block then 1 else 0
    {
      for i := 0 to |jobs|
        invariant forall k :: 0 <= k < |jobs| ==>
          jobs[k].prob.nbranchconss == old(jobs[k].prob.nbranchconss) && (k < i ==> jobs[k].prob.probnr != block)
      {
        if jobs[i].prob.probnr == block {
          jobs[i].prob.nbranchconss := jobs[i].prob.nbranchconss + 1;
          return;
        }
      }
    }

    /** The chunk index moves forward, and the rotation starts there. */
    method MoveChunkForward()
      requires Valid()
      modifies this`curchunk, this`startchunk
      ensures Valid() && curchunk == startchunk == NextChunk(old(curchunk), nchunks)
    {
      curchunk := (curchunk + 1) % nchunks;
      startchunk := curchunk;
    }

    method CheckNextChunk() returns (more: bool)
      requires Valid()
      modifies this`curchunk
      ensures Valid() && more == (NextChunk(old(curchunk), nchunks) != startchunk)
      ensures curchunk == if more then NextChunk(old(curchunk), nchunks) else old(curchunk)
    {
      var nextchunk := (curchunk + 1) % nchunks;
      if nextchunk == startchunk {
        return false;
      }
      curchunk := nextchunk;
      more := true;
    }

    ghost function Footprint(): set<object> {
      (set k | 0 <= k < |jobs| :: jobs[k]) + (set k | 0 <= k < |jobs| :: jobs[k].prob)
    }

    function Prepared(heuristic: bool, before: Job): Job {
      Fresh(P, heuristic, before.nbranchconss, before.nheuriters).(nimpcols := before.nimpcols)
    }

    /** All jobs are reset, and those of the current chunk are queued. */
    method SetupPriorityQueue(depth: nat, scorings: seq<Scoring>)
      requires Valid() && |scorings| == |jobs|
      modifies this, Footprint()
      ensures Valid() && queue == JobsOfChunk(jobs, curchunk) && nsolvedprobs == 0
      ensures curchunk == old(curchunk) && startchunk == old(startchunk)
      ensures forall k :: 0 <= k < |jobs| ==>
        jobs[k].State() == Prepared(HeuristicAt(P, maxheurdepth, depth), old(jobs[k].State()))
      ensures maxniters == old(maxniters)
      ensures forall k :: 0 <= k < |jobs| ==> jobs[k].prob.nbranchconss == old(jobs[k].prob.nbranchconss)
      ensures EnabledFrom(P.solvers, 0) > 0 ==> AllPending() && SetUp(HeuristicAt(P, maxheurdepth, depth))
    {
      ResetJobs(HeuristicAt(P, maxheurdepth, depth), scorings);
      ChunkJobsDistinct(jobs, curchunk);
      nsolvedprobs := 0;
      if EnabledFrom(P.solvers, 0) > 0 {
        forall k | 0 <= k < |jobs| ensures Pending(P, jobs[k].State()) {
          FreshWork(P, HeuristicAt(P, maxheurdepth, depth), jobs[k].prob.nbranchconss, jobs[k].nheuriters);
        }
      }
    }

    /** What the jobs of a chunk can need after they have been set up. */
    function ChunkBudget(heuristic: bool, consblocks: seq<int>, chunk: nat): int {
      Limit.QueuedBudget(P, heuristic, Counts(jobs, consblocks), InChunk(jobs, chunk), |jobs|)
    }

    /** The jobs are as they are left by being set up. */
    ghost predicate SetUp(heuristic: bool)
      reads this, jobs, set k | 0 <= k < |jobs| :: jobs[k].prob
    {
      && (heuristic ==> P.heurpricingiters > 0)
      && forall k :: 0 <= k < |jobs| ==> FreshJob(P, heuristic, jobs[k].State())
    }

    /** The work in the queue is then the budget of the chunk. */
    lemma QueuedWorkIsBudget(heuristic: bool, consblocks: seq<int>)
      requires EnabledFrom(P.solvers, 0) > 0 && AllPending() && SetUp(heuristic)
      requires queue == JobsOfChunk(jobs, curchunk)
      requires forall k :: 0 <= k < |jobs| ==>
        jobs[k].prob.nbranchconss == Occurrences(consblocks, jobs[k].prob.probnr)
      ensures QueuedWork() == ChunkBudget(heuristic, consblocks, curchunk)
      ensures QueuedWork() <= Runs.UncappedIterations(P, Counts(jobs, consblocks))
    {
      var counts := Counts(jobs, consblocks);
      WorkOfChunk(P, jobs, curchunk, heuristic);
      CountsAgree(jobs, consblocks);
      Limit.BudgetWithinIterations(P, heuristic, counts, InChunk(jobs, curchunk), |jobs|);
      assert counts[..|jobs|] == counts;
    }

    method ResetJob(job: PricingJob, heuristic: bool, scoring: Scoring)
      modifies job, job.prob
      ensures job.State() == Prepared(heuristic, old(job.State()))
    {
      ResetProb(job.prob);
      job.Setup(P, heuristic, scoring);
    }

    method ResetJobs(heuristic: bool, scorings: seq<Scoring>)
      requires Valid() && |scorings| == |jobs|
      modifies this`queue, Footprint()
      ensures queue == JobsOfChunk(jobs, curchunk)
      ensures forall k :: 0 <= k < |jobs| ==> jobs[k].State() == Prepared(heuristic, old(jobs[k].State()))
    {
      queue := [];
      for i := 0 to |jobs|
        invariant queue == JobsOfChunk(jobs[..i], curchunk)
        invariant forall k :: 0 <= k < |jobs| ==>
          jobs[k].State() == if k < i then Prepared(heuristic, old(jobs[k].State())) else old(jobs[k].State())
      {
        assert jobs[..i + 1][..i] == jobs[..i];
        ResetJob(jobs[i], heuristic, scorings[i]);
        if jobs[i].chunk == curchunk {
          queue := queue + [jobs[i]];
        }
      }
      assert jobs[..|jobs|] == jobs;
    }

    /** GCGpqueueRemove: takes the best job out of the queue. */
    method RemoveBest() returns (job: PricingJob, ghost at: nat)
      requires Valid() && |queue| > 0
      modifies this`queue
      ensures Valid() && at < |old(queue)| && job == old(queue)[at]
      ensures queue == old(queue)[..at] + old(queue)[at + 1..] && job !in queue
      ensures forall q :: q in queue ==> ComparePricingjobs(job.GetKey(priorities), q.GetKey(priorities)) < 0
      ensures forall q :: q in queue ==> Precedes(job.GetKey(priorities), q.GetKey(priorities))
    {
      var best := 0;
      for k := 1 to |queue|
        invariant best < k && queue == old(queue)
        invariant forall x :: 0 <= x < k && x != best ==>
          ComparePricingjobs(queue[best].GetKey(priorities), queue[x].GetKey(priorities)) < 0
      {
        forall x | 0 <= x < k && x != best
          ensures ComparePricingjobs(queue[k].GetKey(priorities), queue[best].GetKey(priorities)) < 0 ==>
                  ComparePricingjobs(queue[k].GetKey(priorities), queue[x].GetKey(priorities)) < 0
        {
          DistinctProblems(x, best);
          DistinctProblems(best, k);
          DistinctProblems(x, k);
          CompareIsStrictOrder(queue[k].GetKey(priorities), queue[best].GetKey(priorities),
            queue[x].GetKey(priorities));
        }
        DistinctProblems(best, k);
        CompareFlips(queue[k].GetKey(priorities), queue[best].GetKey(priorities));
        if ComparePricingjobs(queue[k].GetKey(priorities), queue[best].GetKey(priorities)) < 0 {
          best := k;
        }
      }
      job, at := queue[best], best;
      queue := queue[..best] + queue[best + 1..];
    }

    lemma DistinctProblems(x: nat, y: nat)
      requires Valid() && x < |queue| && y < |queue| && x != y
      ensures queue[x].prob.probnr != queue[y].prob.probnr
    {
      assert queue[x] in jobs && queue[y] in jobs;
      var i :| 0 <= i < |jobs| && jobs[i] == queue[x];
      var j :| 0 <= j < |jobs| && jobs[j] == queue[y];
      assert i != j;
    }

    /** Every queued job is pending. */
    ghost predicate AllPending()
      reads this, queue, set k | 0 <= k < |queue| :: queue[k].prob
    {
      forall k :: 0 <= k < |queue| ==> Pending(P, queue[k].State())
    }

    ghost predicate StatesPending()
      reads this, queue, set k | 0 <= k < |queue| :: queue[k].prob
    {
      forall k :: 0 <= k < |queue| ==> Pending(P, States(queue)[k])
    }

    lemma PendingByState()
      ensures StatesPending() <==> AllPending()
    {
      forall k | 0 <= k < |queue| ensures States(queue)[k] == queue[k].State() {
      }
    }

    /** The most runs that the jobs in the queue can still need. */
    ghost function QueuedWork(): nat
      requires AllPending()
      reads this, queue, set k | 0 <= k < |queue| :: queue[k].prob
    {
      WorkOf(P, States(queue))
    }

    /** RemoveBest, with what it means for the members of the queue and the work left in it. */
    method TakeOne() returns (job: PricingJob)
      requires Valid() && |queue| > 0
      modifies this`queue
      ensures Valid() && job !in queue && job in jobs && |queue| < |old(queue)|
      ensures forall q :: q in old(queue) <==> q in queue || q == job
      ensures forall q :: q in queue ==> ComparePricingjobs(job.GetKey(priorities), q.GetKey(priorities)) < 0
      ensures old(AllPending()) ==>
        AllPending() && Pending(P, job.State()) && QueuedWork() + Work(P, job.State()) == old(QueuedWork())
    {
      ghost var before, js := queue, States(queue);
      ghost var at: nat;
      job, at := RemoveBest();
      WithoutOne(before, at);
      assert before[at] in before;
      StatesWithoutOne(before, at, queue, js);
      if old(AllPending()) {
        WorkWithoutOne(P, js, at);
        PendingByState();
      }
    }

    /** Takes jobs out of the queue until one is not done; done jobs are discarded. */
    method GetNextPricingjob() returns (job: PricingJob?)
      requires Valid()
      modifies this`queue
      ensures Valid()
      ensures job == null ==> queue == [] && forall q :: q in old(queue) ==> IsDone(q.State())
      ensures job != null ==>
        && job in old(queue) && job in jobs && job !in queue && !IsDone(job.State())
        && (forall q :: q in queue ==> ComparePricingjobs(job.GetKey(priorities), q.GetKey(priorities)) < 0)
        && (forall q :: q in queue ==> Precedes(job.GetKey(priorities), q.GetKey(priorities)))
        && (forall q :: q in old(queue) ==> q in queue || q == job || IsDone(q.State()))
      ensures forall q :: q in queue ==> q in old(queue)
      ensures old(AllPending()) ==>
        && AllPending() && (job != null ==> Pending(P, job.State()))
        && QueuedWork() + (if job != null then Work(P, job.State()) else 0) <= old(QueuedWork())
    {
      job := null;
      while |queue| > 0
        invariant Valid()
        invariant forall q :: q in queue ==> q in old(queue)
        invariant forall q :: q in old(queue) ==> q in queue || IsDone(q.State())
        invariant old(AllPending()) ==> AllPending() && QueuedWork() <= old(QueuedWork())
        decreases |queue|
      {
        var next := TakeOne();
        if !IsDone(next.State()) {
          return next;
        }
      }
    }

    /** Decides whether a job that has just been run must be treated again. */
    method EvaluatePricingjob(job: PricingJob, status: Status)
      requires Valid() && job in jobs && job !in queue
      modifies this`queue, this`nsolvedprobs, job, job.prob
      ensures Valid()
      ensures job.State() == Evaluate(P, old(job.State()), status).job
      ensures queue == old(queue) + if Evaluate(P, old(job.State()), status).requeued then [job] else []
      ensures nsolvedprobs == old(nsolvedprobs) + if IsDone(old(job.State())) then 1 else 0
    {
      assert queue + [] == queue;
      var heuristic := job.heuristic;
      if heuristic {
        job.nheuriters := job.nheuriters + 1;
      }
      if IsDone(job.State()) {
        nsolvedprobs := nsolvedprobs + 1;
        return;
      }
      if heuristic && status != Optimal && status != NotApplicable {
        if status != SolverLimit || job.nheuriters >= P.heurpricingiters {
          job.heuristic := false;
        }
        queue := queue + [job];
        return;
      }
      if NeedsNextBranchingcons(job.State()) {
        PricingprobNextBranchcons(job.prob);
        queue := queue + [job];
        return;
      }
      NextSolver(job);
    }

    /** The next enabled solver, heuristically if heuristic pricing is on; without one the job is finished. */
    method NextSolver(job: PricingJob)
      requires Valid() && job in jobs && job !in queue
      modifies this`queue, job
      ensures Valid() && job.solver == NextEnabled(P.solvers, old(job.solver) + 1) && job.score == old(job.score)
      ensures job.heuristic == (P.heurpricingiters > 0 || old(job.heuristic))
      ensures job.nheuriters == if P.heurpricingiters > 0 then 0 else old(job.nheuriters)
      ensures queue == old(queue) + if job.solver < |P.solvers| then [job] else []
    {
      assert queue + [] == queue;
      job.solver := NextEnabled(P.solvers, job.solver + 1);
      if P.heurpricingiters > 0 {
        job.heuristic, job.nheuriters := true, 0;
      }
      if job.solver < |P.solvers| {
        queue := queue + [job];
      }
    }

    /** The next branching constraint is due: every job of the problem starts over heuristically. */
    method PricingprobNextBranchcons(prob: PricingProb)
      requires Valid() && prob.branchconsidx > 0
      requires exists k :: 0 <= k < |jobs| && jobs[k].prob == prob
      modifies prob, set k | 0 <= k < |jobs| && jobs[k].prob == prob :: jobs[k]
      ensures forall k :: 0 <= k < |jobs| && jobs[k].prob == prob ==>
                jobs[k].State() == NextBranchcons(P, old(jobs[k].State()))
    {
      prob.branchconsidx := prob.branchconsidx - 1;
      prob.status := Unknown;
      if P.heurpricingiters > 0 {
        for i := 0 to |jobs|
          invariant prob.branchconsidx == old(prob.branchconsidx) - 1 && prob.status == Unknown
          invariant prob.nbranchconss == old(prob.nbranchconss) && prob.nimpcols == old(prob.nimpcols)
          invariant forall k :: 0 <= k < i && jobs[k].prob == prob ==>
            jobs[k].State() == NextBranchcons(P, old(jobs[k].State()))
          invariant forall k :: i <= k < |jobs| && jobs[k].prob == prob ==>
            jobs[k].heuristic == old(jobs[k].heuristic) && jobs[k].nheuriters == old(jobs[k].nheuriters) &&
            jobs[k].solver == old(jobs[k].solver)
        {
          if jobs[i].prob == prob {
            jobs[i].heuristic, jobs[i].nheuriters := true, 0;
          }
        }
      }
    }

    lemma NoWorkNoJobs()
      requires AllPending() && QueuedWork() == 0
      ensures queue == []
    {
    }

    /** The states of the queued jobs other than the evaluated one do not change. */
    method RunAndEvaluate(job: PricingJob, status: Status, lowerbound: LowerBound, nimpcols: nat)
      requires Valid() && job in jobs && job !in queue && AllPending() && Pending(P, job.State())
      modifies this`queue, this`nsolvedprobs, job, job.prob
      ensures Valid() && AllPending()
      ensures QueuedWork() < old(QueuedWork()) + old(Work(P, job.State()))
    {
      ghost var before, js, j := queue, States(queue), job.State();
      PendingByState();
      OthersDiffer(job);
      RunUsesWork(P, j, status, nimpcols);
      UpdateProb(job.prob, status, lowerbound, nimpcols);
      assert job.State() == Update(j, status, nimpcols);
      EvaluatePricingjob(job, status);
      WorkAfterEvaluation(before, js, job);
    }

    /** The queue is as before, or one pending job longer. */
    lemma WorkAfterEvaluation(before: seq<PricingJob>, js: seq<Job>, job: PricingJob)
      requires |js| == |before| && forall k :: 0 <= k < |before| ==> js[k] == before[k].State() && Pending(P, js[k])
      requires queue == before || (queue == before + [job] && Pending(P, job.State()))
      ensures AllPending()
      ensures QueuedWork() == WorkOf(P, js) + if queue == before then 0 else Work(P, job.State())
    {
      StatesUnchanged(before, js);
      QueueGrows(before, js, job);
      WorkOneMore(P, js, job.State());
      forall k | 0 <= k < |queue| ensures Pending(P, States(queue)[k]) {
        if k < |js| { assert States(queue)[k] == js[k]; }
      }
      PendingByState();
    }

    lemma OthersDiffer(job: PricingJob)
      requires Valid() && job in jobs && job !in queue
      ensures forall k :: 0 <= k < |queue| ==> queue[k] != job && queue[k].prob != job.prob
    {
      forall k | 0 <= k < |queue| ensures queue[k] != job && queue[k].prob != job.prob {
        assert queue[k] in jobs && queue[k] in queue;
        var i :| 0 <= i < |jobs| && jobs[i] == queue[k];
        var j :| 0 <= j < |jobs| && jobs[j] == job;
        assert i != j;
      }
    }

    lemma StatesUnchanged(before: seq<PricingJob>, js: seq<Job>)
      requires |js| == |before| && forall k :: 0 <= k < |before| ==> js[k] == before[k].State()
      ensures States(before) == js
    {
    }

    lemma QueueGrows(before: seq<PricingJob>, js: seq<Job>, job: PricingJob)
      requires queue == before || queue == before + [job]
      requires States(before) == js
      ensures States(queue) == if queue == before then js else js + [job.State()]
    {
      if queue == before + [job] { assert queue[..|queue| - 1] == before; }
    }
  }

  lemma WorkOneMore(P: Params, js: seq<Job>, j: Job)
    requires forall k :: 0 <= k < |js| ==> Pending(P, js[k])
    ensures Pending(P, j) ==> WorkOf(P, js + [j]) == WorkOf(P, js) + Work(P, j)
  {
    if Pending(P, j) { assert (js + [j])[..|js|] == js; }
  }

  /** GCGpricingprobUpdate */
  method UpdateProb(prob: PricingProb, status: Status, lowerbound: LowerBound, nimpcols: nat)
    modifies prob
    ensures prob.nbranchconss == old(prob.nbranchconss) && prob.branchconsidx == old(prob.branchconsidx)
    ensures status == NotApplicable ==> unchanged(prob)
    ensures status != NotApplicable ==>
      && prob.status == status && prob.lowerbound == Greater(lowerbound, old(prob.lowerbound))
      && prob.lowerbound in {lowerbound, old(prob.lowerbound)}
      && NotBelow(prob.lowerbound, lowerbound) && NotBelow(prob.lowerbound, old(prob.lowerbound))
      && prob.nimpcols == old(prob.nimpcols) + nimpcols && prob.nsolves == old(prob.nsolves) + 1
  {
    if status == NotApplicable { return; }
    prob.status := status;
    prob.lowerbound := Greater(lowerbound, prob.lowerbound);
    prob.nimpcols := prob.nimpcols + nimpcols;
    prob.nsolves := prob.nsolves + 1;
  }

  /** What a solver reports on the n-th iteration. */
  datatype Answer = Answer(status: Status, lowerbound: LowerBound, nimpcols: nat)

  /**
   * The pricing loop: maxniters iterations, each taking the best job and, unless the loop is to be aborted, running
   * and evaluating it. No more jobs are run than the queue has work for. If the limit allows that many, the queue
   * ends empty.
   */
  method PricingLoop(c: Pricingcontroller, answers: nat -> Answer, aborts: nat -> bool) returns (runs: nat)
    requires c.Valid() && c.AllPending()
    modifies c`queue, c`nsolvedprobs, c.Footprint()
    ensures c.Valid() && c.AllPending()
    ensures runs + c.QueuedWork() <= old(c.QueuedWork())
    ensures c.maxniters >= old(c.QueuedWork()) ==> c.queue == []
  {
    runs := 0;
    for niters := 0 to c.maxniters
      invariant c.Valid() && c.AllPending()
      invariant runs + c.QueuedWork() <= old(c.QueuedWork())
      invariant niters + c.QueuedWork() <= old(c.QueuedWork()) || c.queue == []
    {
      var job := c.GetNextPricingjob();
      if job != null {
        if !aborts(niters) {
          var answer := answers(niters);
          c.RunAndEvaluate(job, answer.status, answer.lowerbound, answer.nimpcols);
          runs := runs + 1;
        }
      }
    }
    if c.queue != [] && c.maxniters >= old(c.QueuedWork()) {
      c.NoWorkNoJobs();
    }
  }

  /** What precedes the loop: the queued work is the budget of the chunk, and the limit covers it up to the cap. */
  method PrepareChunk(c: Pricingcontroller, consblocks: seq<int>, depth: nat, scorings: seq<Scoring>)
    requires c.Valid() && |scorings| == |c.jobs| && EnabledFrom(c.P.solvers, 0) > 0
    modifies c, c.Footprint()
    ensures c.Valid() && c.AllPending()
    ensures c.curchunk == NextChunk(old(c.curchunk), c.nchunks)
    ensures c.QueuedWork() == c.ChunkBudget(HeuristicAt(c.P, c.maxheurdepth, depth), consblocks, c.curchunk)
    ensures c.QueuedWork() <= Limit.ITERATION_CAP ==> c.QueuedWork() <= c.maxniters
  {
    c.InitPricing(consblocks);
    c.SetupPriorityQueue(depth, scorings);
    c.QueuedWorkIsBudget(HeuristicAt(c.P, c.maxheurdepth, depth), consblocks);
  }

  /**
   * initPricing, one set-up of the queue and one pricing loop: the computed limit empties the queue whenever the
   * budgets of the chunk add up to no more than the cap.
   */
  method PriceChunk(c: Pricingcontroller, consblocks: seq<int>, depth: nat, scorings: seq<Scoring>,
                    answers: nat -> Answer, aborts: nat -> bool)
    returns (runs: nat)
    requires c.Valid() && |scorings| == |c.jobs| && EnabledFrom(c.P.solvers, 0) > 0
    modifies c, c.Footprint()
    ensures c.Valid() && c.AllPending()
    ensures var chunk := NextChunk(old(c.curchunk), c.nchunks);
      c.ChunkBudget(HeuristicAt(c.P, c.maxheurdepth, depth), consblocks, chunk) <= Limit.ITERATION_CAP ==> c.queue == []
  {
    PrepareChunk(c, consblocks, depth, scorings);
    runs := PricingLoop(c, answers, aborts);
  }

  /** Every job is offered to the queue in one of the chunks that the rotation visits. */
  lemma EveryJobOffered(jobs: seq<PricingJob>, start: nat, nchunks: nat, job: PricingJob)
    requires start < nchunks && job in jobs && job.chunk < nchunks
    ensures exists i: nat :: i < nchunks && job in JobsOfChunk(jobs, ChunkAfter(start, nchunks, i))
  {
    RotationVisitsAll(start, nchunks);
    assert Visited(start, nchunks, job.chunk);
    var i: nat :| i < nchunks && ChunkAfter(start, nchunks, i) == job.chunk;
    ChunkJobsComplete(jobs, job);
  }

  lemma {:induction false} ChunkJobsComplete(jobs: seq<PricingJob>, job: PricingJob)
    requires job in jobs
    ensures job in JobsOfChunk(jobs, job.chunk)
  {
    if job != jobs[|jobs| - 1] { ChunkJobsComplete(jobs[..|jobs| - 1], job); }
  }

  lemma CompareFlips(a: Key, b: Key)
    requires a.probnr != b.probnr
    ensures ComparePricingjobs(a, b) == -ComparePricingjobs(b, a) && ComparePricingjobs(a, b) != 0
  {
  }

  function States(queue: seq<PricingJob>): (js: seq<Job>)
    reads queue, set k | 0 <= k < |queue| :: queue[k].prob
    ensures |js| == |queue| && forall k :: 0 <= k < |queue| ==> js[k] == queue[k].State()
  {
    if |queue| == 0 then [] else States(queue[..|queue| - 1]) + [queue[|queue| - 1].State()]
  }

  function WorkOf(P: Params, js: seq<Job>): nat
    requires forall k :: 0 <= k < |js| ==> Pending(P, js[k])
  {
    if |js| == 0 then 0 else WorkOf(P, js[..|js| - 1]) + Work(P, js[|js| - 1])
  }

  lemma {:induction false} WorkWithoutOne(P: Params, js: seq<Job>, at: nat)
    requires at < |js| && forall k :: 0 <= k < |js| ==> Pending(P, js[k])
    ensures var rest := js[..at] + js[at + 1..];
      (forall k :: 0 <= k < |rest| ==> Pending(P, rest[k])) && WorkOf(P, rest) + Work(P, js[at]) == WorkOf(P, js)
  {
    var rest := js[..at] + js[at + 1..];
    if at == |js| - 1 {
      assert rest == js[..at];
    } else {
      var front := js[..|js| - 1];
      WorkWithoutOne(P, front, at);
      assert rest[..|rest| - 1] == front[..at] + front[at + 1..];
    }
  }

  /** rest is the queue without position `at`; js are the states of the whole queue. */
  lemma StatesWithoutOne(queue: seq<PricingJob>, at: nat, rest: seq<PricingJob>, js: seq<Job>)
    requires at < |queue| == |js| && rest == queue[..at] + queue[at + 1..]
    requires forall k :: 0 <= k < |queue| ==> js[k] == queue[k].State()
    ensures States(rest) == js[..at] + js[at + 1..]
  {
    var ks, ls := States(rest), js[..at] + js[at + 1..];
    forall k | 0 <= k < |rest| ensures ks[k] == ls[k] {
      if k < at { assert rest[k] == queue[k]; } else { assert rest[k] == queue[k + 1]; }
    }
  }

  lemma WithoutOne(queue: seq<PricingJob>, at: nat)
    requires at < |queue|
    ensures forall q :: q in queue <==> q in queue[..at] + queue[at + 1..] || q == queue[at]
  {
    assert queue == queue[..at] + [queue[at]] + queue[at + 1..];
  }

  /** GCGpricingprobReset */
  method ResetProb(prob: PricingProb)
    modifies prob
    ensures prob.nbranchconss == old(prob.nbranchconss) && prob.nimpcols == old(prob.nimpcols)
    ensures prob.branchconsidx == prob.nbranchconss && prob.status == Unknown
    ensures prob.lowerbound == MinusInfinity && prob.nsolves == 0
  {
    prob.branchconsidx := prob.nbranchconss;
    prob.status := Unknown;
    prob.lowerbound := MinusInfinity;
    prob.nsolves := 0;
  }

  function Occurrences(blocks: seq<int>, block: int): (n: nat)
    ensures n == multiset(blocks)[block]
  {
    if |blocks| == 0 then 0
    else
      assert blocks == blocks[..|blocks| - 1] + [blocks[|blocks| - 1]];
      Occurrences(blocks[..|blocks| - 1], block) + if blocks[|blocks| - 1] == block then 1 else 0
  }

  /** The numbers of branching constraints of the jobs' problems. */
  function BranchCounts(jobs: seq<PricingJob>): (counts: seq<nat>)
    reads set k | 0 <= k < |jobs| :: jobs[k].prob
    ensures |counts| == |jobs|
  {
    if |jobs| == 0 then [] else BranchCounts(jobs[..|jobs| - 1]) + [jobs[|jobs| - 1].prob.nbranchconss]
  }

  function InChunk(jobs: seq<PricingJob>, chunk: nat): (flags: seq<bool>)
    ensures |flags| == |jobs|
  {
    if |jobs| == 0 then [] else InChunk(jobs[..|jobs| - 1], chunk) + [jobs[|jobs| - 1].chunk == chunk]
  }

  /** The same numbers, from the blocks of the generic nodes. */
  function Counts(jobs: seq<PricingJob>, consblocks: seq<int>): (counts: seq<nat>)
    ensures |counts| == |jobs|
  {
    if |jobs| == 0 then []
    else Counts(jobs[..|jobs| - 1], consblocks) + [Occurrences(consblocks, jobs[|jobs| - 1].prob.probnr)]
  }

  lemma {:induction false} CountsAgree(jobs: seq<PricingJob>, consblocks: seq<int>)
    requires forall k :: 0 <= k < |jobs| ==>
      jobs[k].prob.nbranchconss == Occurrences(consblocks, jobs[k].prob.probnr)
    ensures BranchCounts(jobs) == Counts(jobs, consblocks)
  {
    if |jobs| > 0 { CountsAgree(jobs[..|jobs| - 1], consblocks); }
  }

  lemma CountOneMore(P: Params, jobs: seq<PricingJob>, i: nat)
    requires i < |jobs|
    ensures Runs.UncappedIterations(P, BranchCounts(jobs[..i + 1])) ==
            Runs.UncappedIterations(P, BranchCounts(jobs[..i])) + Iterations(P, jobs[i].prob.nbranchconss)
  {
    assert jobs[..i + 1][..i] == jobs[..i];
    var front := BranchCounts(jobs[..i]);
    assert BranchCounts(jobs[..i + 1]) == front + [jobs[i].prob.nbranchconss];
    assert (front + [jobs[i].prob.nbranchconss])[..i] == front;
  }

  /** A job right after its set-up, up to what its set-up does not touch. */
  predicate FreshJob(P: Params, heuristic: bool, j: Job) {
    j == Fresh(P, heuristic, j.nbranchconss, j.nheuriters).(nimpcols := j.nimpcols)
  }

  lemma FreshJobWork(P: Params, heuristic: bool, j: Job)
    requires EnabledFrom(P.solvers, 0) > 0 && (heuristic ==> P.heurpricingiters > 0) && FreshJob(P, heuristic, j)
    ensures Pending(P, j) && Work(P, j) == Limit.StartBudget(P, heuristic, j.nbranchconss)
  {
    Limit.StartWork(P, heuristic, j.nbranchconss);
  }

  /** The queued jobs are pending, and this is their work. */
  ghost predicate HasWork(P: Params, queue: seq<PricingJob>, work: int)
    reads queue, set k | 0 <= k < |queue| :: queue[k].prob
  {
    var js := States(queue);
    (forall k :: 0 <= k < |js| ==> Pending(P, js[k])) && WorkOf(P, js) == work
  }

  lemma QueueOneMore(P: Params, queue: seq<PricingJob>, job: PricingJob, work: int)
    requires HasWork(P, queue, work) && Pending(P, job.State())
    ensures HasWork(P, queue + [job], work + Work(P, job.State()))
  {
    StatesOneMore(queue, job);
    WorkOneMore(P, States(queue), job.State());
  }

  lemma StatesOneMore(queue: seq<PricingJob>, job: PricingJob)
    ensures States(queue + [job]) == States(queue) + [job.State()]
  {
    assert (queue + [job])[..|queue|] == queue;
  }

  lemma ChunkOneMore(P: Params, front: seq<PricingJob>, job: PricingJob, chunk: nat, work: int)
    requires HasWork(P, JobsOfChunk(front, chunk), work) && Pending(P, job.State())
    ensures HasWork(P, JobsOfChunk(front + [job], chunk), work + if job.chunk == chunk then Work(P, job.State()) else 0)
  {
    var queue := JobsOfChunk(front, chunk);
    assert (front + [job])[..|front|] == front;
    assert queue + [] == queue;
    if job.chunk == chunk { QueueOneMore(P, queue, job, work); }
  }

  lemma BudgetOneMore(P: Params, heuristic: bool, jobs: seq<PricingJob>, job: PricingJob, chunk: nat)
    ensures
      Limit.QueuedBudget(P, heuristic, BranchCounts(jobs + [job]), InChunk(jobs + [job], chunk), |jobs| + 1) ==
      Limit.QueuedBudget(P, heuristic, BranchCounts(jobs), InChunk(jobs, chunk), |jobs|) +
      if job.chunk == chunk then Limit.StartBudget(P, heuristic, job.prob.nbranchconss) else 0
  {
    assert (jobs + [job])[..|jobs|] == jobs;
    Limit.QueuedBudgetPrefix(P, heuristic, BranchCounts(jobs), InChunk(jobs, chunk), job.prob.nbranchconss,
                             job.chunk == chunk, |jobs|);
  }

  lemma {:induction false} WorkOfChunk(P: Params, jobs: seq<PricingJob>, chunk: nat, heuristic: bool)
    requires EnabledFrom(P.solvers, 0) > 0 && (heuristic ==> P.heurpricingiters > 0)
    requires forall k :: 0 <= k < |jobs| ==> FreshJob(P, heuristic, jobs[k].State())
    ensures HasWork(P, JobsOfChunk(jobs, chunk),
                    Limit.QueuedBudget(P, heuristic, BranchCounts(jobs), InChunk(jobs, chunk), |jobs|))
  {
    if |jobs| > 0 {
      var front, job := jobs[..|jobs| - 1], jobs[|jobs| - 1];
      var work := Limit.QueuedBudget(P, heuristic, BranchCounts(front), InChunk(front, chunk), |front|);
      WorkOfChunk(P, front, chunk, heuristic);
      FreshJobWork(P, heuristic, job.State());
      ChunkOneMore(P, front, job, chunk, work);
      BudgetOneMore(P, heuristic, front, job, chunk);
      assert front + [job] == jobs;
    }
  }

  /** The jobs that setupPriorityQueue inserts. */
  function JobsOfChunk(jobs: seq<PricingJob>, chunk: nat): seq<PricingJob> {
    if |jobs| == 0 then []
    else
      JobsOfChunk(jobs[..|jobs| - 1], chunk) + if jobs[|jobs| - 1].chunk == chunk then [jobs[|jobs| - 1]] else []
  }

  lemma {:induction false} ChunkJobsDistinct(jobs: seq<PricingJob>, chunk: nat)
    requires forall x, y :: 0 <= x < y < |jobs| ==> jobs[x] != jobs[y]
    ensures forall k :: 0 <= k < |JobsOfChunk(jobs, chunk)| ==>
              JobsOfChunk(jobs, chunk)[k] in jobs && JobsOfChunk(jobs, chunk)[k].chunk == chunk
    ensures forall job :: job in jobs && job.chunk == chunk ==> job in JobsOfChunk(jobs, chunk)
    ensures forall x, y :: 0 <= x < y < |JobsOfChunk(jobs, chunk)| ==>
              JobsOfChunk(jobs, chunk)[x] != JobsOfChunk(jobs, chunk)[y]
  {
    if |jobs| > 0 {
      ChunkJobsDistinct(jobs[..|jobs| - 1], chunk);
      assert forall j :: j in jobs[..|jobs| - 1] ==> j in jobs && j != jobs[|jobs| - 1];
    }
  }

  function CountRelevant(relevant: seq<bool>): (n: nat)
    ensures n <= |relevant|
  {
    if |relevant| == 0 then 0
    else CountRelevant(relevant[..|relevant| - 1]) + if relevant[|relevant| - 1] then 1 else 0
  }

  /** The loop of initSol over the blocks. */
  method CreateJobs(P: Params, relevant: seq<bool>, act: nat) returns (jobs: seq<PricingJob>)
    requires act > 0
    ensures |jobs| == if NextEnabled(P.solvers, 0) < |P.solvers| then CountRelevant(relevant) else 0
    ensures Separated(jobs) && fresh(jobs)
    ensures forall k :: 0 <= k < |jobs| ==> jobs[k].chunk == ChunkOf(k, act) && fresh(jobs[k].prob)
  {
    jobs := [];
    var npricingprobs := 0;
    for i := 0 to |relevant|
      invariant npricingprobs == CountRelevant(relevant[..i])
      invariant |jobs| == if NextEnabled(P.solvers, 0) < |P.solvers| then npricingprobs else 0
      invariant Separated(jobs) && fresh(jobs)
      invariant forall k :: 0 <= k < |jobs| ==>
        jobs[k].chunk == ChunkOf(k, act) && fresh(jobs[k].prob) && jobs[k].prob.probnr < i
    {
      assert relevant[..i + 1][..i] == relevant[..i];
      if relevant[i] {
        var prob := new PricingProb(i);
        var j := FirstEnabled(P.solvers);
        if j < |P.solvers| {
          var job := new PricingJob(prob, j, npricingprobs / act);
          jobs := jobs + [job];
        }
        npricingprobs := npricingprobs + 1;
      }
    }
    assert relevant[..|relevant|] == relevant;
  }

  method FirstEnabled(solvers: seq<bool>) returns (j: nat)
    ensures j == NextEnabled(solvers, 0)
  {
    j := 0;
    while j < |solvers| && !solvers[j]
      invariant NextEnabled(solvers, j) == NextEnabled(solvers, 0)
    {
      j := j + 1;
    }
  }
}
