/** The stabilization loop of reduced cost pricing: mispricing schedules, and the rotation over the chunks. */
module StabilizationLoop {
  import opened Vectors
  import opened Smoothing
  import opened DualStabilization
  import opened Chunks
  import opened PricingControl

  /**
   * What one round meets; all of it is arbitrary. The loop ends at once if the pool holds columns of negative reduced
   * cost, or if pricing turns out infeasible.
   */
  datatype Outcome = Outcome(pool: bool, infeasible: bool, found: bool, optimal: bool, improving: bool,
                             lowerbound: real, dualsolconv: Vector, act: Activity)
  {
    predicate Breaks() {
      pool || infeasible
    }
  }

  ghost predicate FitsLp(o: Outcome, lp: Duals, relevant: seq<bool>) {
    |o.dualsolconv| == |relevant| && HasSize(lp, o.act)
  }

  ghost predicate Suits(stab: Stabilization, lp: Duals, relevant: seq<bool>)
    reads stab
  {
    && stab.Valid() && stab.OnSchedule() && stab.Admits(lp)
    && |stab.subgradientlinkingconsvals| <= |lp.linking| && |relevant| == |stab.stabcenterconv|
  }

  /** Before a round: start over at a new node, and prepare hybrid smoothing. */
  method StartRound(stab: Stabilization, node: int, lp: Duals, relevant: seq<bool>) returns (stabilized: bool)
    requires Suits(stab, lp, relevant)
    modifies stab
    ensures Suits(stab, lp, relevant) && stab.nodenr == node
    ensures stabilized ==> stab.inmispricingschedule ==> stab.k < 10
    ensures old(stab.nodenr) == node ==>
      stab.k == old(stab.k) && stab.inmispricingschedule == old(stab.inmispricingschedule)
    ensures old(stab.nodenr) != node ==> !stab.inmispricingschedule
  {
    stab.UpdateNode(node);
    var divisornorm := stab.UpdateHybrid(lp);
    stabilized := stab.IsStabilized();
    TenthMispricing(stab.k, stab.alpha);
  }

  method UpdateProduct(stab: Stabilization, act: Activity, lp: Duals, relevant: seq<bool>)
    requires Suits(stab, lp, relevant) && HasSize(lp, act)
    modifies stab
    ensures Suits(stab, lp, relevant) && stab.nodenr == old(stab.nodenr)
    ensures stab.k == old(stab.k) && stab.inmispricingschedule == old(stab.inmispricingschedule)
  {
    stab.UpdateSubgradientProduct(lp, act);
  }

  /** If all problems were solved to optimality, the center may move. */
  method UpdateCenter(stab: Stabilization, o: Outcome, lp: Duals, relevant: seq<bool>)
    requires Suits(stab, lp, relevant) && FitsLp(o, lp, relevant)
    modifies stab
    ensures Suits(stab, lp, relevant) && stab.nodenr == old(stab.nodenr)
    ensures stab.k == old(stab.k) && stab.inmispricingschedule == old(stab.inmispricingschedule)
  {
    UpdateProduct(stab, o.act, lp, relevant);
    stab.UpdateStabilityCenter(o.lowerbound, o.dualsolconv, relevant, lp, o.act);
  }

  /** Mispricing enters or continues a schedule; a round with improving columns ends it. */
  method UpdateParameters(stab: Stabilization, stabilized: bool, found: bool, improving: bool, lp: Duals,
    relevant: seq<bool>)
    requires Suits(stab, lp, relevant)
    modifies stab
    ensures Suits(stab, lp, relevant) && stab.nodenr == old(stab.nodenr)
    ensures !found ==> stab.inmispricingschedule == stabilized && stab.k == if stabilized then old(stab.k) + 1 else 0
    ensures found && improving ==> !stab.inmispricingschedule
  {
    if !found {
      if stabilized {
        stab.ActivateMispricingSchedule();
        stab.UpdateAlphaMisprice();
      } else {
        stab.DisablingMispricingSchedule();
      }
    } else if improving {
      if stab.inmispricingschedule { stab.DisablingMispricingSchedule(); }
      stab.UpdateAlpha();
    }
  }

  method FinishRound(stab: Stabilization, stabilized: bool, o: Outcome, lp: Duals, relevant: seq<bool>)
    requires Suits(stab, lp, relevant) && FitsLp(o, lp, relevant)
    modifies stab
    ensures Suits(stab, lp, relevant) && stab.nodenr == old(stab.nodenr)
    ensures !o.found ==> stab.inmispricingschedule == stabilized && stab.k == if stabilized then old(stab.k) + 1 else 0
    ensures o.found && o.improving ==> !stab.inmispricingschedule
  {
    if o.optimal { UpdateCenter(stab, o, lp, relevant); }
    UpdateParameters(stab, stabilized, o.found, o.improving, lp, relevant);
  }

  /** Rounds that may still follow from the j-th chunk on: eleven for a chunk, less if it is mispricing. */
  function RoundsLeft(nchunks: nat, j: nat, inSchedule: bool, k: nat): int {
    11 * (nchunks - 1 - j) + if !inSchedule then 11 else if k < 10 then 11 - k else 1
  }

  /** The chunks that have been priced with the LP duals. */
  ghost predicate PricedInOrder(priced: seq<nat>, start: nat, nchunks: nat)
    requires start < nchunks
  {
    forall i :: 0 <= i < |priced| ==> priced[i] == ChunkAfter(start, nchunks, i)
  }

  lemma AllPriced(priced: seq<nat>, start: nat, nchunks: nat)
    requires start < nchunks && PricedInOrder(priced, start, nchunks) && |priced| == nchunks
    ensures forall c: nat :: c < nchunks ==> c in priced
  {
    RotationVisitsAll(start, nchunks);
    forall c: nat | c < nchunks ensures c in priced {
      assert Visited(start, nchunks, c);
      var i: nat :| i < nchunks && ChunkAfter(start, nchunks, i) == c;
      assert priced[i] == c;
    }
  }

  /** The chunks before the current one have been priced with the LP duals, in the order of the rotation. */
  ghost predicate Rotating(control: Pricingcontroller, start: nat, priced: seq<nat>)
    reads control
  {
    && control.Valid() && control.startchunk == start && |priced| < control.nchunks
    && PricedInOrder(priced, start, control.nchunks)
    && control.curchunk == ChunkAfter(start, control.nchunks, |priced|)
  }

  method NextChunkIfAny(control: Pricingcontroller, priced: seq<nat>) returns (more: bool)
    requires |priced| > 0 && Rotating(control, control.startchunk, priced[..|priced| - 1])
    requires priced[|priced| - 1] == control.curchunk
    modifies control`curchunk
    ensures control.Valid() && PricedInOrder(priced, control.startchunk, control.nchunks)
    ensures if more then Rotating(control, control.startchunk, priced) else |priced| == control.nchunks
  {
    RotationStops(control.startchunk, control.nchunks, |priced| - 1);
    more := control.CheckNextChunk();
  }

  ghost function LeftFor(stab: Stabilization, nchunks: nat, j: nat): int
    reads stab
  {
    RoundsLeft(nchunks, j, stab.inmispricingschedule, stab.k)
  }

  /** The part of a round that concerns stabilization. */
  method StabilizationRound(stab: Stabilization, node: int, lp: Duals, relevant: seq<bool>, o: Outcome)
    returns (stabilized: bool)
    requires Suits(stab, lp, relevant) && FitsLp(o, lp, relevant)
    modifies stab
    ensures Suits(stab, lp, relevant) && stab.nodenr == node
    ensures !o.Breaks() && !o.found && stabilized ==> forall n: nat, j: nat :: LeftFor(stab, n, j) < 11 * (n - j)
    ensures !o.Breaks() && !o.found && stabilized && old(stab.nodenr) == node ==>
      forall n: nat, j: nat :: LeftFor(stab, n, j) < old(LeftFor(stab, n, j))
    ensures !o.Breaks() && !o.found && !stabilized ==> !stab.inmispricingschedule && stab.k == 0
  {
    stabilized := StartRound(stab, node, lp, relevant);
    if o.pool { return; }
    if o.infeasible { return; }
    FinishRound(stab, stabilized, o, lp, relevant);
  }

  method Round(stab: Stabilization, control: Pricingcontroller, enablestab: bool, node: int, lp: Duals,
               relevant: seq<bool>, o: Outcome, before: seq<nat>)
    returns (again: bool, priced: seq<nat>)
    requires Suits(stab, lp, relevant) && FitsLp(o, lp, relevant) && Rotating(control, control.startchunk, before)
    modifies stab, control`curchunk
    ensures Suits(stab, lp, relevant) && control.Valid() && (enablestab ==> stab.nodenr == node)
    ensures again ==> !o.found && !o.Breaks() && Rotating(control, control.startchunk, priced)
    ensures again ==> LeftFor(stab, control.nchunks, |priced|) < 11 * (control.nchunks - |before|)
    ensures again && (!enablestab || old(stab.nodenr) == node) ==>
      LeftFor(stab, control.nchunks, |priced|) < old(LeftFor(stab, control.nchunks, |before|))
    ensures !again && !o.found && !o.Breaks() ==>
      |priced| == control.nchunks && PricedInOrder(priced, control.startchunk, control.nchunks)
    ensures !again && !o.found && !o.Breaks() && enablestab ==> !stab.inmispricingschedule && stab.k == 0
  {
    var stabilized := false;
    if enablestab { stabilized := StabilizationRound(stab, node, lp, relevant, o); }
    priced := before;
    if o.Breaks() { return false, priced; }
    if !stabilized { priced := before + [control.curchunk]; }
    var nextchunk := false;
    if !o.found && !stabilized {
      assert priced[..|priced| - 1] == before;
      nextchunk := NextChunkIfAny(control, priced);
    }
    again := nextchunk || (stabilized && !o.found);
  }

  /**
   * The loop ends after at most eleven rounds for each chunk. Unless it breaks off, it reports that no column was
   * found only if every chunk has been priced with the unsmoothed duals of the LP.
   */
  method Run(stab: Stabilization, control: Pricingcontroller, enablestab: bool, node: int, relevant: seq<bool>,
             lp: Duals, outcomes: nat -> Outcome)
    returns (rounds: nat, last: Outcome, priced: seq<nat>)
    requires Suits(stab, lp, relevant) && control.Valid() && control.curchunk == control.startchunk
    requires forall i: nat :: FitsLp(outcomes(i), lp, relevant)
    modifies stab, control`curchunk
    ensures Suits(stab, lp, relevant) && control.Valid()
    ensures 1 <= rounds <= 11 * control.nchunks && last == outcomes(rounds - 1)
    ensures forall i: nat :: i < rounds - 1 ==> !outcomes(i).found && !outcomes(i).Breaks()
    ensures !last.found && !last.Breaks() ==> forall c: nat :: c < control.nchunks ==> c in priced
    ensures !last.found && !last.Breaks() && enablestab ==> !stab.inmispricingschedule && stab.k == 0
  {
    rounds, last, priced := 0, outcomes(0), [];
    var again := true;
    while again
      invariant Suits(stab, lp, relevant) && control.Valid()
      invariant control.startchunk == old(control.startchunk)
      invariant rounds > 0 ==> last == outcomes(rounds - 1)
      invariant forall i: nat :: i < rounds - 1 ==> !outcomes(i).found && !outcomes(i).Breaks()
      invariant again ==> Rotating(control, control.startchunk, priced)
      invariant again && rounds > 0 ==> !last.found && !last.Breaks()
      invariant again && rounds > 0 ==> rounds + LeftFor(stab, control.nchunks, |priced|) <= 11 * control.nchunks
      invariant rounds > 0 && enablestab ==> stab.nodenr == node
      invariant !again ==> 1 <= rounds <= 11 * control.nchunks
      invariant !again && !last.found && !last.Breaks() ==>
        |priced| == control.nchunks && PricedInOrder(priced, control.startchunk, control.nchunks)
      invariant !again && !last.found && !last.Breaks() && enablestab ==> !stab.inmispricingschedule && stab.k == 0
      decreases if again then 11 * control.nchunks + 1 - rounds else 0
    {
      again, priced := Round(stab, control, enablestab, node, lp, relevant, outcomes(rounds), priced);
      last := outcomes(rounds);
      rounds := rounds + 1;
    }
    if !last.found && !last.Breaks() { AllPriced(priced, control.startchunk, control.nchunks); }
  }
}
