/** Whole runs of the stabilization object: any sequence of calls, and one in which beta vanishes. */
module StabilizationRuns {
  import opened Vectors
  import opened Smoothing
  import opened DualStabilization

  // ---------- any sequence of calls ----------

  datatype Call =
    | NewNode(node: int)
    | Hybrid(lp: Duals)                                     // updateHybrid
    | HandOut(lp: Duals)                                    // the duals of all constraints and cuts
    | Product(lp: Duals, act: Activity)                     // updateSubgradientProduct
    | Improve(lp: Duals, act: Activity, lowerbound: real, dualsolconv: Vector, relevant: seq<bool>)
    | SetLinking(nlinking: nat)
    | SetConv(nconv: nat)
    | UpdateAlpha
    | Misprice
    | EndSchedule

  /** The sizes of the last LP. */
  datatype Sizes = Sizes(conss: nat, cuts: nat, linking: nat, conv: nat)

  ghost predicate Holds(stab: Stabilization, n: Sizes)
    reads stab
  {
    && stab.Valid()
    && |stab.stabcenterconsvals| <= n.conss && |stab.subgradientconsvals| <= n.conss
    && |stab.stabcentercutvals| <= n.cuts && |stab.subgradientcutvals| <= n.cuts
    && |stab.stabcenterlinkingconsvals| == n.linking
    && |stab.subgradientlinkingconsvals| == (if stab.hybridascent then n.linking else 0)
    && |stab.stabcenterconv| == n.conv
  }

  /** An LP that has grown, with duals of the right signs. */
  ghost predicate Grows(lp: Duals, n: Sizes, consSide: nat -> Side, cutSide: nat -> Side) {
    && n.conss <= |lp.conss| && n.cuts <= |lp.cuts| && n.linking == |lp.linking|
    && RightSigns(lp.conss, consSide) && RightSigns(lp.cuts, cutSide)
  }

  ghost predicate Allowed(call: Call, n: Sizes, consSide: nat -> Side, cutSide: nat -> Side) {
    match call
    case Hybrid(lp) => Grows(lp, n, consSide, cutSide)
    case HandOut(lp) => Grows(lp, n, consSide, cutSide)
    case Product(lp, act) => Grows(lp, n, consSide, cutSide) && HasSize(lp, act)
    case Improve(lp, act, _, dualsolconv, relevant) =>
      Grows(lp, n, consSide, cutSide) && HasSize(lp, act) && |dualsolconv| == n.conv == |relevant|
    case _ => true
  }

  function Next(call: Call, n: Sizes): Sizes {
    match call
    case Hybrid(lp) => n.(conss := |lp.conss|, cuts := |lp.cuts|)
    case HandOut(lp) => n.(conss := |lp.conss|, cuts := |lp.cuts|)
    case Product(lp, _) => n.(conss := |lp.conss|, cuts := |lp.cuts|)
    case Improve(lp, _, _, _, _) => n.(conss := |lp.conss|, cuts := |lp.cuts|)
    case SetLinking(nlinking) => n.(linking := nlinking)
    case SetConv(nconv) => n.(conv := nconv)
    case _ => n
  }

  ghost predicate AllAllowed(calls: seq<Call>, n: Sizes, consSide: nat -> Side, cutSide: nat -> Side)
    decreases |calls|
  {
    |calls| == 0 ||
    (Allowed(calls[0], n, consSide, cutSide) && AllAllowed(calls[1..], Next(calls[0], n), consSide, cutSide))
  }

  /** The duals that one round hands out. */
  datatype HandedOut = HandedOut(conss: Vector, cuts: Vector)

  ghost predicate SignsRight(h: HandedOut, consSide: nat -> Side, cutSide: nat -> Side) {
    RightSigns(h.conss, consSide) && RightSigns(h.cuts, cutSide)
  }

  method PerformHandOut(stab: Stabilization, lp: Duals, ghost n: Sizes) returns (h: HandedOut)
    requires Holds(stab, n) && Grows(lp, n, stab.consSide, stab.cutSide)
    modifies stab
    ensures Holds(stab, Next(HandOut(lp), n)) && SignsRight(h, stab.consSide, stab.cutSide)
  {
    stab.HandedOutSigns(lp);
    var conss := stab.HandOutConss(lp);
    var cuts := stab.HandOutCuts(lp);
    h := HandedOut(conss, cuts);
  }

  method PerformHybrid(stab: Stabilization, lp: Duals, ghost n: Sizes)
    requires Holds(stab, n) && Grows(lp, n, stab.consSide, stab.cutSide)
    modifies stab
    ensures Holds(stab, Next(Hybrid(lp), n))
  {
    var divisornorm := stab.UpdateHybrid(lp);
  }

  method PerformProduct(stab: Stabilization, lp: Duals, act: Activity, ghost n: Sizes)
    requires Holds(stab, n) && Grows(lp, n, stab.consSide, stab.cutSide) && HasSize(lp, act)
    modifies stab
    ensures Holds(stab, Next(Product(lp, act), n))
  {
    stab.UpdateSubgradientProduct(lp, act);
  }

  /** In every state that a run reaches, the product takes finite sides only. */
  lemma ReachableProduct(stab: Stabilization, lp: Duals, act: Activity, n: Sizes)
    requires Holds(stab, n) && Grows(lp, n, stab.consSide, stab.cutSide) && HasSize(lp, act) && stab.Knows(act)
    ensures stab.IsProduct(stab.SubgradientProduct(lp, act), lp, act)
  {
    stab.ProductMeasured(lp, act);
  }

  method PerformImprove(stab: Stabilization, lp: Duals, act: Activity, lowerbound: real, dualsolconv: Vector,
                        relevant: seq<bool>, ghost n: Sizes)
    requires Holds(stab, n) && Grows(lp, n, stab.consSide, stab.cutSide) && HasSize(lp, act)
    requires |dualsolconv| == n.conv == |relevant|
    modifies stab
    ensures Holds(stab, n.(conss := |lp.conss|, cuts := |lp.cuts|))
    ensures stab.hybridascent && stab.Knows(act) && !old(stab.Refuses(lowerbound)) ==>
      && Measures(stab.subgradientconsvals, stab.stabcenterconsvals, act.conss)
      && Measures(stab.subgradientcutvals, stab.stabcentercutvals, act.cuts)
  {
    stab.UpdateStabilityCenter(lowerbound, dualsolconv, relevant, lp, act);
  }

  method Perform(stab: Stabilization, call: Call, ghost n: Sizes) returns (handed: seq<HandedOut>)
    requires Holds(stab, n) && Allowed(call, n, stab.consSide, stab.cutSide)
    modifies stab
    ensures Holds(stab, Next(call, n))
    ensures forall k :: 0 <= k < |handed| ==> SignsRight(handed[k], stab.consSide, stab.cutSide)
    ensures |handed| == if call.HandOut? then 1 else 0
  {
    handed := [];
    match call {
      case NewNode(node) => stab.UpdateNode(node);
      case Hybrid(lp) => PerformHybrid(stab, lp, n);
      case HandOut(lp) =>
        var h := PerformHandOut(stab, lp, n);
        handed := [h];
      case Product(lp, act) => PerformProduct(stab, lp, act, n);
      case Improve(lp, act, lowerbound, dualsolconv, relevant) =>
        PerformImprove(stab, lp, act, lowerbound, dualsolconv, relevant, n);
      case SetLinking(nlinking) => stab.SetNLinkingconsvals(nlinking);
      case SetConv(nconv) => stab.SetNConvconsvals(nconv);
      case UpdateAlpha => stab.UpdateAlpha();
      case Misprice =>
        stab.ActivateMispricingSchedule();
        stab.UpdateAlphaMisprice();
      case EndSchedule => stab.DisablingMispricingSchedule();
    }
  }

  /**
   * Whatever is called, in whatever order, while the LP only grows, and with any numbers of linking and convexity
   * constraints: every smoothed dual of a constraint or cut that is ever handed out has the sign that the sides of its
   * row demand.
   */
  method PerformAll(stab: Stabilization, calls: seq<Call>, ghost n: Sizes) returns (handed: seq<HandedOut>)
    requires Holds(stab, n) && AllAllowed(calls, n, stab.consSide, stab.cutSide)
    modifies stab
    ensures stab.Valid()
    ensures forall k :: 0 <= k < |handed| ==> SignsRight(handed[k], stab.consSide, stab.cutSide)
    decreases |calls|
  {
    handed := [];
    if |calls| > 0 {
      var first := Perform(stab, calls[0], n);
      var rest := PerformAll(stab, calls[1..], Next(calls[0], n));
      handed := first + rest;
    }
  }

  // ---------- a run in which beta vanishes ----------

  /**
   * Two equations. The first LP has duals (0,1), which become the center; the subgradient there is (0,1). The second
   * LP has duals (1,1): the dual that moved belongs to the other row, and beta is zero although neither the
   * subgradient nor the difference of the duals vanishes.
   */
  method BetaMayVanish(sqrt: real -> real, undefined: real -> real) returns (stab: Stabilization)
    requires IsSquareRoot(sqrt)
    ensures stab.Valid() && stab.hasstabilitycenter && stab.alpha > 0.0
    ensures stab.Center() == [0.0, 1.0] && stab.Subgradient() == [0.0, 1.0]
    ensures stab.subgradientnorm > 0.0 && stab.dualdiffnorm > 0.0 && stab.beta == 0.0
  {
    stab := new Stabilization(true, sqrt, undefined, (i: nat) => FINITE, (i: nat) => FINITE);
    CenterAtFirstLp(stab);
    MoveOtherRow(stab);
  }

  const FIRST := Duals([0.0, 1.0], [], [])
  const SECOND := Duals([1.0, 1.0], [], [])
  const ACTIVITY := Activity([Row(Given(1.0), Given(1.0), 0.0), Row(Given(1.0), Given(1.0), 0.0)], [], [])

  ghost predicate AtCenter(stab: Stabilization)
    reads stab
  {
    && stab.Valid() && stab.hybridascent && stab.hasstabilitycenter && !stab.inmispricingschedule && stab.alpha > 0.0
    && stab.stabcenterconsvals == [0.0, 1.0] == stab.subgradientconsvals
    && stab.stabcentercutvals == stab.subgradientcutvals == []
    && stab.stabcenterlinkingconsvals == stab.subgradientlinkingconsvals == []
    && stab.subgradientnorm > 0.0
  }

  method CenterAtFirstLp(stab: Stabilization)
    requires stab.Valid() && !stab.hasstabilitycenter && stab.alpha > 0.0 && stab.hybridascent
    requires !stab.inmispricingschedule
    requires stab.stabcenterconsvals == stab.stabcentercutvals == stab.stabcenterlinkingconsvals == []
    requires stab.stabcenterconv == []
    requires stab.subgradientconsvals == stab.subgradientcutvals == stab.subgradientlinkingconsvals == []
    requires forall i: nat :: stab.consSide(i) == FINITE
    modifies stab
    ensures AtCenter(stab)
  {
    FirstDuals(stab);
    stab.UpdateStabilityCenter(0.0, [], [], FIRST, ACTIVITY);
    assert stab.subgradientconsvals == Infeasibilities([0.0, 1.0], ACTIVITY.conss) == [0.0, 1.0];
    assert stab.subgradientcutvals == [] && stab.subgradientlinkingconsvals == [];
    OneSquare();
  }

  lemma OneSquare()
    ensures SumSq([0.0, 1.0]) == 1.0 && SumSq([-1.0, 0.0]) == 1.0 && SumSq([]) == 0.0
  {
    assert [0.0, 1.0][..1] == [0.0] && [-1.0, 0.0][..1] == [-1.0];
  }

  /** Without a center the smoothed duals are those of the LP. */
  lemma FirstDuals(stab: Stabilization)
    requires stab.Valid() && !stab.hasstabilitycenter && stab.stabcenterconsvals == stab.stabcentercutvals == []
    requires stab.subgradientconsvals == stab.subgradientcutvals == []
    ensures stab.ConsDuals(FIRST) == [0.0, 1.0] && stab.CutDuals(FIRST) == []
  {
    var v := stab.ConsDuals(FIRST);
    forall i | 0 <= i < 2 ensures v[i] == FIRST.conss[i] {
      UnstabilizedReturnsCurrent(stab.Current(), Extended(stab.stabcenterconsvals, 2)[i], FIRST.conss[i],
        stab.Used(stab.subgradientconsvals, 2)[i], stab.consSide(i));
    }
  }

  method MoveOtherRow(stab: Stabilization)
    requires AtCenter(stab) && forall i: nat :: stab.consSide(i) == FINITE
    modifies stab
    ensures AtCenter(stab) && stab.dualdiffnorm > 0.0 && stab.beta == 0.0
  {
    ghost var divisornorm := stab.UpdateHybrid(SECOND);
    var center, subgradient := stab.Center(), stab.Subgradient();
    assert center == [0.0, 1.0] == subgradient && SECOND.All() == [1.0, 1.0];
    assert Difference(center, SECOND.All()) == [-1.0, 0.0] && Difference(SECOND.All(), center) == [1.0, 0.0];
    OneSquare();
    BetaVanishes(stab.Current(), center, SECOND.All(), subgradient);
  }
}
