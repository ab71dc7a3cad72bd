/** Keeping branching constraints in step with the master variables: the event handler and the callbacks. */
module BranchSync {
  import opened Columns
  import BranchTree

  /** The block number that marks direct branching on a master variable. */
  const DIRECT_BLOCK: int := -3

  /** The decision of addVarToMasterbranch for a constraint of the given block and sequence. */
  predicate Admits(block: int, consS: Sequence, c: Column) {
    c.block != -1 && block != DIRECT_BLOCK && c.block == block && SatisfiesAll(c, consS)
  }

  /** The columns that a constraint must hold, in the order in which they were created. */
  function Admitted(block: int, consS: Sequence, vars: seq<Column>): seq<Column> {
    if |vars| == 0 then []
    else Admitted(block, consS, vars[..|vars| - 1]) +
         if Admits(block, consS, vars[|vars| - 1]) then [vars[|vars| - 1]] else []
  }

  // ---------- the callbacks on mutable branching data ----------

  /** Branching data of a node; `coefs` lists the variables of its master constraint. */
  class BranchData {
    const generic: bool
    const consblocknr: int
    const consS: Sequence
    var nvars: nat
    var coefs: seq<Column>

    constructor (generic: bool, consblocknr: int, consS: Sequence)
      ensures this.generic == generic && this.consblocknr == consblocknr && this.consS == consS
      ensures nvars == 0 && coefs == []
    {
      this.generic, this.consblocknr, this.consS := generic, consblocknr, consS;
      nvars, coefs := 0, [];
    }

    predicate Takes(c: Column) {
      Admits(consblocknr, consS, c)
    }

    /** The walk of the event handler goes on past this node. */
    predicate Passed() {
      generic && |consS| > 0
    }

    method AddVarToMasterbranch(c: Column) returns (added: bool)
      modifies this`coefs
      ensures added <==>
        (&& c.block != -1 && consblocknr != -3 && c.block == consblocknr
         && forall k :: 0 <= k < |consS| ==>
              (consS[k].sense == GE ==> GeneratorEntry(c, consS[k].component) >= consS[k].bound) &&
              (consS[k].sense == LT ==> GeneratorEntry(c, consS[k].component) < consS[k].bound))
      ensures added == Takes(c)
      ensures coefs == old(coefs) + if added then [c] else []
    {
      assert coefs + [] == coefs;
      if c.block == -1 || consblocknr == DIRECT_BLOCK || c.block != consblocknr {
        return false;
      }
      var varinS := true;
      var p := 0;
      while p < |consS| && varinS
        invariant p <= |consS| && coefs == old(coefs)
        invariant varinS ==> forall k :: 0 <= k < p ==> Satisfies(c, consS[k])
        invariant !varinS ==> !SatisfiesAll(c, consS)
      {
        var generatorentry := GetGeneratorEntry(c, consS[p].component);
        if consS[p].sense == GE {
          if generatorentry < consS[p].bound { varinS := false; }
        } else {
          if generatorentry >= consS[p].bound { varinS := false; }
        }
        p := p + 1;
      }
      assert varinS == Takes(c);
      if varinS {
        coefs := coefs + [c];
      }
      added := varinS;
    }

    /** The data as a value, on which runs are described. */
    function AsNode(): Node
      reads this
    {
      Node(generic, consblocknr, consS, nvars, coefs)
    }

    /** Activation: the variables created since the node was left are added. */
    method ActiveMaster(mastervars: seq<Column>)
      modifies this
      ensures AsNode() == AfterActivation(old(AsNode()), mastervars)
    {
      if nvars >= |mastervars| { return; }
      ghost var news := mastervars[nvars..];
      assert coefs + [] == coefs;
      for i := nvars to |mastervars|
        invariant nvars == old(nvars)
        invariant coefs == old(coefs) + Admitted(consblocknr, consS, news[..i - nvars])
      {
        ghost var k := i - nvars;
        assert news[..k + 1][..k] == news[..k] && news[k] == mastervars[i];
        var added := AddVarToMasterbranch(mastervars[i]);
      }
      assert news[..|news|] == news;
      nvars := |mastervars|;
    }

    /** Deactivation: remembers how many variables existed. */
    method DeactiveMaster(mastervars: seq<Column>)
      modifies this`nvars
      ensures AsNode() == old(AsNode()).(nvars := |mastervars|)
    {
      nvars := |mastervars|;
    }
  }

  /** The walk from the current node (last) to the root reaches position k. */
  predicate WalkReaches(path: seq<BranchData>, k: nat) {
    forall j :: k <= j < |path| ==> path[j].Passed()
  }

  /** Variable-added event: offers the new variable to the nodes of the path, from the current one upwards. */
  method EventExec(mastervar: Column, path: seq<BranchData>)
    requires forall x, y :: 0 <= x < y < |path| ==> path[x] != path[y]
    modifies path
    ensures forall k :: 0 <= k < |path| ==> path[k].nvars == old(path[k].nvars)
    ensures forall k :: 0 <= k < |path| ==>
      path[k].coefs == old(path[k].coefs) +
        if WalkReaches(path, k) && path[k].Takes(mastervar) then [mastervar] else []
  {
    var k := |path|;
    while k > 0 && path[k - 1].Passed()
      invariant 0 <= k <= |path|
      invariant forall j :: 0 <= j < |path| ==> path[j].nvars == old(path[j].nvars)
      invariant forall j :: k <= j < |path| ==> path[j].Passed()
      invariant forall j :: k <= j < |path| ==>
        path[j].coefs == old(path[j].coefs) + if path[j].Takes(mastervar) then [mastervar] else []
      invariant forall j :: 0 <= j < k ==> path[j].coefs == old(path[j].coefs)
      decreases k
    {
      k := k - 1;
      if mastervar.block != -1 && path[k].consblocknr != mastervar.block {
        continue;
      }
      if mastervar.block == -1 && mastervar.linkingBlocks == {} {
        continue;
      }
      var added := path[k].AddVarToMasterbranch(mastervar);
    }
    forall j | 0 <= j < k ensures !WalkReaches(path, j) {
      assert !path[k - 1].Passed();
    }
  }

  // ---------- runs ----------

  /** A node as a value: what the callbacks read and write. */
  datatype Node = Node(generic: bool, block: int, consS: Sequence, nvars: nat, coefs: seq<Column>) {
    predicate Passed() {
      generic && |consS| > 0
    }
  }

  /** All created nodes, the stack of active ones (root first), and the master variables in creation order. */
  datatype State = State(nodes: seq<Node>, active: seq<nat>, vars: seq<Column>)

  datatype Event =
    | Create(generic: bool, block: int, consS: Sequence)
    | Activate(node: nat)
    | Deactivate
    | VarAdded(c: Column)

  predicate Reached(s: State, k: nat) {
    forall j :: k <= j < |s.active| ==> s.active[j] < |s.nodes| && s.nodes[s.active[j]].Passed()
  }

  /** The walk offers c to node n. */
  predicate Offered(s: State, n: nat) {
    exists k :: 0 <= k < |s.active| && s.active[k] == n && Reached(s, k)
  }

  function AfterVarAdded(s: State, c: Column, n: nat): Node
    requires n < |s.nodes|
  {
    var d := s.nodes[n];
    if Offered(s, n) && Admits(d.block, d.consS, c) then d.(coefs := d.coefs + [c]) else d
  }

  function AfterActivation(d: Node, vars: seq<Column>): Node {
    if d.nvars >= |vars| then d
    else d.(coefs := d.coefs + Admitted(d.block, d.consS, vars[d.nvars..]), nvars := |vars|)
  }

  predicate Enabled(s: State, e: Event) {
    match e
    case Create(_, _, _) => true
    case Activate(n) => n < |s.nodes| && n !in s.active
    case Deactivate => |s.active| > 0 && s.active[|s.active| - 1] < |s.nodes|
    case VarAdded(_) => true
  }

  function Step(s: State, e: Event): State
    requires Enabled(s, e)
  {
    match e
    case Create(generic, block, consS) => s.(nodes := s.nodes + [Node(generic, block, consS, 0, [])])
    case Activate(n) =>
      var d := s.nodes[n];
      s.(active := s.active + [n], nodes := s.nodes[n := if d.generic then AfterActivation(d, s.vars) else d])
    case Deactivate =>
      var n := s.active[|s.active| - 1];
      var d := s.nodes[n];
      s.(active := s.active[..|s.active| - 1],
         nodes := s.nodes[n := if d.generic then d.(nvars := |s.vars|) else d])
    case VarAdded(c) =>
      s.(vars := s.vars + [c], nodes := seq(|s.nodes|, n requires 0 <= n < |s.nodes| => AfterVarAdded(s, c, n)))
  }

  /** The stack holds distinct nodes; active generic nodes know every variable, inactive ones a prefix. */
  ghost predicate Synchronised(s: State) {
    && (forall x, y :: 0 <= x < y < |s.active| ==> s.active[x] != s.active[y])
    && (forall k :: 0 <= k < |s.active| ==> s.active[k] < |s.nodes|)
    && forall n :: 0 <= n < |s.nodes| ==> InStep(s, n)
  }

  ghost predicate InStep(s: State, n: nat)
    requires n < |s.nodes|
  {
    var d := s.nodes[n];
    && d.nvars <= |s.vars|
    && (d.generic ==>
          d.coefs == Admitted(d.block, d.consS, if n in s.active then s.vars else s.vars[..d.nvars]))
  }

  lemma {:induction false} AdmittedSplits(block: int, consS: Sequence, a: seq<Column>, b: seq<Column>)
    ensures Admitted(block, consS, a + b) == Admitted(block, consS, a) + Admitted(block, consS, b)
  {
    if |b| == 0 {
      assert a + b == a;
    } else {
      assert (a + b)[..|a + b| - 1] == a + b[..|b| - 1];
      AdmittedSplits(block, consS, a, b[..|b| - 1]);
    }
  }

  lemma ActivationCatchesUp(d: Node, vars: seq<Column>)
    requires d.nvars <= |vars| && d.coefs == Admitted(d.block, d.consS, vars[..d.nvars])
    ensures AfterActivation(d, vars).coefs == Admitted(d.block, d.consS, vars)
    ensures AfterActivation(d, vars).nvars == |vars|
  {
    AdmittedSplits(d.block, d.consS, vars[..d.nvars], vars[d.nvars..]);
    assert vars == vars[..d.nvars] + vars[d.nvars..];
  }

  /** The new variable matters to some active generic node that the walk does not reach. */
  ghost predicate Missed(s: State, c: Column) {
    exists k :: 0 <= k < |s.active| && s.active[k] < |s.nodes| && !Reached(s, k) && Wants(s.nodes[s.active[k]], c)
  }

  predicate Wants(d: Node, c: Column) {
    d.generic && Admits(d.block, d.consS, c)
  }

  lemma CreateKeeps(s: State, generic: bool, block: int, consS: Sequence)
    requires Synchronised(s)
    ensures Synchronised(Step(s, Create(generic, block, consS)))
  {
    var t := Step(s, Create(generic, block, consS));
    forall n | 0 <= n < |t.nodes| ensures InStep(t, n) {
      if n < |s.nodes| { assert InStep(s, n); } else { assert t.vars[..0] == []; }
    }
  }

  lemma ActivateKeeps(s: State, n: nat)
    requires Synchronised(s) && Enabled(s, Activate(n))
    ensures Synchronised(Step(s, Activate(n)))
  {
    var t := Step(s, Activate(n));
    assert InStep(s, n);
    if s.nodes[n].generic { ActivationCatchesUp(s.nodes[n], s.vars); }
    forall m | 0 <= m < |t.nodes| ensures InStep(t, m) {
      assert InStep(s, m);
      assert m in t.active <==> m in s.active || m == n;
    }
  }

  lemma DeactivateKeeps(s: State)
    requires Synchronised(s) && Enabled(s, Deactivate)
    ensures Synchronised(Step(s, Deactivate))
  {
    var t := Step(s, Deactivate);
    var n := s.active[|s.active| - 1];
    assert s.active == t.active + [n] && s.vars[..|s.vars|] == s.vars;
    forall m | 0 <= m < |t.nodes| ensures InStep(t, m) {
      assert InStep(s, m);
      assert m in s.active <==> m in t.active || m == n;
    }
  }

  /** A new variable keeps everything in step exactly when no active generic node that wants it is cut off. */
  lemma VarAddedKeeps(s: State, c: Column)
    requires Synchronised(s)
    ensures Synchronised(Step(s, VarAdded(c))) <==> !Missed(s, c)
  {
    var t := Step(s, VarAdded(c));
    forall n | 0 <= n < |s.nodes|
      ensures InStep(t, n) <==>
        !(n in s.active && !Offered(s, n) && Wants(s.nodes[n], c))
    {
      OneNodeAfterVarAdded(s, c, n);
    }
    OfferedIffReached(s);
    if Missed(s, c) {
      var k :| 0 <= k < |s.active| && !Reached(s, k) && Wants(s.nodes[s.active[k]], c);
      assert !InStep(t, s.active[k]);
    } else {
      forall n | 0 <= n < |t.nodes| ensures InStep(t, n) {
        if n in s.active {
          var k :| 0 <= k < |s.active| && s.active[k] == n;
        }
      }
    }
  }

  lemma OfferedIffReached(s: State)
    requires forall x, y :: 0 <= x < y < |s.active| ==> s.active[x] != s.active[y]
    ensures forall k :: 0 <= k < |s.active| ==> (Offered(s, s.active[k]) <==> Reached(s, k))
  {
  }

  lemma OneNodeAfterVarAdded(s: State, c: Column, n: nat)
    requires n < |s.nodes| && InStep(s, n)
    requires Offered(s, n) ==> n in s.active
    ensures InStep(Step(s, VarAdded(c)), n) <==> !(n in s.active && !Offered(s, n) && Wants(s.nodes[n], c))
  {
    var t, d := Step(s, VarAdded(c)), s.nodes[n];
    assert t.nodes[n] == AfterVarAdded(s, c, n);
    assert t.vars[..|s.vars|] == s.vars && t.vars[..d.nvars] == s.vars[..d.nvars];
    assert |d.coefs + [c]| == |d.coefs| + 1;
  }

  /** In every state of a run, no active generic node is cut off from a variable it wants. */
  ghost predicate WellNested(s: State, events: seq<Event>)
    decreases |events|
  {
    |events| == 0 ||
    (Enabled(s, events[0]) && (events[0].VarAdded? ==> !Missed(s, events[0].c)) &&
     WellNested(Step(s, events[0]), events[1..]))
  }

  function Run(s: State, events: seq<Event>): State
    requires WellNested(s, events)
    decreases |events|
  {
    if |events| == 0 then s else Run(Step(s, events[0]), events[1..])
  }

  /** Any interleaving of creation, activation, deactivation and new variables keeps all constraints in step. */
  lemma {:induction false} RunKeepsSynchronised(s: State, events: seq<Event>)
    requires Synchronised(s) && WellNested(s, events)
    ensures Synchronised(Run(s, events))
    decreases |events|
  {
    if |events| > 0 {
      match events[0] {
        case Create(generic, block, consS) => CreateKeeps(s, generic, block, consS);
        case Activate(n) => ActivateKeeps(s, n);
        case Deactivate => DeactivateKeeps(s);
        case VarAdded(c) => VarAddedKeeps(s, c);
      }
      RunKeepsSynchronised(Step(s, events[0]), events[1..]);
    }
  }

  /** Nothing is ever missed while the generic nodes of the stack reach up to its top without a gap. */
  lemma GapFreeMissesNothing(s: State, c: Column)
    requires Synchronised(s)
    requires forall j, k :: 0 <= j < k < |s.active| && s.nodes[s.active[j]].generic ==> s.nodes[s.active[k]].Passed()
    requires forall k :: 0 <= k < |s.active| && s.nodes[s.active[k]].generic ==> |s.nodes[s.active[k]].consS| > 0
    ensures !Missed(s, c)
  {
  }

  // ---------- trees that only generic branching has built ----------

  /** Node 0 is the root, at the bottom of the stack if it is active; all other nodes are generic, with a sequence. */
  ghost predicate GenericTree(s: State) {
    && |s.nodes| > 0 && !s.nodes[0].generic
    && (forall n :: 0 < n < |s.nodes| ==> s.nodes[n].Passed())
    && (forall k :: 0 < k < |s.active| ==> s.active[k] != 0)
  }

  /** A step of such a tree: the nodes created are generic, and the root is entered first. */
  predicate GenericStep(s: State, e: Event) {
    && Enabled(s, e)
    && match e
       case Create(generic, _, consS) => generic && |consS| > 0
       case Activate(n) => n == 0 ==> s.active == []
       case _ => true
  }

  ghost predicate GenericSteps(s: State, events: seq<Event>)
    decreases |events|
  {
    |events| == 0 || (GenericStep(s, events[0]) && GenericSteps(Step(s, events[0]), events[1..]))
  }

  lemma GenericTreeMissesNothing(s: State, c: Column)
    requires Synchronised(s) && GenericTree(s)
    ensures !Missed(s, c)
  {
    forall k | 0 < k < |s.active| ensures s.nodes[s.active[k]].Passed() {
      assert s.active[k] != 0;
    }
    GapFreeMissesNothing(s, c);
  }

  lemma GenericStepKeeps(s: State, e: Event)
    requires Synchronised(s) && GenericTree(s) && GenericStep(s, e)
    ensures Synchronised(Step(s, e)) && GenericTree(Step(s, e))
  {
    match e {
      case Create(generic, block, consS) => CreateKeeps(s, generic, block, consS);
      case Activate(n) => ActivateKeeps(s, n);
      case Deactivate => DeactivateKeeps(s);
      case VarAdded(c) =>
        GenericTreeMissesNothing(s, c);
        VarAddedKeeps(s, c);
    }
  }

  /**
   * While generic branching is the only rule, every interleaving of creating, entering and leaving nodes and of
   * creating variables keeps all branching constraints in step with the variables.
   */
  lemma {:induction false} GenericRunKeepsSynchronised(s: State, events: seq<Event>)
    requires Synchronised(s) && GenericTree(s) && GenericSteps(s, events)
    ensures WellNested(s, events) && Synchronised(Run(s, events))
    decreases |events|
  {
    if |events| > 0 {
      GenericStepKeeps(s, events[0]);
      if events[0].VarAdded? { GenericTreeMissesNothing(s, events[0].c); }
      GenericRunKeepsSynchronised(Step(s, events[0]), events[1..]);
    }
  }

  /** In particular from the root on. */
  lemma FromTheRoot(block: int, events: seq<Event>)
    requires GenericSteps(State([Node(false, block, [], 0, [])], [], []), events)
    ensures var s := State([Node(false, block, [], 0, [])], [], []);
      WellNested(s, events) && Synchronised(Run(s, events))
  {
    GenericRunKeepsSynchronised(State([Node(false, block, [], 0, [])], [], []), events);
  }

  // ---------- what the constraints measure ----------

  /** The variables with their values in a solution of the master problem. */
  function Valued(vars: seq<Column>, x: nat -> real): (F: seq<Column>)
    ensures |F| == |vars|
  {
    seq(|vars|, k requires 0 <= k < |vars| => vars[k].(value := x(vars[k].id)))
  }

  lemma ValuedOneMore(vars: seq<Column>, c: Column, x: nat -> real)
    ensures Valued(vars + [c], x) == Valued(vars, x) + [c.(value := x(c.id))]
  {
  }

  /** In any solution the admitted variables weigh what the block's own columns that satisfy the sequence weigh. */
  lemma {:induction false} AdmittedMass(block: int, consS: Sequence, vars: seq<Column>, x: nat -> real)
    requires block >= 0
    ensures Mass(Valued(Admitted(block, consS, vars), x), []) == Mass(OwnColumns(Valued(vars, x), block), consS)
  {
    if |vars| > 0 {
      var front, c := vars[..|vars| - 1], vars[|vars| - 1];
      var d, own := c.(value := x(c.id)), OwnColumns(Valued(front, x), block);
      AdmittedMass(block, consS, front, x);
      assert vars == front + [c];
      ValuedOneMore(front, c, x);
      ValuedOneMore(Admitted(block, consS, front), c, x);
      OwnOneMore(Valued(front, x), d, block);
      SatisfactionIgnoresValue(c, consS, x(c.id));
      MassOneMore(own, d, consS);
      MassOneMore(Valued(Admitted(block, consS, front), x), d, []);
      NoMore(own);
      NoMore(Admitted(block, consS, front));
    }
  }

  lemma OwnOneMore(F: seq<Column>, c: Column, block: nat)
    ensures OwnColumns(F + [c], block) == OwnColumns(F, block) + if c.block == block then [c] else []
  {
    assert (F + [c])[..|F|] == F;
  }

  lemma SatisfactionIgnoresValue(c: Column, S: Sequence, v: real)
    ensures SatisfiesAll(c, S) <==> SatisfiesAll(c.(value := v), S)
  {
    forall k | 0 <= k < |S| ensures Satisfies(c, S[k]) <==> Satisfies(c.(value := v), S[k]) {
    }
  }

  /**
   * In step, the constraint of an active generic node bounds, in any solution, what branching on that node is about:
   * the columns of its block that satisfy its sequence.
   */
  lemma ConstraintMeasures(s: State, n: nat, x: nat -> real, lhs: real)
    requires Synchronised(s) && n in s.active && s.nodes[n].generic && s.nodes[n].block >= 0
    ensures var d := s.nodes[n];
      && Mass(Valued(d.coefs, x), []) == Mass(OwnColumns(Valued(s.vars, x), d.block), d.consS)
      && (Mass(Valued(d.coefs, x), []) >= lhs <==>
            BranchTree.Accepts(Valued(s.vars, x), BranchTree.Generic(d.block, d.consS, lhs)))
  {
    assert InStep(s, n);
    AdmittedMass(s.nodes[n].block, s.nodes[n].consS, s.vars, x);
  }

  /** So it is in every state that a run from the root reaches while generic branching is the only rule. */
  lemma RunMeasures(block: int, events: seq<Event>, n: nat, x: nat -> real, lhs: real)
    requires GenericSteps(State([Node(false, block, [], 0, [])], [], []), events)
    ensures var s := State([Node(false, block, [], 0, [])], [], []);
      && WellNested(s, events)
      && var t := Run(s, events);
         n in t.active && n < |t.nodes| && t.nodes[n].generic && t.nodes[n].block >= 0 ==>
           (Mass(Valued(t.nodes[n].coefs, x), []) >= lhs <==>
              BranchTree.Accepts(Valued(t.vars, x), BranchTree.Generic(t.nodes[n].block, t.nodes[n].consS, lhs)))
  {
    FromTheRoot(block, events);
    var t := Run(State([Node(false, block, [], 0, [])], [], []), events);
    if n in t.active && n < |t.nodes| && t.nodes[n].generic && t.nodes[n].block >= 0 {
      ConstraintMeasures(t, n, x, lhs);
    }
  }

  // ---------- a variable that is missed stays missed ----------

  ghost predicate Feasible(s: State, events: seq<Event>)
    decreases |events|
  {
    |events| == 0 || (Enabled(s, events[0]) && Feasible(Step(s, events[0]), events[1..]))
  }

  function Later(s: State, events: seq<Event>): State
    requires Feasible(s, events)
    decreases |events|
  {
    if |events| == 0 then s else Later(Step(s, events[0]), events[1..])
  }

  /** Node n lacks c, and will not be offered it again: c was created while n was active or before n was left. */
  ghost predicate Hidden(s: State, n: nat, c: Column, pos: nat) {
    && n < |s.nodes| && s.nodes[n].generic && c !in s.nodes[n].coefs
    && pos < |s.vars| && (forall i :: pos < i < |s.vars| ==> s.vars[i] != c)
    && (n in s.active || s.nodes[n].nvars > pos)
  }

  lemma {:induction false} AdmittedMembers(block: int, consS: Sequence, vars: seq<Column>, c: Column)
    requires c !in vars
    ensures c !in Admitted(block, consS, vars)
  {
    if |vars| > 0 { AdmittedMembers(block, consS, vars[..|vars| - 1], c); }
  }

  lemma StepKeepsHidden(s: State, e: Event, n: nat, c: Column, pos: nat)
    requires Hidden(s, n, c, pos) && Enabled(s, e) && e != VarAdded(c)
    ensures Hidden(Step(s, e), n, c, pos)
  {
    var t := Step(s, e);
    match e {
      case Create(_, _, _) =>
      case Activate(m) =>
        if m == n && s.nodes[n].nvars < |s.vars| {
          AdmittedMembers(s.nodes[n].block, s.nodes[n].consS, s.vars[s.nodes[n].nvars..], c);
        }
        assert t.active[|s.active|] == m;
        assert n in s.active ==> n in t.active;
      case Deactivate =>
        assert s.active == t.active + [s.active[|s.active| - 1]];
      case VarAdded(d) =>
        assert t.nodes[n] == AfterVarAdded(s, d, n);
    }
  }

  lemma {:induction false} HiddenForGood(s: State, events: seq<Event>, n: nat, c: Column, pos: nat)
    requires Hidden(s, n, c, pos) && Feasible(s, events) && VarAdded(c) !in events
    ensures n < |Later(s, events).nodes| && c !in Later(s, events).nodes[n].coefs
    decreases |events|
  {
    if |events| > 0 {
      StepKeepsHidden(s, events[0], n, c, pos);
      HiddenForGood(Step(s, events[0]), events[1..], n, c, pos);
    }
  }

  /** A node that misses a new variable never gets it, whatever happens later, unless the variable is created again. */
  lemma MissedForGood(s: State, c: Column, k: nat, events: seq<Event>)
    requires Synchronised(s) && c !in s.vars
    requires k < |s.active| && !Reached(s, k) && Wants(s.nodes[s.active[k]], c)
    requires Feasible(Step(s, VarAdded(c)), events) && VarAdded(c) !in events
    ensures var t := Later(Step(s, VarAdded(c)), events);
      s.active[k] < |t.nodes| && c !in t.nodes[s.active[k]].coefs
  {
    var n, t := s.active[k], Step(s, VarAdded(c));
    assert InStep(s, n);
    AdmittedMembers(s.nodes[n].block, s.nodes[n].consS, s.vars, c);
    OfferedIffReached(s);
    assert t.nodes[n] == AfterVarAdded(s, c, n);
    HiddenForGood(t, events, n, c, |s.vars|);
  }

  /** A node of another branching rule below a generic one, which is a child of the root. */
  function ForeignOnTop(): State {
    var root := State([Node(false, -2, [], 0, [])], [0], []);
    Step(Step(Step(Step(root, Create(true, 0, [Bound(0, GE, 0)])), Activate(1)), Create(false, 0, [])), Activate(2))
  }

  lemma ForeignState()
    ensures Synchronised(ForeignOnTop()) && ForeignOnTop().vars == [] && ForeignOnTop().active == [0, 1, 2]
    ensures |ForeignOnTop().nodes| == 3 && !ForeignOnTop().nodes[2].Passed()
    ensures ForeignOnTop().nodes[1] == Node(true, 0, [Bound(0, GE, 0)], 0, [])
  {
    var s0 := State([Node(false, -2, [], 0, [])], [0], []);
    var s1 := Step(s0, Create(true, 0, [Bound(0, GE, 0)]));
    var s2 := Step(s1, Activate(1));
    var s3 := Step(s2, Create(false, 0, []));
    CreateKeeps(s0, true, 0, [Bound(0, GE, 0)]);
    ActivateKeeps(s1, 1);
    CreateKeeps(s2, false, 0, []);
    ActivateKeeps(s3, 2);
  }

  /** It hides a variable from the generic node below it, for good. */
  lemma ForeignNodeHides(events: seq<Event>)
    requires Feasible(Step(ForeignOnTop(), VarAdded(Column(0, 0, {}, [], 1.0))), events)
    requires VarAdded(Column(0, 0, {}, [], 1.0)) !in events
    ensures var c := Column(0, 0, {}, [], 1.0);
      var t := Later(Step(ForeignOnTop(), VarAdded(c)), events);
      |t.nodes| > 1 && Admits(0, [Bound(0, GE, 0)], c) && c !in t.nodes[1].coefs
  {
    var c := Column(0, 0, {}, [], 1.0);
    ForeignState();
    var s := ForeignOnTop();
    assert s.active[2] == 2 && !s.nodes[s.active[2]].Passed();
    assert !Reached(s, 1) && s.active[1] == 1;
    assert GeneratorEntry(c, 0) == 0;
    MissedForGood(ForeignOnTop(), c, 1, events);
  }
}
