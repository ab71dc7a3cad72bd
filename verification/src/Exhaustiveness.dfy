/** When the children of a sequence S take every integer solution, and when one of them slips through. */
module Exhaustiveness {
  import opened Numbers
  import opened Columns
  import opened Separation
  import opened Children

  // ---------- integer masses below real left-hand sides ----------

  function Sum(m: seq<int>): int {
    if |m| == 0 then 0 else Sum(m[..|m| - 1]) + m[|m| - 1]
  }

  function SumReal(x: seq<real>): real {
    if |x| == 0 then 0.0 else SumReal(x[..|x| - 1]) + x[|x| - 1]
  }

  /** The greatest integers below the given left-hand sides. */
  function Rooms(lhs: seq<real>): (m: seq<int>)
    ensures |m| == |lhs| && forall p :: 0 <= p < |m| ==> m[p] == Ceil(lhs[p]) - 1
  {
    seq(|lhs|, p requires 0 <= p < |lhs| => Ceil(lhs[p]) - 1)
  }

  /** The left-hand sides of the first n children. */
  function Lhss(B: seq<Column>, K: int, S: Sequence, n: nat): (lhs: seq<real>)
    requires n <= |S| + 1
    ensures |lhs| == n && forall p :: 0 <= p < n ==> lhs[p] == ChildLhs(B, K, S, p)
  {
    seq(n, p requires 0 <= p < n => ChildLhs(B, K, S, p))
  }

  lemma {:induction false} LhssTotal(B: seq<Column>, K: int, S: Sequence, n: nat)
    requires n <= |S| + 1
    ensures SumReal(Lhss(B, K, S, n)) == LhsSum(B, K, S, n)
  {
    if n > 0 {
      assert Lhss(B, K, S, n)[..n - 1] == Lhss(B, K, S, n - 1);
      LhssTotal(B, K, S, n - 1);
    }
  }

  lemma RoomBounds(x: real)
    ensures (Ceil(x) - 1) as real < x <= Ceil(x) as real
    ensures IsInt(x) <==> Ceil(x) as real == x
  {
    IntIsInt(Ceil(x));
  }

  /** Integral left-hand sides mean integral levels, and the other way round. */
  lemma {:induction false} LhsLevels(B: seq<Column>, K: int, S: Sequence, q: nat)
    requires q <= |S| && forall p :: 0 <= p < q ==> IsInt(ChildLhs(B, K, S, p))
    ensures IsInt(Level(B, K, S, q))
  {
    IntIsInt(K);
    if q > 0 {
      LhsLevels(B, K, S, q - 1);
      LevelFromLhs(Level(B, K, S, q - 1), ChildLhs(B, K, S, q - 1), Level(B, K, S, q));
    }
  }

  lemma LevelFromLhs(before: real, lhs: real, after: real)
    requires IsInt(before) && IsInt(lhs) && lhs == before - after + 1.0
    ensures IsInt(after)
  {
    IntIsInt(1);
    IntClosed(before, lhs);
    IntClosed(before - lhs, 1.0);
    assert after == before - lhs + 1.0;
  }

  lemma LhsIntegralIff(B: seq<Column>, K: int, S: Sequence)
    ensures PrefixMassesIntegral(B, S) <==> forall p :: 0 <= p <= |S| ==> IsInt(ChildLhs(B, K, S, p))
  {
    if PrefixMassesIntegral(B, S) {
      forall p | 0 <= p <= |S| ensures IsInt(ChildLhs(B, K, S, p)) { LevelIntegral(B, K, S, p); }
    }
    if forall p :: 0 <= p <= |S| ==> IsInt(ChildLhs(B, K, S, p)) {
      forall q | 0 < q < |S| ensures IsInt(Mass(B, S[..q])) { LhsLevels(B, K, S, q); }
    }
  }

  /** One more child, in numbers: its room falls short of its left-hand side by at most one. */
  lemma OneMoreRoom(sum: int, room: int, lhs: real, total: real, n: nat)
    requires room == Ceil(lhs) - 1
    ensures sum as real >= total - n as real ==> (sum + room) as real >= total + lhs - (n + 1) as real
    ensures sum as real > total - n as real ==> (sum + room) as real > total + lhs - (n + 1) as real
    ensures sum as real >= total - n as real && !IsInt(lhs) ==> (sum + room) as real > total + lhs - (n + 1) as real
    ensures sum as real == total - n as real && IsInt(lhs) ==> (sum + room) as real == total + lhs - (n + 1) as real
  {
    RoomBounds(lhs);
    assert (sum + room) as real == sum as real + room as real;
    assert room as real == Ceil(lhs) as real - 1.0;
  }

  lemma RoomsFront(lhs: seq<real>)
    requires |lhs| > 0
    ensures Rooms(lhs)[..|lhs| - 1] == Rooms(lhs[..|lhs| - 1])
  {
  }

  /** The rooms fall short of the left-hand sides by at most one each, */
  lemma {:induction false} RoomsAtLeast(lhs: seq<real>)
    ensures Sum(Rooms(lhs)) as real >= SumReal(lhs) - |lhs| as real
  {
    if |lhs| > 0 {
      var n := |lhs| - 1;
      RoomsFront(lhs);
      RoomsAtLeast(lhs[..n]);
      OneMoreRoom(Sum(Rooms(lhs[..n])), Rooms(lhs)[n], lhs[n], SumReal(lhs[..n]), n);
    }
  }

  /** by less if one of them is fractional, */
  lemma {:induction false} RoomsMore(lhs: seq<real>, p: nat)
    requires p < |lhs| && !IsInt(lhs[p])
    ensures Sum(Rooms(lhs)) as real > SumReal(lhs) - |lhs| as real
  {
    var n := |lhs| - 1;
    RoomsFront(lhs);
    if p == n { RoomsAtLeast(lhs[..n]); } else { RoomsMore(lhs[..n], p); }
    OneMoreRoom(Sum(Rooms(lhs[..n])), Rooms(lhs)[n], lhs[n], SumReal(lhs[..n]), n);
  }

  /** and by exactly one each if all of them are integral. */
  lemma {:induction false} RoomsExact(lhs: seq<real>)
    requires forall p :: 0 <= p < |lhs| ==> IsInt(lhs[p])
    ensures Sum(Rooms(lhs)) as real == SumReal(lhs) - |lhs| as real
  {
    if |lhs| > 0 {
      var n := |lhs| - 1;
      RoomsFront(lhs);
      RoomsExact(lhs[..n]);
      OneMoreRoom(Sum(Rooms(lhs[..n])), Rooms(lhs)[n], lhs[n], SumReal(lhs[..n]), n);
    }
  }

  /** Below every bound, above zero, and with the given sum. */
  lemma {:induction false} Fill(rooms: seq<int>, total: int) returns (m: seq<int>)
    requires 0 <= total <= Sum(rooms) && forall p :: 0 <= p < |rooms| ==> rooms[p] >= 0
    ensures |m| == |rooms| && Sum(m) == total && forall p :: 0 <= p < |m| ==> 0 <= m[p] <= rooms[p]
  {
    if |rooms| == 0 {
      m := [];
    } else {
      var n := |rooms| - 1;
      var last := if total <= rooms[n] then total else rooms[n];
      RoomsNonnegative(rooms[..n]);
      var front := Fill(rooms[..n], total - last);
      m := front + [last];
      assert m[..n] == front;
    }
  }

  lemma {:induction false} RoomsNonnegative(rooms: seq<int>)
    requires forall p :: 0 <= p < |rooms| ==> rooms[p] >= 0
    ensures Sum(rooms) >= 0
  {
    if |rooms| > 0 { RoomsNonnegative(rooms[..|rooms| - 1]); }
  }

  lemma {:induction false} SumMonotone(m: seq<int>, rooms: seq<int>)
    requires |m| == |rooms| && forall p :: 0 <= p < |m| ==> m[p] <= rooms[p]
    ensures Sum(m) <= Sum(rooms)
  {
    if |m| > 0 { SumMonotone(m[..|m| - 1], rooms[..|m| - 1]); }
  }

  /** A distribution of K columns over the children that none of them accepts. */
  ghost predicate Rejected(B: seq<Column>, K: int, S: Sequence, m: seq<int>) {
    && |m| == |S| + 1 && Sum(m) == K
    && forall p :: 0 <= p <= |S| ==> 0 <= m[p] && (m[p] as real) < ChildLhs(B, K, S, p)
  }

  predicate AllLhsPositive(B: seq<Column>, K: int, S: Sequence) {
    forall p :: 0 <= p <= |S| ==> ChildLhs(B, K, S, p) > 0.0
  }

  /**
   * The exact condition: some distribution of K columns is rejected by all children exactly if a prefix mass is
   * fractional and every left-hand side is positive.
   */
  lemma ExhaustiveIff(B: seq<Column>, K: int, S: Sequence)
    requires |S| > 0 && K >= 0
    ensures (exists m :: Rejected(B, K, S, m)) <==> !PrefixMassesIntegral(B, S) && AllLhsPositive(B, K, S)
  {
    if !PrefixMassesIntegral(B, S) && AllLhsPositive(B, K, S) {
      var m := RejectedDistribution(B, K, S);
    }
    if m :| Rejected(B, K, S, m) {
      if PrefixMassesIntegral(B, S) { NoneRejected(B, K, S, m); }
      assert forall p :: 0 <= p <= |S| ==> m[p] >= 0;
    }
  }

  lemma RejectedDistribution(B: seq<Column>, K: int, S: Sequence) returns (m: seq<int>)
    requires |S| > 0 && K >= 0 && !PrefixMassesIntegral(B, S) && AllLhsPositive(B, K, S)
    ensures Rejected(B, K, S, m)
  {
    var n := |S| + 1;
    var lhs := Lhss(B, K, S, n);
    LhsIntegralIff(B, K, S);
    var q :| 0 <= q <= |S| && !IsInt(ChildLhs(B, K, S, q));
    RoomsMore(lhs, q);
    LhssTotal(B, K, S, n);
    LhsTotal(B, K, S);
    forall p | 0 <= p < n ensures Rooms(lhs)[p] >= 0 && (Rooms(lhs)[p] as real) < lhs[p] {
      RoomBounds(lhs[p]);
    }
    m := Fill(Rooms(lhs), K);
  }

  lemma NoneRejected(B: seq<Column>, K: int, S: Sequence, m: seq<int>)
    requires |S| > 0 && PrefixMassesIntegral(B, S)
    ensures !Rejected(B, K, S, m)
  {
    if Rejected(B, K, S, m) {
      var n := |S| + 1;
      var lhs := Lhss(B, K, S, n);
      LhsIntegralIff(B, K, S);
      RoomsExact(lhs);
      LhssTotal(B, K, S, n);
      LhsTotal(B, K, S);
      forall p | 0 <= p < n ensures m[p] <= Rooms(lhs)[p] { RoomBounds(lhs[p]); }
      SumMonotone(m, Rooms(lhs));
    }
  }

  // ---------- distributions as columns ----------

  /** The given columns, with the given values. */
  function Weighted(columns: seq<Column>, m: seq<int>): (Y: seq<Column>)
    requires |columns| == |m|
    ensures |Y| == |m|
  {
    if |m| == 0 then []
    else Weighted(columns[..|m| - 1], m[..|m| - 1]) + [columns[|m| - 1].(value := m[|m| - 1] as real)]
  }

  /** One column for each child: column p is in the part of child p. */
  ghost predicate OneForEach(columns: seq<Column>, S: Sequence) {
    forall p :: 0 <= p < |columns| ==> FirstViolated(columns[p], S) == p
  }

  lemma {:induction false} ValueIrrelevant(c: Column, v: real, S: Sequence)
    ensures FirstViolated(c.(value := v), S) == FirstViolated(c, S)
  {
    if |S| > 0 { ValueIrrelevant(c, v, S[..|S| - 1]); }
  }

  lemma {:induction false} WeightedTotal(columns: seq<Column>, m: seq<int>)
    requires |columns| == |m|
    ensures Integral(Weighted(columns, m)) && Mass(Weighted(columns, m), []) == Sum(m) as real
  {
    if |m| > 0 {
      var n := |m| - 1;
      WeightedTotal(columns[..n], m[..n]);
      IntIsInt(m[n]);
      MassOneMore(Weighted(columns[..n], m[..n]), columns[n].(value := m[n] as real), []);
    }
  }

  lemma {:induction false} WeightedMass(columns: seq<Column>, m: seq<int>, S: Sequence, p: nat)
    requires |columns| == |m| <= |S| + 1 && OneForEach(columns, S) && p <= |S|
    ensures Mass(Weighted(columns, m), ChildSequence(S, p)) == if p < |m| then m[p] as real else 0.0
  {
    if |m| > 0 {
      var n := |m| - 1;
      OneForEachFront(columns, S);
      WeightedMass(columns[..n], m[..n], S, p);
      WeightedStep(columns, m, S, p, Weighted(columns[..n], m[..n]));
    }
  }

  lemma OneForEachFront(columns: seq<Column>, S: Sequence)
    requires OneForEach(columns, S) && |columns| > 0
    ensures OneForEach(columns[..|columns| - 1], S) && FirstViolated(columns[|columns| - 1], S) == |columns| - 1
  {
  }

  lemma WeightedStep(columns: seq<Column>, m: seq<int>, S: Sequence, p: nat, Y: seq<Column>)
    requires 0 < |columns| == |m| && p <= |S| && Y == Weighted(columns[..|m| - 1], m[..|m| - 1])
    ensures Mass(Weighted(columns, m), ChildSequence(S, p)) == Mass(Y, ChildSequence(S, p)) +
            if FirstViolated(columns[|m| - 1], S) == p then m[|m| - 1] as real else 0.0
  {
    OneMoreColumn(Y, columns[|m| - 1], m[|m| - 1] as real, S, p);
  }

  lemma OneMoreColumn(Y: seq<Column>, c: Column, v: real, S: Sequence, p: nat)
    requires p <= |S|
    ensures Mass(Y + [c.(value := v)], ChildSequence(S, p)) ==
            Mass(Y, ChildSequence(S, p)) + if FirstViolated(c, S) == p then v else 0.0
  {
    ValueIrrelevant(c, v, S);
    ChildrenPartitionColumns(c.(value := v), S, p);
    MassOneMore(Y, c.(value := v), ChildSequence(S, p));
  }

  /** A rejected distribution, with a column for each child, is an integer solution that all children reject. */
  lemma RejectedSolution(B: seq<Column>, K: int, S: Sequence, columns: seq<Column>, m: seq<int>)
    requires Rejected(B, K, S, m) && |columns| == |m| && OneForEach(columns, S)
    ensures Integral(Weighted(columns, m)) && Mass(Weighted(columns, m), []) == K as real
    ensures forall p :: 0 <= p <= |S| ==> Mass(Weighted(columns, m), ChildSequence(S, p)) < ChildLhs(B, K, S, p)
  {
    WeightedTotal(columns, m);
    forall p | 0 <= p <= |S| ensures Mass(Weighted(columns, m), ChildSequence(S, p)) < ChildLhs(B, K, S, p) {
      WeightedMass(columns, m, S, p);
    }
  }
}
