/** Choosing the block to branch in, in both modes: from the LP candidates, or from the original solution. */
module BlockSelection {
  import opened Numbers
  import opened Columns

  /**
   * No block found (block number -2), a master variable to branch on directly (-1), a block, or a block number outside
   * the table of representatives.
   */
  datatype Selection = NoBlock | DirectCopy(col: Column) | InBlockNr(nr: nat) | OutOfRange

  /** An original variable: whether its type is binary or integer, its block (-1 none, -2 several), its value. */
  datatype OrigVar = OrigVar(integer: bool, block: int, value: real)

  // ---------- from the LP candidates ----------

  /** First block at or after j that has not been checked and contains c; nblocks when there is none. */
  function FirstUnchecked(c: Column, checked: seq<nat>, nblocks: nat, j: nat): (k: nat)
    decreases nblocks - j
  {
    if j >= nblocks then nblocks
    else if j !in checked && InBlock(c, j) then j
    else FirstUnchecked(c, checked, nblocks, j + 1)
  }

  /** A direct copy ends the loop; otherwise the last candidate that lies in an unchecked block decides. */
  function FromCandidates(cands: seq<Column>, checked: seq<nat>, nblocks: nat): Selection {
    if |cands| == 0 then NoBlock
    else
      var before, c := FromCandidates(cands[..|cands| - 1], checked, nblocks), cands[|cands| - 1];
      if before.DirectCopy? then before
      else if c.block == -1 then DirectCopy(c)
      else
        var j := FirstUnchecked(c, checked, nblocks, 0);
        if j < nblocks then InBlockNr(j) else before
  }

  method FindUnchecked(c: Column, checked: seq<nat>, nblocks: nat) returns (j: nat)
    ensures j == FirstUnchecked(c, checked, nblocks, 0)
  {
    j := 0;
    while j < nblocks
      invariant j <= nblocks && FirstUnchecked(c, checked, nblocks, j) == FirstUnchecked(c, checked, nblocks, 0)
    {
      var isChecked := IsChecked(checked, j);
      if !isChecked && InBlock(c, j) { return; }
      j := j + 1;
    }
  }

  method IsChecked(checked: seq<nat>, block: nat) returns (found: bool)
    ensures found == (block in checked)
  {
    for k := 0 to |checked|
      invariant block !in checked[..k]
    {
      if checked[k] == block { return true; }
      assert checked[..k + 1] == checked[..k] + [checked[k]];
    }
    assert checked[..|checked|] == checked;
    found := false;
  }

  /** The loop over the candidates. The block found for a candidate does not end it. */
  method SelectFromCandidates(cands: seq<Column>, checked: seq<nat>, nblocks: nat) returns (s: Selection)
    ensures s == FromCandidates(cands, checked, nblocks)
  {
    s := NoBlock;
    for i := 0 to |cands|
      invariant s == FromCandidates(cands[..i], checked, nblocks) && !s.DirectCopy?
    {
      assert cands[..i + 1][..i] == cands[..i];
      if cands[i].block == -1 {
        s := DirectCopy(cands[i]);
        CopyStays(cands, checked, nblocks, i + 1);
        return;
      }
      var j := FindUnchecked(cands[i], checked, nblocks);
      if j < nblocks { s := InBlockNr(j); }
    }
    assert cands[..|cands|] == cands;
  }

  /** Once a direct copy has been met, the remaining candidates do not matter. */
  lemma {:induction false} CopyStays(cands: seq<Column>, checked: seq<nat>, nblocks: nat, i: nat)
    requires i <= |cands| && FromCandidates(cands[..i], checked, nblocks).DirectCopy?
    ensures FromCandidates(cands, checked, nblocks) == FromCandidates(cands[..i], checked, nblocks)
  {
    if i < |cands| {
      assert cands[..|cands| - 1][..i] == cands[..i];
      CopyStays(cands[..|cands| - 1], checked, nblocks, i);
    } else {
      assert cands[..i] == cands;
    }
  }

  lemma {:induction false} FirstUncheckedFinds(c: Column, checked: seq<nat>, nblocks: nat, j: nat)
    requires j <= nblocks
    ensures var k := FirstUnchecked(c, checked, nblocks, j);
      && j <= k <= nblocks && (k < nblocks ==> k !in checked && InBlock(c, k))
      && forall b :: j <= b < k ==> b in checked || !InBlock(c, b)
    decreases nblocks - j
  {
    if j < nblocks && (j in checked || !InBlock(c, j)) { FirstUncheckedFinds(c, checked, nblocks, j + 1); }
  }

  /** The candidate is a direct copy, or lies in an unchecked block. */
  ghost predicate Matters(c: Column, checked: seq<nat>, nblocks: nat) {
    c.block == -1 || exists b: nat :: b < nblocks && b !in checked && InBlock(c, b)
  }

  /**
   * What the loop selects: a copy exactly if some candidate is one, nothing exactly if no candidate matters, and
   * otherwise an unchecked block of some candidate. A block is selected only if no candidate is a copy.
   */
  lemma {:induction false} SelectedFromCandidates(cands: seq<Column>, checked: seq<nat>, nblocks: nat)
    ensures var s := FromCandidates(cands, checked, nblocks);
      && (s.DirectCopy? <==> exists c :: c in cands && c.block == -1)
      && (s.DirectCopy? ==> s.col in cands && s.col.block == -1)
      && (s.NoBlock? <==> forall c :: c in cands ==> !Matters(c, checked, nblocks))
      && (s.InBlockNr? ==> s.nr < nblocks && s.nr !in checked && exists c :: c in cands && InBlock(c, s.nr))
      && !s.OutOfRange?
  {
    if |cands| > 0 {
      var front, c := cands[..|cands| - 1], cands[|cands| - 1];
      SelectedFromCandidates(front, checked, nblocks);
      assert cands == front + [c];
      FirstUncheckedFinds(c, checked, nblocks, 0);
      CandidateMatters(c, checked, nblocks);
      assert c in cands && forall d :: d in cands <==> d in front || d == c;
    }
  }

  /** Block b is the first unchecked one in which c lies. */
  ghost predicate FirstUncheckedOf(c: Column, checked: seq<nat>, nblocks: nat, b: nat) {
    && b < nblocks && b !in checked && InBlock(c, b)
    && forall d: nat :: d < b && InBlock(c, d) ==> d in checked
  }

  /** The selected block is the first unchecked one of the last candidate that lies in any unchecked block. */
  lemma {:induction false} LastCandidateDecides(cands: seq<Column>, checked: seq<nat>, nblocks: nat) returns (i: nat)
    requires FromCandidates(cands, checked, nblocks).InBlockNr?
    ensures i < |cands| && FirstUncheckedOf(cands[i], checked, nblocks, FromCandidates(cands, checked, nblocks).nr)
    ensures forall j, d: nat :: i < j < |cands| && d < nblocks && InBlock(cands[j], d) ==> d in checked
  {
    var front, c := cands[..|cands| - 1], cands[|cands| - 1];
    FirstUncheckedFinds(c, checked, nblocks, 0);
    if FirstUnchecked(c, checked, nblocks, 0) < nblocks {
      i := |cands| - 1;
    } else {
      i := LastCandidateDecides(front, checked, nblocks);
      forall j, d: nat | i < j < |cands| && d < nblocks && InBlock(cands[j], d) ensures d in checked {
        if j < |front| { assert front[j] == cands[j]; }
      }
    }
  }

  ghost predicate FirstCopyAt(cands: seq<Column>, i: nat) {
    i < |cands| && cands[i].block == -1 && forall j :: 0 <= j < i ==> cands[j].block != -1
  }

  /** The copy that is selected is the first one. */
  lemma FirstCopySelected(cands: seq<Column>, checked: seq<nat>, nblocks: nat, i: nat)
    requires FirstCopyAt(cands, i)
    ensures FromCandidates(cands, checked, nblocks) == DirectCopy(cands[i])
  {
    assert cands[..i + 1][..i] == cands[..i];
    assert forall c :: c in cands[..i] ==> c.block != -1;
    SelectedFromCandidates(cands[..i], checked, nblocks);
    CopyStays(cands, checked, nblocks, i + 1);
  }

  lemma {:induction false} SomeFirstCopy(cands: seq<Column>, c: Column)
    requires c in cands && c.block == -1
    ensures exists i: nat :: FirstCopyAt(cands, i)
  {
    var front := cands[..|cands| - 1];
    if d :| d in front && d.block == -1 {
      SomeFirstCopy(front, d);
      var i: nat :| FirstCopyAt(front, i);
      assert FirstCopyAt(cands, i);
    } else {
      assert cands == front + [cands[|cands| - 1]];
      assert forall j :: 0 <= j < |front| ==> front[j] in front;
      assert FirstCopyAt(cands, |cands| - 1);
    }
  }

  lemma CandidateMatters(c: Column, checked: seq<nat>, nblocks: nat)
    ensures Matters(c, checked, nblocks) <==> c.block == -1 || FirstUnchecked(c, checked, nblocks, 0) < nblocks
  {
    FirstUncheckedFinds(c, checked, nblocks, 0);
  }

  // ---------- from the original solution ----------

  predicate IsFractionalInteger(v: OrigVar) {
    v.integer && !IsInt(v.value)
  }

  /** The representative of the first fractional integer variable whose block is unchecked, or else of the last one. */
  function FromOriginals(vars: seq<OrigVar>, representative: seq<nat>, checked: seq<nat>, last: Selection): Selection {
    if |vars| == 0 then last
    else if !IsFractionalInteger(vars[0]) then FromOriginals(vars[1..], representative, checked, last)
    else if !(0 <= vars[0].block < |representative|) then OutOfRange
    else
      var b := representative[vars[0].block];
      if b in checked then FromOriginals(vars[1..], representative, checked, InBlockNr(b)) else InBlockNr(b)
  }

  method SelectFromOriginals(vars: seq<OrigVar>, representative: seq<nat>, checked: seq<nat>) returns (s: Selection)
    ensures s == FromOriginals(vars, representative, checked, NoBlock)
  {
    s := NoBlock;
    for i := 0 to |vars|
      invariant FromOriginals(vars[i..], representative, checked, s) ==
        FromOriginals(vars, representative, checked, NoBlock)
    {
      assert vars[i..][1..] == vars[i + 1..];
      if !vars[i].integer { continue; }
      if IsInt(vars[i].value) { continue; }
      if !(0 <= vars[i].block < |representative|) { return OutOfRange; }
      s := InBlockNr(representative[vars[i].block]);
      var isChecked := IsChecked(checked, s.nr);
      if !isChecked { return; }
    }
  }

  /** The variable is fractional, and its block's representative is b. */
  predicate PointsTo(v: OrigVar, representative: seq<nat>, b: nat) {
    IsFractionalInteger(v) && 0 <= v.block < |representative| && representative[v.block] == b
  }

  lemma {:induction false} SelectedFromOriginals(vars: seq<OrigVar>, representative: seq<nat>, checked: seq<nat>,
                                                 last: Selection)
    ensures var s := FromOriginals(vars, representative, checked, last);
      && (s == last || s.OutOfRange? || (s.InBlockNr? && exists v :: v in vars && PointsTo(v, representative, s.nr)))
      && (s.InBlockNr? && s.nr in checked ==>
            forall v :: v in vars && IsFractionalInteger(v) ==>
              0 <= v.block < |representative| && representative[v.block] in checked)
      && (s.NoBlock? ==> last.NoBlock? && forall v :: v in vars ==> !IsFractionalInteger(v))
  {
    if |vars| > 0 {
      var v, rest := vars[0], vars[1..];
      assert vars == [v] + rest;
      if !IsFractionalInteger(v) {
        SelectedFromOriginals(rest, representative, checked, last);
      } else if 0 <= v.block < |representative| {
        assert v in vars && PointsTo(v, representative, representative[v.block]);
        if representative[v.block] in checked {
          SelectedFromOriginals(rest, representative, checked, InBlockNr(representative[v.block]));
        }
      }
    }
  }

  /** Position i holds a fractional integer variable of the table whose block is not checked, the first such one. */
  ghost predicate FirstOpenAt(vars: seq<OrigVar>, representative: seq<nat>, checked: seq<nat>, i: nat) {
    && i < |vars| && IsFractionalInteger(vars[i]) && 0 <= vars[i].block < |representative|
    && representative[vars[i].block] !in checked
    && forall j :: 0 <= j < i && IsFractionalInteger(vars[j]) ==>
         0 <= vars[j].block < |representative| && representative[vars[j].block] in checked
  }

  /** An unchecked block is selected exactly if it is that of the first fractional variable of an unchecked block. */
  lemma {:induction false} FirstOpenDecides(vars: seq<OrigVar>, representative: seq<nat>, checked: seq<nat>,
                                            last: Selection, b: nat)
    requires last.InBlockNr? ==> last.nr in checked
    requires b !in checked
    ensures FromOriginals(vars, representative, checked, last) == InBlockNr(b) <==>
            exists i: nat :: FirstOpenAt(vars, representative, checked, i) && representative[vars[i].block] == b
  {
    if |vars| > 0 {
      var v, rest := vars[0], vars[1..];
      if !IsFractionalInteger(v) {
        FirstOpenDecides(rest, representative, checked, last, b);
        OpensLater(vars, representative, checked, b);
      } else if 0 <= v.block < |representative| && representative[v.block] in checked {
        FirstOpenDecides(rest, representative, checked, InBlockNr(representative[v.block]), b);
        OpensLater(vars, representative, checked, b);
      } else {
        if 0 <= v.block < |representative| { assert FirstOpenAt(vars, representative, checked, 0); }
        forall i: nat | FirstOpenAt(vars, representative, checked, i) ensures i == 0 {
        }
      }
    }
  }

  lemma OpensLater(vars: seq<OrigVar>, representative: seq<nat>, checked: seq<nat>, b: nat)
    requires |vars| > 0
    requires IsFractionalInteger(vars[0]) ==>
      0 <= vars[0].block < |representative| && representative[vars[0].block] in checked
    ensures (exists i: nat :: FirstOpenAt(vars, representative, checked, i) && representative[vars[i].block] == b) <==>
            exists i: nat :: FirstOpenAt(vars[1..], representative, checked, i) &&
                             representative[vars[1..][i].block] == b
  {
    if i: nat :| FirstOpenAt(vars, representative, checked, i) && representative[vars[i].block] == b {
      assert i > 0 && FirstOpenAt(vars[1..], representative, checked, i - 1);
    }
    if i: nat :| FirstOpenAt(vars[1..], representative, checked, i) && representative[vars[1..][i].block] == b {
      forall j | 0 <= j < i + 1 && IsFractionalInteger(vars[j])
        ensures 0 <= vars[j].block < |representative| && representative[vars[j].block] in checked
      {
        if j > 0 { assert vars[j] == vars[1..][j - 1]; }
      }
      assert FirstOpenAt(vars, representative, checked, i + 1);
    }
  }

  /** Position i holds a fractional integer variable outside the table; the blocks of those before it were checked. */
  ghost predicate LeavesAt(vars: seq<OrigVar>, representative: seq<nat>, checked: seq<nat>, i: nat) {
    && i < |vars| && IsFractionalInteger(vars[i]) && !(0 <= vars[i].block < |representative|)
    && forall j :: 0 <= j < i && IsFractionalInteger(vars[j]) ==>
         0 <= vars[j].block < |representative| && representative[vars[j].block] in checked
  }

  /** The table is left exactly if the first variable that matters is not in a block of it. */
  lemma {:induction false} LeavesTable(vars: seq<OrigVar>, representative: seq<nat>, checked: seq<nat>, last: Selection)
    requires !last.OutOfRange?
    ensures FromOriginals(vars, representative, checked, last).OutOfRange? <==>
            exists i: nat :: LeavesAt(vars, representative, checked, i)
  {
    if |vars| > 0 {
      var v, rest := vars[0], vars[1..];
      if !IsFractionalInteger(v) {
        LeavesTable(rest, representative, checked, last);
        LeavesLater(vars, representative, checked);
      } else if 0 <= v.block < |representative| {
        if representative[v.block] in checked {
          LeavesTable(rest, representative, checked, InBlockNr(representative[v.block]));
          LeavesLater(vars, representative, checked);
        } else {
          forall i: nat ensures !LeavesAt(vars, representative, checked, i) {
          }
        }
      } else {
        assert LeavesAt(vars, representative, checked, 0);
      }
    }
  }

  lemma LeavesLater(vars: seq<OrigVar>, representative: seq<nat>, checked: seq<nat>)
    requires |vars| > 0
    requires IsFractionalInteger(vars[0]) ==>
      0 <= vars[0].block < |representative| && representative[vars[0].block] in checked
    ensures (exists i: nat :: LeavesAt(vars, representative, checked, i)) <==>
            exists i: nat :: LeavesAt(vars[1..], representative, checked, i)
  {
    if i: nat :| LeavesAt(vars, representative, checked, i) {
      assert i > 0 && LeavesAt(vars[1..], representative, checked, i - 1);
    }
    if i: nat :| LeavesAt(vars[1..], representative, checked, i) {
      forall j | 0 <= j < i + 1 && IsFractionalInteger(vars[j])
        ensures 0 <= vars[j].block < |representative| && representative[vars[j].block] in checked
      {
        if j > 0 { assert vars[j] == vars[1..][j - 1]; }
      }
      assert LeavesAt(vars, representative, checked, i + 1);
    }
  }

  /** Checking a block once more changes nothing. */
  lemma {:induction false} CheckedAgain(vars: seq<OrigVar>, representative: seq<nat>, checked: seq<nat>, b: nat,
                                        last: Selection)
    requires b in checked
    ensures FromOriginals(vars, representative, checked + [b], last) ==
            FromOriginals(vars, representative, checked, last)
  {
    if |vars| > 0 {
      CheckedAgain(vars[1..], representative, checked, b, last);
      if IsFractionalInteger(vars[0]) && 0 <= vars[0].block < |representative| {
        CheckedAgain(vars[1..], representative, checked, b, InBlockNr(representative[vars[0].block]));
      }
    }
  }
}
