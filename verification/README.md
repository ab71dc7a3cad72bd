# Verified model of GCG's branch-and-price engine

This project models five parts of GCG, a branch-cut-and-price solver based on SCIP, and proves what each of them is
for. LP values and dual values are exact reals, entries of generators are integers, and SCIP objects are plain records
or small classes. Procedures that work on arrays or fields in place are methods on arrays and classes; each is proved
against a specification on values, and the theorems are lemmas about that specification.

- **Vanderbeck's generic branching** (`Median`, `MedianAgain`, `Columns`, `Separation`, `Search`, `Completeness`,
  `RootSearch`, `Children`, `Exhaustiveness`, `BranchTree`, `BranchExamples`, `BlockSelection`, `GenericBranching`,
  `UnsafeExample`, `InducedOrder`, `Disaggregation`, `Combinations`, `OriginalSolution`, `SelectionExamples`,
  `BranchSync`). A block is selected; a quickselect fixes component bounds; the recursive searches Separate and
  Explore look for a sequence of bounds with fractional mass; its prefixes become |S|+1 child nodes; if there is none,
  the procedure calls itself for another block. The main results: which value the quickselect returns
  (`MedianByRanks`), which component is split (`PartitionPicksGreatest`, `LowerStripFirst`) and in which order Explore
  proceeds (`UpperStripFirst`); where the classes of columns that agree on the integer variables have positive totals,
  the search finds nothing exactly if all those totals are integral (`SeparateComplete`, `ExploreComplete`); then the
  original solution assembled from the columns, in every block a convex combination of them (`ConvexCombination`), is
  integral (`AssembledIntegral`), so that the self-calls end (`NeverEndless`); on what the selection of a block
  settles (`FinalFromCandidates`, `FinalIsLastCandidate`, `FinalFromOriginals`, `FinalIsFirstVariable`,
  `FinalOutside`); which of the sequences that are recorded have integral prefix masses (`FoundExactlySafe`,
  `SplitsAreSafe`); which splits take every integer solution (`SplitExhaustiveIff`), and that trees of such splits, of
  any size, lose none (`NoIntegerSolutionLost`); which children cut off the LP point (`GenericSplitCutsOff`), and that
  some child does (`SomeChildCutsOff`); that the sequences of every path stay consistent (`GrownConsistent`,
  `TreePathsGrown`); and that the constraints of active nodes stay in step with the master variables
  (`GenericRunKeepsSynchronised`, `VarAddedKeeps`) and measure what the tree demands (`RunMeasures`).
- **Dual smoothing** (`Vectors`, `Smoothing`, `DualStabilization`, `StabilizationLoop`, `StabilizationRuns`). The
  class `Stabilization` carries center, subgradient and parameters. Every dual that is handed out in any run has the
  right sign (`PerformAll`), no state makes the subgradient use an infinite side (`ReachableProduct`), beta lies in
  [0,1], the hybrid step is as long as the pure one (`HybridStepLength`, `HybridRound`), its divisor never vanishes
  (`DivisorPositive`), and the stabilization loop ends within eleven rounds for each chunk, having priced every chunk
  with the LP duals if it reports no column (`StabilizationLoop.Run`).
- **The pricing controller** (`PricingJobs`, `PricingLoop`, `IterationLimit`, `Chunks`, `PricingControl`). Retries and
  escalation of pricing jobs stay within an exact work bound, for any answers and any interleaving
  (`TotalRunsBounded`, `WorstRunsIsWork`); the iteration limit empties the queue exactly up to its cap
  (`CapSuffices`); and the rotation over the chunks offers every job.
- **The column pool** (`ColPool`). Array, positions and hash table agree throughout, and pricing examines each column
  exactly once although it deletes while it iterates, exactly if the price store frees none of the columns it is
  handed (`Colpool.Price`, `VerdictsConserve`).
- **The index classifier** (`Classifiers`). Renumbering in place keeps the partition, and the duplicate check is
  characterised exactly.

`Numbers` and `Permutations` hold integrality of reals and one fact about permuted sequences.

## Where the code does not do what one would expect

Each of these is a lemma or a method with the exact condition, a concrete input, or both.

- The levels of the children count linking master variables, which the branching constraints cannot contain. Creating
  children asserts that every proper prefix of the sequence has integral mass. That holds exactly if the linking
  columns of the block have integral total value, or the sequence has a single bound, or its first bound has the sense
  of the first split: a lower bound at the root, below it the sense of the collected bound that steers Explore
  (`FoundBranchable`). Without continuous original variables the linking columns are always integral, because a
  fractional one is branched on directly (`SplitsAreSafe`). With continuous variables the block is selected by the
  original solution and nothing makes them integral: if moreover all left-hand sides are positive, the children can
  reject an integer solution (`SplitExhaustiveIff`, `UnexhaustiveSplitLoses`). `UnsafeSplitExample` runs the procedure
  on an LP solution for which they do.
- Branching directly on a copy asserts that it is not a linking variable (`gcg/src/branch_generic.c:2562`). The
  assertion fails exactly if the first copy among the candidates is one (`FinalIsLinking`, `LinkingCopySelected`).
- Without continuous variables the procedure ends in an error, against an assertion, exactly if no copy is fractional
  and every block with a candidate is searched in vain (`FinalFromCandidates`). A block is if no integer variable
  occurs in its fractional columns, which fails the assertion that the index set is not empty (`FailedExample`), or if
  all its classes have integral totals, and where these are positive in no other case (`FoundIffClassFractional`). A
  negative copy of a linking variable can hide a fractional class (`InVainDespiteFractionalClass`).
- With continuous variables the procedure calls itself without end exactly if some integer variable of the original
  problem is fractional and all such variables lie in blocks in which nothing is found (`FinalFromOriginals`,
  `EndlessForever`); an assertion-enabled build stops once more blocks are checked than there are, plus one. On the
  original solution that is assembled from the master solution this cannot happen while all class totals are positive
  (`NeverEndless`), as they are without negative copies; with a negative copy it can (`EndlessExample`,
  `EndlessDespiteAssembly`).
- The table of representatives is read outside its range, with block number -1 or -2, exactly if the first fractional
  integer variable that is not of a block searched in vain has no block or several (`FinalOutside`, `OutsideExample`).
- The first child keeps the LP point exactly if the linking columns outweigh the slack of the first level
  (`FirstChildCutsOff`), and it may (`FirstChildKeepsLpSolution`). A later child keeps it exactly if the linking
  columns on its bounds weigh at most minus its room (`LaterChildrenCutOff`); this takes a negative copy, and then it
  may (`LastChildKeepsLpSolution`). Some child always cuts it off (`SomeChildCutsOff`).
- Branching directly on a master variable rounds with a cast that truncates toward zero. The fractional value is cut
  off exactly if it is above -1 (`DirectSplitCutsOff`, `DirectSplitKeepsFractionalValue`).
- With assertions compiled in, the bound of a recorded sequence is computed on an array that the assertion has already
  scrambled. `MedianRepeats` says exactly when the value is still the same; when it is not, the sequence may be
  recorded with a bound of integral mass, on five columns that meet the convexity constraint (`RecordedMassIntegral`).
  The search is modelled without that assertion.
- The walk that offers a new variable ends at the first node that is not a generic one. A generic node above it then
  misses the variable in every later state, unless the variable is created again (`VarAddedKeeps`, `MissedForGood`,
  `ForeignNodeHides`). While generic branching is the only rule, nothing is missed (`GenericRunKeepsSynchronised`).
- The assertion on beta fails exactly if the subgradient does not vanish, but no row has both a dual that moved and a
  nonzero subgradient (`BetaAssertion`); `StabilizationRuns.BetaMayVanish` is a run that gets there.
- Below the depth limit of heuristic pricing, a job that is queued again for another solver or branching constraint
  becomes heuristic all the same. Some run of the loop gets there exactly if heuristic iterations are allowed and some
  job of the chunk can be queued again (`DepthLimitIff`, `DepthLimitPassed`).
- The cap on the iterations of a pricing loop can end it with jobs in the queue exactly if the budgets of the queued
  jobs add up to more than the cap (`CapSuffices`, `CapFallsShort`).
- The hash table of the column pool distinguishes a ray from a point with the same entries, the price store does not;
  it frees the second of them while the pool's loop still uses it. The loop meets such a column exactly if the priced
  columns are not apart (`Colpool.Price`, `ApartFromEmptyStore`, `PriceRayAndPoint`).
- The duplicate check of classifiers uses -1 both for unset and for unclassified (`DuplicatesIffSame`,
  `HalfClassifiedGoesUnnoticed`, `ClassifiedDuplicatesUnclassified`).

## Model

| member | source | states |
|---|---|---|
| `Median.GetMedian` | gcg/src/branch_generic.c:456-522 | the in-place quickselect stays inside its array; it leaves the array as the value-level selection says and returns that selection's median |
| `Median.PartitionPass` | gcg/src/branch_generic.c:485-509 | the inner do-while, run on the array, is one crossing pass of the value-level selection, and no scan leaves the array although none tests its bound |
| `Median.ExchangeOne` | gcg/src/branch_generic.c:491-505 | one turn of the do-while: two scans and an exchange continue the crossing pass |
| `Median.ScanBoth` | gcg/src/branch_generic.c:493-496 | the two unguarded scans stop at the first entries not below and not above the pivot |
| `Median.ArithmeticMiddle` | gcg/src/branch_generic.c:515-516 | the summation loop yields the average of the entries |
| `Median.CrossPermutes` | gcg/src/branch_generic.c:491-505 | a crossing pass permutes the array |
| `Median.CrossSplits` | gcg/src/branch_generic.c:491-505 | a crossing pass ends with j < i, everything left of i at most the pivot and everything right of j at least the pivot, and nothing outside the window changed |
| `Median.CrossShrinks` | gcg/src/branch_generic.c:485-510 | a pass that starts at a pivot inside the window always exchanges something, so the window shrinks and the loop ends |
| `Median.SelectNearRank` | gcg/src/branch_generic.c:485-510 | the selection loop, which stops while two positions are still open, permutes its input and leaves at the median index an element that separates the array up to one position |
| `Median.RawMedianRank` | gcg/src/branch_generic.c:480-511 | for every input the picked element is at most one rank away from the lower middle: of n entries at most n/2, rounded up, are smaller, and at least that many less one are not larger |
| `Median.MedianSeparates` | gcg/src/branch_generic.c:511-521 | the returned value lies between minimum and maximum, and equals the minimum exactly when all entries agree; otherwise some entry lies strictly below it and some entry does not |
| `Median.MedianDependsOnOrder` | gcg/src/branch_generic.c:1076-1077 | the median depends on the order of the array: recomputed on the array that the compiled-in assertion has scrambled, 1,3,0 gives 1 instead of 2 |
| `MedianAgain.SelectOneOff` | gcg/src/branch_generic.c:485-510 | the selection separates the array at the median index, up to one pair of neighbours in the wrong order that separates the rest |
| `MedianAgain.SelectKeepsExact` | gcg/src/branch_generic.c:485-510 | a selection that starts from an entry separating the array exchanges only entries that keep it so, and picks it again |
| `MedianAgain.SelectInvertedRight` | gcg/src/branch_generic.c:485-510 | a pair in the wrong order to the right stays in the window, pass after pass, until it is exchanged; then the other one of the pair is picked |
| `MedianAgain.SelectInvertedLeft` | gcg/src/branch_generic.c:485-510 | the same to the left |
| `MedianAgain.RawMedianRepeats` | gcg/src/branch_generic.c:485-511 | for every array: selecting again on the scrambled array picks the same value exactly if there are at most two entries or the picked one is in order with its neighbours |
| `MedianAgain.MedianRepeats` | gcg/src/branch_generic.c:1076-1077 | for every array: GetMedian on the scrambled array returns the first value exactly in that case, or if one of the pair in the wrong order is the minimum and the ceiling of the average is the other one |
| `MedianAgain.MedianByRanks` | gcg/src/branch_generic.c:456-522 | what GetMedian returns, in terms of ranks and the sum: an entry above the minimum near the lower middle rank, or, only if about half of the entries are minimal and for certain if more are, the least integer not below the average |
| `MedianAgain.RecordedMassIntegral` | gcg/src/branch_generic.c:1031-1085 | five distinct columns of a block, with total 2 as its two convexity units demand: the mass at the median is 1/2, so a bound is recorded, while the bound that an assertion-enabled build records has mass 1 |
| `Columns.GetGeneratorEntry` | gcg/src/branch_generic.c:115-142 | the loop over the original variables of a column returns the coefficient of the variable, 0 if it does not occur |
| `Columns.MassPermuted` | gcg/src/branch_generic.c:1356-1384 | the mass of a set of columns on a bound sequence does not depend on their order |
| `Columns.MassKeep` | gcg/src/branch_generic.c:1197-1204 | filtering by a bound and then measuring is measuring on the longer sequence |
| `Columns.MassSplit` | gcg/src/branch_generic.c:1179-1185 | a bound and its opposite share out the mass |
| `Columns.KeepShares` | gcg/src/branch_generic.c:1179-1185 | a bound and its opposite share out the columns |
| `Separation.MedianSplitsColumns` | gcg/src/branch_generic.c:1019-1043 | the median bound of a component leaves columns on both sides exactly if the component is not constant |
| `Separation.ConstantHasNoPriority` | gcg/src/branch_generic.c:882-892 | the assertion inside partition: a component that is dropped because its median is its minimum has priority 0 |
| `Separation.DiscriminatingShrinks` | gcg/src/branch_generic.c:1160-1240 | a discriminating component is never dropped by partition, and both parts of the split are nonempty and strictly smaller than F |
| `Separation.PartitionKeepsAll` | gcg/src/branch_generic.c:847-900 | on discriminating components partition drops nothing and picks the first one of greatest priority |
| `Separation.RoundedIsCast` | gcg/src/branch_generic.c:1150 | the cast of an entry plus one half drops the fraction: toward zero for either sign |
| `Separation.PriorityIsGreatest` | gcg/src/branch_generic.c:1134-1157 | the priority of a component is the greatest difference of the rounded entries of two columns, and is attained |
| `Separation.PartitionPicksGreatest` | gcg/src/branch_generic.c:829-903 | where partition ends: it has dropped constant components only, and of those left it picks the first one on which the rounded entries of two columns lie farthest apart: no farther on any other, and strictly closer on those before it |
| `Separation.DirectMembers` | gcg/src/branch_generic.c:1031-1094 | recorded directly is, for each component of the index set whose mass at its median is fractional, the sequence with that bound, and nothing else |
| `Separation.SplitInherits` | gcg/src/branch_generic.c:1551-1582 | if the mass of a split is integral, both sides inherit the assumptions of the search: integral prefix masses, and a subset of F that stands in for the whole block |
| `Separation.SeparateSound` | gcg/src/branch_generic.c:938-1250 | soundness below a sequence with integral prefix masses: every sequence that Separate records has integral mass on each proper prefix and fractional mass on the whole, measured on all columns of the block |
| `Separation.ExploreSound` | gcg/src/branch_generic.c:1387-1698 | soundness of Explore in the same sense |
| `Separation.FractionalPartRepresents` | gcg/src/branch_generic.c:2571-2589 | if the other columns of the block are integral, the fractional ones stand in for the whole block |
| `Completeness.UnionPositive` | gcg/src/branch_generic.c:1031-1043 | where the class totals are positive, every bound that does not part a class has positive mass exactly if a column satisfies it |
| `Completeness.DiscriminatesIffVaries` | gcg/src/branch_generic.c:1043-1046 | then 0 < alpha < mu holds exactly for the components that are not constant on F |
| `Completeness.SkipsNothing` | gcg/src/branch_generic.c:1603-1606 | then the INT_MAX markers of Explore only ever skip a part that has no columns |
| `Completeness.NothingSeparated` | gcg/src/branch_generic.c:938-1250 | whatever the signs of the values, Separate records nothing if every class of columns that agree on the index set has integral total value |
| `Completeness.NothingExplored` | gcg/src/branch_generic.c:1387-1698 | the same for Explore |
| `Completeness.SeparateComplete` | gcg/src/branch_generic.c:938-1250 | completeness: on columns whose classes have positive totals, also with duplicates and single negative values, Separate records nothing exactly if the index set is empty or every class has integral total value |
| `Completeness.ExploreComplete` | gcg/src/branch_generic.c:1387-1698 | completeness of Explore in the same sense, whatever collected sequences steer it, if their bounds are on components that the index set holds or on which all columns agree |
| `Completeness.UnionIntegral` | gcg/src/branch_generic.c:1356-1384 | with integral classes every bound that does not part a class has integral mass |
| `Completeness.HalvesIntegral` | gcg/src/branch_generic.c:1160-1240 | the classes of F are integral exactly if those of both halves of a split are, which look at the varying components only; likewise for positive classes |
| `Completeness.OneClass` | gcg/src/branch_generic.c:997-1116 | if nothing is recorded directly and no component varies, F is a single class, whose total is integral |
| `Completeness.SearchSucceeds` | gcg/src/branch_generic.c:1702-1747 | at the root and below it: the search records nothing if all classes are integral, whatever the signs, and only then if they are positive |
| `Completeness.DistinctClasses` | gcg/src/branch_generic.c:997-1096 | columns that differ on the index set are classes of their own, and their totals are fractional: then something is recorded |
| `Completeness.FoundInteger` | gcg/src/branch_generic.c:1702-1747 | the sequences that are found bound integer variables only, if those collected do |
| `RootSearch.ExplorationsExtend` | gcg/src/branch_generic.c:1387-1698 | every recorded sequence properly extends the one below which it was searched |
| `RootSearch.DirectInOrder` | gcg/src/branch_generic.c:1031-1094 | the direct records are in the order of the index set |
| `RootSearch.LowerStripFirst` | gcg/src/branch_generic.c:1097-1250 | when Separate splits, it is at the median of a component of the index set beyond which no discriminating one is spread out, and all records below the bound precede those above it |
| `RootSearch.UpperStripFirst` | gcg/src/branch_generic.c:1466-1698 | Explore looks at the p-th bound of the first collected sequence that has one: with fractional mass it is recorded; with integral mass all records above it precede those below it |
| `RootSearch.PartsSkipped` | gcg/src/branch_generic.c:1603-1606 | no record takes the lower strip if the bound has no mass and columns lie above; none takes the upper strip if the bound has all the mass and columns lie below; if both sums are equal and not positive, nothing is recorded |
| `RootSearch.SeparateExactlySafe` | gcg/src/branch_generic.c:938-1250 | Separate at the root: the proper prefixes of a recorded sequence have integral mass exactly if the block total is integral, or the sequence has one bound, or its first bound is a lower bound |
| `RootSearch.ExploreExactlySafe` | gcg/src/branch_generic.c:1387-1698 | Explore: the same, with the sense of the collected bound that steers the first split |
| `RootSearch.FoundExactlySafe` | gcg/src/branch_generic.c:2206-2217 | for any block total: the mass of a found sequence is fractional, as asserted; the other assertion, on its prefixes, holds exactly in the cases above |
| `Search.InitIndexSet` | gcg/src/branch_generic.c:374-447 | the index set is the union of the integer variables of all columns, without repetition and in the order of their first occurrence; also when the first columns have none |
| `Search.IndexSetInOrder` | gcg/src/branch_generic.c:374-447 | of two components of the index set, the one that occurs first in the entries of the columns comes first |
| `Search.CopyVars` | gcg/src/branch_generic.c:401-416 | the first column that has variables contributes its integer ones |
| `Search.MergeVars` | gcg/src/branch_generic.c:417-443 | a later column adds exactly its integer variables that are missing, in a loop whose append sits inside the search |
| `Search.ComponentValues` | gcg/src/branch_generic.c:1019-1025 | the array of component values and their minimum |
| `Search.MedianOfComponent` | gcg/src/branch_generic.c:1019-1029 | the median of a component, as computed on a fresh array |
| `Search.ComputeAlpha` | gcg/src/branch_generic.c:1356-1384 | the mass of the columns on the recorded side of a bound |
| `Search.CopyColumns` | gcg/src/branch_generic.c:1195-1204 | the new strip holds exactly the columns that satisfy the bound, in order |
| `Search.MaxMinPriority` | gcg/src/branch_generic.c:1134-1157 | the loop over the columns returns the greatest difference of two entries, both with the truncating cast: no difference exceeds it, and some pair attains it |
| `Search.FindFirstMax` | gcg/src/branch_generic.c:853-862 | the first component of greatest priority |
| `Search.RemoveComponent` | gcg/src/branch_generic.c:885-896 | swap-with-last removal keeps components and priorities aligned |
| `Search.Partition` | gcg/src/branch_generic.c:829-903 | the loop over J, priority, median and minimum settles on the component that the value-level partition names, with J shrunk accordingly |
| `Search.PartitionRound` | gcg/src/branch_generic.c:847-900 | one turn: a component whose median is its minimum leaves J, or the choice is settled |
| `Search.PartitionSettled` | gcg/src/branch_generic.c:847-900 | a settled choice is stable under another round |
| `Search.DetectComponent` | gcg/src/branch_generic.c:1006-1094 | the upper mass of one component; a fractional one is recorded with the freshly computed median |
| `Search.DetectFractional` | gcg/src/branch_generic.c:997-1096 | the first half of Separate: the masses of all components, the count of discriminating ones, and the sequences recorded directly |
| `Search.CollectDiscriminating` | gcg/src/branch_generic.c:1109-1158 | J holds the discriminating components in order, and each has its max-min priority |
| `Search.Separate` | gcg/src/branch_generic.c:938-1250 | the recursive procedure terminates and appends to the shared record exactly the sequences of the value-level search |
| `Search.SeparateBySplit` | gcg/src/branch_generic.c:1109-1240 | the second half of Separate: partition, both strips, both recursive calls |
| `Search.SeparateParts` | gcg/src/branch_generic.c:1193-1240 | the lower strip is searched before the upper one, each with the extended sequence |
| `Search.SeparationsStep` | gcg/src/branch_generic.c:1109-1240 | one round of the value-level search unfolds into the two smaller searches |
| `Search.FindLong` | gcg/src/branch_generic.c:1470-1492 | the scan for a sequence with a p-th bound, or the fall back to Separate |
| `Search.ComputeNewSequence` | gcg/src/branch_generic.c:1325-1354 | the sequences whose p-th bound has the given sense, in order |
| `BranchTree.WithSenseInOrder` | gcg/src/branch_generic.c:1325-1354 | the sequences that are kept stay in their order |
| `Search.Explore` | gcg/src/branch_generic.c:1387-1698 | the recursive procedure terminates and appends exactly the sequences of the value-level exploration |
| `Search.ExploreParts` | gcg/src/branch_generic.c:1576-1683 | upper part before lower part, with the markers that suppress one of them |
| `Search.ChoseS` | gcg/src/branch_generic.c:1253-1321 | the chosen sequence is the first among the shortest recorded ones |
| `Children.ChildrenPartitionColumns` | gcg/src/branch_generic.c:2136-2158 | a column satisfies the sequence of child p exactly if p is the first bound of S that it violates (|S| if it violates none): the |S|+1 sequences partition the columns |
| `Children.ChildMass` | gcg/src/branch_generic.c:2136-2158 | the mass of child p is the drop of the prefix masses at p |
| `Children.LevelIntegral` | gcg/src/branch_generic.c:2206-2226 | with integral prefix masses all levels and left-hand sides are integral, as asserted |
| `Children.LhsTotal` | gcg/src/branch_generic.c:2218-2286 | the left-hand sides telescope to K+|S|, as asserted after the loop |
| `Children.SomeChildAccepts` | gcg/src/branch_generic.c:2113-2227 | pigeonhole: with integral prefix masses every integral assignment of the block total K, to columns priced already or not, satisfies the constraint of at least one child |
| `Children.ChildrenCutOff` | gcg/src/branch_generic.c:2113-2227 | measured on all columns that the levels count, the LP point violates the constraint of every child |
| `Children.SwapToEnd` | gcg/src/branch_generic.c:2187-2203 | the three assignments of the filter move a column out of the range and permute it |
| `Children.FilterRound` | gcg/src/branch_generic.c:2171-2204 | one turn of the filter, with both rejecting branches and the early break |
| `Children.FilterInPlace` | gcg/src/branch_generic.c:2168-2204 | after the filter the front of the array holds, as a multiset, exactly the block's columns that satisfy the bound, and mu is their mass |
| `Children.ReferenceFiltered` | gcg/src/branch_generic.c:2168-2204 | filtering candidate range p by bound p gives candidate range p+1 |
| `Children.NextCandidates` | gcg/src/branch_generic.c:2168-2204 | filters chained over p leave exactly the block's columns that satisfy S[0..p], and mu is the prefix mass |
| `Children.BuildChildSequence` | gcg/src/branch_generic.c:2126-2158 | the copying loop builds the prefix with its last bound turned round, or all of S for the last child |
| `Children.ComputeLhs` | gcg/src/branch_generic.c:2160-2219 | pL, L and the shrinking range carried from child to child give each child its left-hand side |
| `Children.NextLevel` | gcg/src/branch_generic.c:2165-2217 | the level of a prefix; the assertions on its integrality hold where the prefix masses are integral |
| `Children.CreateAll` | gcg/src/branch_generic.c:2113-2286 | the loop over the children, the array shrinking on the way, produces them all and sums their left-hand sides |
| `Children.CreateChildNodes` | gcg/src/branch_generic.c:2057-2299 | the |S|+1 children with their sequences and left-hand sides, for any masses; the assertion on the sum of the left-hand sides always holds |
| `Exhaustiveness.LhsIntegralIff` | gcg/src/branch_generic.c:2206-2226 | all left-hand sides are integral, as asserted, exactly if all prefix masses are |
| `Exhaustiveness.ExhaustiveIff` | gcg/src/branch_generic.c:2113-2227 | some distribution of K columns over the parts of the children is rejected by all of them exactly if a prefix mass is fractional and all left-hand sides are positive |
| `Exhaustiveness.RejectedSolution` | gcg/src/branch_generic.c:2113-2256 | such a distribution, with a column in each part, is an integer solution that all children reject |
| `BranchTree.SameSequence` | gcg/src/branch_generic.c:2641-2654 | the comparison loop decides equality of two sequences |
| `BranchTree.CollectSequences` | gcg/src/branch_generic.c:2594-2674 | the walk towards the root collects the sequences of the block, each once, and ends at a node of another rule or without a sequence |
| `BranchTree.AddIfNew` | gcg/src/branch_generic.c:2636-2671 | a sequence is appended exactly if it is not there yet |
| `BranchTree.CollectMembers` | gcg/src/branch_generic.c:2594-2674 | the collected set is duplicate-free and holds exactly the sequences that the path contributes |
| `BranchTree.CollectInOrder` | gcg/src/branch_generic.c:2594-2674 | of two collected sequences, the one that the walk towards the root meets first comes first |
| `BranchTree.SameComponent` | gcg/src/branch_generic.c:1342-1343 | the assertion of computeNewSequence, Explore and ILOcomp: on a consistent set all p-th bounds are on one component and bound |
| `BranchTree.BelowDescends` | gcg/src/branch_generic.c:1340-1351 | keeping the sequences of one sense descends one level in the tree that the sequences form |
| `BranchTree.ExplorationsCompatible` | gcg/src/branch_generic.c:1387-1698 | whatever Explore records differs from every collected sequence first in a sense only |
| `BranchTree.FoundCompatible` | gcg/src/branch_generic.c:2692-2723 | the same for the search as a whole |
| `BranchTree.ChildCompatible` | gcg/src/branch_generic.c:2136-2158 | turning round the last bound of a prefix keeps that property |
| `BranchTree.GrownConsistent` | gcg/src/branch_generic.c:2594-2729 | over any number of branching steps, on any blocks and LP points, the set collected for every block is consistent and duplicate-free |
| `BranchTree.FoundBranchable` | gcg/src/branch_generic.c:2206-2217 | for any LP solution that meets the convexity constraint: the prefix masses of a found sequence are integral, as asserted, exactly if the linking columns of the block have integral total value, or the sequence has one bound, or its first bound has the sense of the first split |
| `BranchTree.SplitExhaustiveIff` | gcg/src/branch_generic.c:2113-2256 | a generic split takes every distribution of the K columns of the block exactly if that condition holds or some left-hand side is not positive |
| `BranchTree.UnexhaustiveSplitLoses` | gcg/src/branch_generic.c:2113-2256 | otherwise, given a priced column for each child, an integer solution of the block is rejected by all children |
| `BranchTree.GenericSplitKeeps` | gcg/src/branch_generic.c:2113-2256 | an integer solution is accepted by one child of an exhaustive generic split, measured on the columns that its constraint can contain |
| `BranchTree.NoIntegerSolutionLost` | gcg/src/branch_generic.c:2374-2737 | whole trees of exhaustive generic and of direct splits, of any depth: an integer solution that meets all constraints of the root path is accepted along the path of some leaf |
| `BranchTree.OwnChildMass` | gcg/src/branch_generic.c:2178-2186 | the mass of a child without linking columns, which mu counts but the constraint cannot hold |
| `BranchTree.LaterChildrenCutOff` | gcg/src/branch_generic.c:2136-2223 | a child after the first cuts off the LP point, measured on the columns of its constraint, exactly if the linking columns on its bounds weigh more than minus its room: one, or what rounding the mass of S leaves for the last two |
| `BranchTree.FirstChildCutsOff` | gcg/src/branch_generic.c:2178-2218 | the first child cuts off the LP point exactly if the linking columns on the first bound weigh less than the slack of the first level: 1 with several bounds, and with a single one 1 minus what its mass lacks to the next integer |
| `BranchTree.GenericSplitCutsOff` | gcg/src/branch_generic.c:2113-2256 | for any linking columns of any sign, child by child: the first keeps the LP point exactly if they outweigh the slack, a later one exactly if those on its bounds fall to minus its room; if none is negative only the first child can, and without linking columns none does |
| `BranchTree.SomeChildCutsOff` | gcg/src/branch_generic.c:2218-2286 | whatever the linking columns are, some child cuts off the LP point, because the left-hand sides add up to more than the block total |
| `BranchTree.DirectSplitCutsOff` | gcg/src/branch_generic.c:2323-2341 | branching directly on a master variable cuts off its fractional LP value exactly if that value is above -1, because the cast truncates |
| `BranchTree.DirectSplitKeepsFractionalValue` | gcg/src/branch_generic.c:2323-2341 | the value -1.5 is still allowed in the down child |
| `BranchTree.TreePathsGrown` | gcg/src/branch_generic.c:2594-2729 | every path of every valid tree, direct nodes included, is one for which consistency is proved, by induction over the tree |
| `BranchTree.GenericNodeGrown` | gcg/src/branch_generic.c:2225-2256 | a generic split extends such a path to such a path |
| `BranchExamples.FirstChildKeepsLpSolution` | gcg/src/branch_generic.c:2178-2218 | an LP solution of a block with a linking variable at one that the first child of a found sequence accepts |
| `BranchExamples.LastChildKeepsLpSolution` | gcg/src/branch_generic.c:2113-2223 | an LP solution with a negative, integral copy of a linking variable, whose safe split has a last child that accepts it |
| `UnsafeExample.UnsafeSplitArises` | gcg/src/branch_generic.c:2178-2217 | an LP solution that the procedure can receive, with an integer variable of a block at -1/2, a linking variable at 1/2 and a continuous variable: the selection settles on that block, and the first prefix of the sequence found has mass 1/2, so that the assertion on it fails |
| `UnsafeExample.UnsafeSplitExample` | gcg/src/branch_generic.c:2374-2737 | InitBranch on it creates three children, all of which reject an integer solution |
| `UnsafeExample.PointIsInteger` | gcg/src/branch_generic.c:2113-2256 | that solution is integral and meets the convexity constraints of both blocks |
| `BlockSelection.SelectFromCandidates` | gcg/src/branch_generic.c:2436-2484 | the loop over the branching candidates: a direct copy ends it, a block that is found does not, so that the last candidate of an unchecked block decides |
| `BlockSelection.FindUnchecked` | gcg/src/branch_generic.c:2454-2483 | the first unchecked block of a candidate |
| `BlockSelection.IsChecked` | gcg/src/branch_generic.c:2458-2466 | whether a block is among the checked ones |
| `BlockSelection.SelectedFromCandidates` | gcg/src/branch_generic.c:2436-2486 | a copy is selected exactly if some candidate is one; nothing, which an assertion excludes, exactly if every candidate lies in checked blocks only; otherwise an unchecked block of a candidate |
| `BlockSelection.LastCandidateDecides` | gcg/src/branch_generic.c:2436-2484 | which block it is: the first unchecked one of a candidate after which no candidate lies in any unchecked block |
| `BlockSelection.FirstCopySelected` | gcg/src/branch_generic.c:2436-2451 | the copy that is selected is the first one among the candidates |
| `BlockSelection.SelectFromOriginals` | gcg/src/branch_generic.c:2488-2533 | with continuous variables: the loop over the original variables stops at the first fractional integer one of an unchecked block, and keeps the last block otherwise |
| `BlockSelection.SelectedFromOriginals` | gcg/src/branch_generic.c:2488-2533 | a selected block is that of a fractional integer variable; it is a checked one only if all those variables lie in checked blocks; none is selected exactly if no integer variable is fractional |
| `BlockSelection.FirstOpenDecides` | gcg/src/branch_generic.c:2497-2533 | an unchecked block is selected exactly if it is that of the first fractional integer variable whose block is not checked |
| `BlockSelection.LeavesTable` | gcg/src/branch_generic.c:2505-2510 | the representative of a block number below zero is looked up exactly if the first fractional integer variable that is not of a checked block has no block |
| `BlockSelection.CheckedAgain` | gcg/src/branch_generic.c:2519-2532 | checking a block again does not change the selection |
| `GenericBranching.IndexSetDistinguishes` | gcg/src/branch_generic.c:374-447 | columns agree on the index set exactly if they agree on all integer variables |
| `GenericBranching.ChooseSeparateMethod` | gcg/src/branch_generic.c:1741-1757 | Separate without collected sequences, Explore with them, then the first shortest of what they record; nothing is returned exactly if nothing was recorded |
| `GenericBranching.SelectBlock` | gcg/src/branch_generic.c:2432-2533 | the selection in either mode |
| `GenericBranching.SelectedInhabited` | gcg/src/branch_generic.c:2571-2589 | a selected block has fractional columns, as ChooseSeparateMethod asserts |
| `GenericBranching.SearchBlock` | gcg/src/branch_generic.c:2571-2723 | the search in one block: the first shortest of the sequences found there, or nothing if there is none |
| `GenericBranching.InitBranch` | gcg/src/branch_generic.c:2374-2737 | the whole procedure with its self-calls on further blocks, for any linking mass: error, direct branching on a copy, the children of the first shortest sequence of the block on which the selection settles, or calls that never end, as the value-level selection says |
| `GenericBranching.FinalFromCandidates` | gcg/src/branch_generic.c:2436-2486 | without continuous variables: direct branching exactly if some candidate is a copy; an error, which an assertion excludes, exactly if none is and every block with a candidate is searched in vain; otherwise children in a block with a candidate; the self-calls end |
| `GenericBranching.FinalIsLastCandidate` | gcg/src/branch_generic.c:2436-2486 | the children are in the first block, among those not searched in vain, of a candidate after which every candidate lies in blocks searched in vain only |
| `GenericBranching.FinalIsLinking` | gcg/src/branch_generic.c:2559-2566 | the assertion on direct branching, that the copy is not a linking one, fails exactly if the first copy among the candidates is one |
| `GenericBranching.SplitsAreSafe` | gcg/src/branch_generic.c:2206-2217 | without continuous variables the linking columns of the block are integral, so that the assertions on the prefix masses hold for every sequence found, at every node |
| `GenericBranching.FinalFromOriginals` | gcg/src/branch_generic.c:2488-2545 | with continuous variables: an error exactly if no integer variable is fractional; the procedure calls itself without end exactly if some is, and all of them lie in blocks that are searched in vain |
| `GenericBranching.FinalIsFirstVariable` | gcg/src/branch_generic.c:2497-2545 | the children are in the block of the first fractional integer variable whose block is not searched in vain |
| `GenericBranching.FinalOutside` | gcg/src/branch_generic.c:2505-2510 | the table of representatives is read outside its range exactly if the first fractional integer variable that does not lie in a block searched in vain has no block or several |
| `GenericBranching.EndlessForever` | gcg/src/branch_generic.c:1753-1819 | a checked block that is selected is selected again however often it has been checked |
| `GenericBranching.FoundIffClassFractional` | gcg/src/branch_generic.c:2571-2723 | a block is searched in vain if no integer variable occurs in its fractional columns or all classes that agree on the integer variables have integral totals, and, where those totals are positive, only then |
| `GenericBranching.ChildIsInteger` | gcg/src/branch_generic.c:2225-2256 | the sequences along a path bound integer variables only, and branching keeps it so |
| `Disaggregation.Assemble` | gcg/src/misc.c:300-484 | the two loops that share out the columns of a block among the identical blocks, whole units first, compute the value-level assembly; no block number leaves the blocks, although the code has a branch for that |
| `Disaggregation.PlaceUnits` | gcg/src/misc.c:381-423 | one unit of a column for each of the next blocks, and the fraction that remains |
| `Disaggregation.PlaceRest` | gcg/src/misc.c:448-484 | what remains of a column goes into the current block, and what does not fit into the next one |
| `Disaggregation.AllBlocksFilled` | gcg/src/misc.c:300-484 | exactly all identical blocks are filled if the columns meet the convexity constraint |
| `Disaggregation.AssembledTotal` | gcg/src/misc.c:300-484 | conservation: the values of a variable in the identical blocks add up to what the columns give it |
| `Combinations.AllHandedOut` | gcg/src/misc.c:365-466 | over all blocks, the weights of a column add up to its value in the master solution |
| `Combinations.BlockHoldsOne` | gcg/src/misc.c:365-466 | the weights in a block add up to one |
| `Combinations.ConvexCombination` | gcg/src/misc.c:300-484 | the solution that is assembled: in every block each variable has the value of a convex combination of the columns, with the same weights for all variables, nonnegative, adding up to one in the block and to the value of each column over the blocks |
| `Combinations.AssembledBetween` | gcg/src/misc.c:300-484 | so the value of a variable in a block lies between its least and its greatest entry |
| `Combinations.UnitFillsBlock` | gcg/src/misc.c:381-423 | each whole unit of a column fills a block of its own: it has weight one there and every other column has none |
| `Disaggregation.ClassesContiguous` | gcg/src/misc.c:79-114 | in the order of the comparison function a class of columns that agree on the integer variables is contiguous |
| `Disaggregation.PrefixIntegral` | gcg/src/misc.c:79-114 | with integral classes the mass up to two neighbours that differ is integral |
| `Disaggregation.AssembledIntegral` | gcg/src/misc.c:177-484 | if the columns are sorted and all classes have integral totals, every integer variable has an integral value in every identical block |
| `OriginalSolution.OwnClassesIntegral` | gcg/src/branch_generic.c:2571-2589 | if the classes of the fractional columns of a block are integral and fractional copies are those of continuous variables, the classes of all its own columns are integral, the zero one included |
| `OriginalSolution.InVainIsIntegral` | gcg/src/branch_generic.c:2488-2533 | with positive classes the variables of a block that is searched in vain have integral values in the assembled solution |
| `OriginalSolution.NeverEndless` | gcg/src/branch_generic.c:2488-2533 | with continuous variables, on the assembled solution and where all class totals are positive: the selection never settles on a block searched in vain, so the procedure does not call itself without end |
| `OriginalSolution.NonnegativeIsPositive` | gcg/src/branch_generic.c:2571-2589 | class totals are positive where no candidate is negative |
| `SelectionExamples.FailedExample` | gcg/src/branch_generic.c:1747-1753 | two columns that differ in an implicit integer variable only: the index set is empty, against an assertion, and InitBranch returns an error |
| `SelectionExamples.LinkingCopySelected` | gcg/src/branch_generic.c:2559-2566 | a fractional copy of a linking variable at the front of the candidates is branched on directly |
| `SelectionExamples.OutsideExample` | gcg/src/branch_generic.c:2505-2510 | a fractional linking variable listed first: InitBranch reads outside the table of representatives |
| `SelectionExamples.EndlessExample` | gcg/src/branch_generic.c:1753-1819 | a continuous linking variable with a negative copy: InitBranch selects a block that it has searched in vain |
| `SelectionExamples.EndlessDespiteAssembly` | gcg/src/misc.c:177-484 | the original solution of that input is the assembled one; only the class of the negative copy has no positive total |
| `SelectionExamples.InVainDespiteFractionalClass` | gcg/src/branch_generic.c:2571-2723 | in that input nothing is found although a class has total 1/2 |
| `GenericBranching.CollectFractional` | gcg/src/branch_generic.c:2571-2589 | the fractional candidates of the block, in order |
| `GenericBranching.BlockShares` | gcg/src/branch_generic.c:2571-2589 | the block's columns are its fractional and its integral ones |
| `GenericBranching.BranchOn` | gcg/src/branch_generic.c:2725-2733 | the children of a sequence that the search has found are those of a generic split |
| `InducedOrder.PtrCompare` | gcg/src/branch_generic.c:525-573 | the loop computes the descending lexicographic comparison over the integer variables |
| `InducedOrder.IloCompare` | gcg/src/branch_generic.c:598-774 | the recursive comparison terminates and its scans stay within the set |
| `InducedOrder.GrownIsReady` | gcg/src/branch_generic.c:656-671 | on every reachable path the scan for a p-th bound ends and the same-component assertion holds at every level |
| `InducedOrder.PtrCompAntisymmetric` | gcg/src/branch_generic.c:525-573 | exchanging the columns flips the sign |
| `InducedOrder.PtrCompTransitive` | gcg/src/branch_generic.c:525-573 | transitivity, strict as soon as one step is strict |
| `InducedOrder.PtrCompZero` | gcg/src/branch_generic.c:525-573 | columns tie exactly if they agree on all integer variables |
| `InducedOrder.PtrCompDescends` | gcg/src/branch_generic.c:525-573 | at the first integer variable on which the columns differ, the one with the greater entry comes first |
| `InducedOrder.SomeFirstDifference` | gcg/src/branch_generic.c:525-573 | columns that do not tie have such a variable |
| `InducedOrder.IloAntisymmetric` | gcg/src/branch_generic.c:598-774 | the induced order is sign-antisymmetric, although it is ascending across bounds and descending below them |
| `InducedOrder.IloTransitive` | gcg/src/branch_generic.c:598-774 | the induced order is transitive, strict as soon as one step is strict |
| `InducedOrder.IloZero` | gcg/src/branch_generic.c:598-774 | the induced order has exactly the ties of the lexicographic one |
| `InducedOrder.IloAscendsAtSplit` | gcg/src/branch_generic.c:598-774 | two columns that satisfy the same bounds, along which the collected sequences split: the column below the next bound comes before the one above it; if no more than one sequence is left, the integer variables decide, in descending order |
| `BranchSync.BranchData.AddVarToMasterbranch` | gcg/src/branch_generic.c:145-201 | a variable becomes a coefficient exactly if it has a block, the constraint is not of direct branching, the blocks agree, and its entry is at or above the bound of each GE bound and below that of each LT bound |
| `BranchSync.BranchData.ActiveMaster` | gcg/src/branch_generic.c:2771-2809 | activation offers the variables created since the node was left, and remembers how many there are |
| `BranchSync.BranchData.DeactiveMaster` | gcg/src/branch_generic.c:2812-2825 | deactivation remembers how many variables there are |
| `BranchSync.EventExec` | gcg/src/branch_generic.c:292-366 | the walk offers a new variable to the nodes of the path up to the first that is not generic or has no sequence |
| `BranchSync.RunKeepsSynchronised` | gcg/src/branch_generic.c:292-366 | over any interleaving of node creation, activation, deactivation and new variables in which no new variable is missed, each active node's constraint holds each admitted variable once and no other |
| `BranchSync.GenericStepKeeps` | gcg/src/branch_generic.c:292-366 | a tree of generic nodes below the root stays one, and in step, under every single step |
| `BranchSync.GenericRunKeepsSynchronised` | gcg/src/branch_generic.c:292-366 | unconditionally on such a tree: every interleaving of creation, activation, deactivation and new variables misses nothing and keeps all constraints in step |
| `BranchSync.FromTheRoot` | gcg/src/branch_generic.c:292-366 | in particular every run that starts with the root alone |
| `BranchSync.AdmittedMass` | gcg/src/branch_generic.c:145-201 | the activity of a constraint that holds the admitted variables is the mass of the own columns of the block on the bound sequence, for any values of the variables |
| `BranchSync.ConstraintMeasures` | gcg/src/branch_generic.c:145-201 | so in every synchronised state the constraint of an active generic node holds exactly if the master solution is accepted by the node of the branching tree |
| `BranchSync.RunMeasures` | gcg/src/branch_generic.c:292-366 | and so it does after every run that starts with the root alone |
| `BranchSync.VarAddedKeeps` | gcg/src/branch_generic.c:338-362 | a new variable keeps all constraints in step exactly if no active generic node that wants it lies above a node at which the walk stops |
| `BranchSync.GapFreeMissesNothing` | gcg/src/branch_generic.c:338-362 | nothing is missed while the generic nodes reach up to the current node without a gap |
| `BranchSync.MissedForGood` | gcg/src/branch_generic.c:323-345 | a node that misses a new variable never holds it in any state of any later run, unless the variable is created again |
| `BranchSync.ForeignNodeHides` | gcg/src/branch_generic.c:323-345 | from the root state, with a generic node and a node of another rule below it: the generic node misses a new variable, in every state of every later run |
| `Smoothing.ComputedSign` | gcg/src/class_stabilization.cpp:395-428 | every branch of computeDual returns a dual of the right sign, whatever beta, norms and factor are, if center and LP dual have it |
| `Smoothing.ComputedDual` | gcg/src/class_stabilization.cpp:395-428 | what computeDual returns: without a center the LP dual; in the schedule, and if beta or alpha is zero, the point that has gone 1 - alpha of the way from the center to the LP dual, with the alpha in use; otherwise the hybrid point, or 0 if that has the wrong sign |
| `Smoothing.UnstabilizedReturnsCurrent` | gcg/src/class_stabilization.cpp:406-413 | with alpha 0 or without a center the LP dual is returned unchanged |
| `Smoothing.ClampNearer` | gcg/src/class_stabilization.cpp:418-422 | sign correction never moves away from a center of the right sign |
| `Smoothing.BetaInUnitInterval` | gcg/src/class_stabilization.cpp:981-1038 | beta lies in [0,1] when both norms are positive, also if the subgradient has been zero-extended or reset since its norm was taken (Cauchy-Schwarz) |
| `Smoothing.BetaPositive` | gcg/src/class_stabilization.cpp:1032-1037 | with positive norms beta is positive exactly if some row has both a dual that moved and a nonzero subgradient |
| `Smoothing.BetaVanishes` | gcg/src/class_stabilization.cpp:1032-1037 | with positive norms and no such row beta is 0 |
| `Smoothing.BetaAssertion` | gcg/src/class_stabilization.cpp:1032-1037 | the assertion on beta, when the duals differ from the center: it holds exactly if there is such a row or the subgradient is zero |
| `Smoothing.BetaTimesNorms` | gcg/src/class_stabilization.cpp:981-1038 | beta times both norms is the sum over the rows of the absolute products of dual difference and subgradient |
| `Smoothing.ZeroNormMakesBetaZero` | gcg/src/class_stabilization.cpp:1032-1033 | without a subgradient beta is 0, so the hybrid factor that divides by that norm is not used |
| `Smoothing.HybridStepLength` | gcg/src/class_stabilization.cpp:1041-1103 | the unclamped hybrid duals lie exactly (1-alpha) times the dual distance away from the center |
| `Smoothing.PureStepLength` | gcg/src/class_stabilization.cpp:412-413 | so do the duals of pure smoothing |
| `Smoothing.ClampedStepNotLonger` | gcg/src/class_stabilization.cpp:416-424 | after sign correction the hybrid duals lie at most that far away |
| `Smoothing.StabilizedStep` | gcg/src/class_stabilization.cpp:395-428 | the step bound for whichever branch computeDual takes |
| `Smoothing.DivisorPositive` | gcg/src/class_stabilization.cpp:1096-1102 | with positive norms the divisor of the hybrid factor is positive, so the factor is defined |
| `Smoothing.FactorTimesDivisor` | gcg/src/class_stabilization.cpp:1041-1103 | the hybrid factor times the norm of the direction is 1 - alpha times the norm of the dual difference |
| `Vectors.CauchySchwarz` | gcg/src/class_stabilization.cpp:999-1030 | the sum of the products of absolute values is at most the product of the norms |
| `DualStabilization.UsedSideIsFinite` | gcg/src/class_stabilization.cpp:791-801 | a center of the right sign never makes the subgradient use an infinite side, as asserted, unless both sides are infinite |
| `DualStabilization.InfeasibilitiesMeasure` | gcg/src/class_stabilization.cpp:791-801 | with duals of the right signs: the entry of a row is its left-hand side minus its activity where the dual is positive, its right-hand side minus its activity where it is negative, both finite, and 0 elsewhere |
| `DualStabilization.TenthMispricing` | gcg/src/class_stabilization.cpp:477-483 | alphabar stays in [0,1] and is 0 from the tenth mispricing on, because alpha is at most 0.9 |
| `DualStabilization.Stabilization.constructor` | gcg/src/class_stabilization.cpp:57-72 | the initial state is valid |
| `DualStabilization.Stabilization.UpdateStabcenterconsvals` | gcg/src/class_stabilization.cpp:94-116 | the array grows by zeros and keeps the right signs |
| `DualStabilization.Stabilization.UpdateStabcentercutvals` | gcg/src/class_stabilization.cpp:118-139 | the same for cuts |
| `DualStabilization.Stabilization.UpdateSubgradientconsvals` | gcg/src/class_stabilization.cpp:141-163 | the array grows by zeros; its sum of squares stays |
| `DualStabilization.Stabilization.UpdateSubgradientcutvals` | gcg/src/class_stabilization.cpp:165-186 | the same for cuts |
| `DualStabilization.Stabilization.SetNLinkingconsvals` | gcg/src/class_stabilization.cpp:189-209 | linking centers and, for hybrid ascent, subgradients are set to zero; the norm still bounds the subgradient |
| `DualStabilization.Stabilization.SetNConvconsvals` | gcg/src/class_stabilization.cpp:211-222 | the centers of the convexity constraints are set to zero |
| `DualStabilization.Stabilization.ConsGetDual` | gcg/src/class_stabilization.cpp:243-273 | the smoothed dual of a constraint, with the arrays grown on demand, has the right sign in every reachable state |
| `DualStabilization.Stabilization.RowGetDual` | gcg/src/class_stabilization.cpp:275-307 | the same for a cut |
| `DualStabilization.Stabilization.LinkingconsGetDual` | gcg/src/class_stabilization.cpp:224-241 | the smoothed dual of a linking constraint |
| `DualStabilization.Stabilization.ConvGetDual` | gcg/src/class_stabilization.cpp:309-323 | the smoothed dual of a convexity constraint |
| `DualStabilization.Stabilization.GrowArrays` | gcg/src/class_stabilization.cpp:343-351 | all arrays grow to the size of the LP without changing the subgradient's sum of squares |
| `DualStabilization.Stabilization.RefreshConsCenter` | gcg/src/class_stabilization.cpp:364-367 | the loop that overwrites the center while reading it makes it the vector of smoothed duals of the old center |
| `DualStabilization.Stabilization.RefreshCutCenter` | gcg/src/class_stabilization.cpp:369-372 | the same for cuts |
| `DualStabilization.Stabilization.RefreshLinkingCenter` | gcg/src/class_stabilization.cpp:374-377 | the same for linking constraints |
| `DualStabilization.Stabilization.UpdateConvCenter` | gcg/src/class_stabilization.cpp:379-384 | the centers of relevant convexity constraints are replaced, the others stay |
| `DualStabilization.Stabilization.UpdateStabilityCenter` | gcg/src/class_stabilization.cpp:325-393 | without a better bound nothing changes; with one the center becomes the smoothed duals and subgradient and norm belong to the new center |
| `DualStabilization.Stabilization.SubgradientOfConss` | gcg/src/class_stabilization.cpp:740-807 | one loop of calculateSubgradient, with the side chosen by the sign of the center |
| `DualStabilization.Stabilization.SubgradientOfCuts` | gcg/src/class_stabilization.cpp:809-880 | the loop over the cuts |
| `DualStabilization.Stabilization.SubgradientOfLinking` | gcg/src/class_stabilization.cpp:882-917 | the loop over the linking constraints |
| `DualStabilization.Stabilization.CalculateSubgradient` | gcg/src/class_stabilization.cpp:720-925 | the subgradient at the center and exactly its norm; if no row lacks both sides, each entry is measured at the finite side that the sign of its center selects |
| `DualStabilization.Stabilization.CalculateDualdiffnorm` | gcg/src/class_stabilization.cpp:927-978 | three loops give the norm of the difference of center and LP duals |
| `DualStabilization.Stabilization.CalculateBeta` | gcg/src/class_stabilization.cpp:980-1038 | three loops and the division give beta |
| `DualStabilization.Stabilization.CalculateHybridFactor` | gcg/src/class_stabilization.cpp:1040-1103 | three loops give the norm of the direction, and from it the factor |
| `DualStabilization.Stabilization.UpdateHybrid` | gcg/src/class_stabilization.cpp:454-475 | afterwards norms, beta and factor belong to the same center, LP duals and subgradient; outside its condition nothing changes |
| `DualStabilization.Stabilization.HybridRound` | gcg/src/class_stabilization.cpp:454-475 | so the duals handed out in that round lie at most (1-alpha) times the dual distance away from the center |
| `DualStabilization.Stabilization.UpdateNode` | gcg/src/class_stabilization.cpp:440-452 | a new node resets alpha, the counters, the center and the schedule |
| `DualStabilization.Stabilization.HandOutConss` | gcg/src/class_stabilization.cpp:243-273 | asking for the duals of all constraints gives the vector of smoothed duals, and changes none of them on the way |
| `DualStabilization.Stabilization.HandOutCuts` | gcg/src/class_stabilization.cpp:275-307 | the same for cuts |
| `DualStabilization.Stabilization.HandedOutSigns` | gcg/src/class_stabilization.cpp:395-428 | all of them have the right signs |
| `DualStabilization.WeighInfeasibilities` | gcg/src/class_stabilization.cpp:539-611 | the loop over the rows: the distance of each LP dual from the center times the infeasibility that the smoothed dual selects |
| `DualStabilization.WeighLinking` | gcg/src/class_stabilization.cpp:684-713 | the loop over the linking constraints, which skips a smoothed dual of zero |
| `DualStabilization.Stabilization.UpdateSubgradientProduct` | gcg/src/class_stabilization.cpp:519-718 | three loops give the product of the way from the center to the LP duals with the subgradient at the smoothed duals; linking constraints enter with the opposite sign of the one that calculateSubgradient gives them |
| `DualStabilization.Stabilization.ProductMeasured` | gcg/src/class_stabilization.cpp:519-718 | the product, with each infeasibility measured at the finite side that the sign of the smoothed dual selects |
| `DualStabilization.Stabilization.UpdateAlpha` | gcg/src/class_stabilization.cpp:485-517 | alpha moves by the sign of the subgradient product and stays in [0, 0.9] |
| `DualStabilization.Stabilization.UpdateAlphaMisprice` | gcg/src/class_stabilization.cpp:477-483 | one more mispricing; at the tenth alphabar is 0 |
| `DualStabilization.Stabilization.ActivateMispricingSchedule` | gcg/src/class_stabilization.cpp:1113-1118 | the schedule is on |
| `DualStabilization.Stabilization.DisablingMispricingSchedule` | gcg/src/class_stabilization.cpp:1120-1126 | the schedule is off and its count 0 |
| `DualStabilization.Stabilization.IsStabilized` | gcg/src/class_stabilization.cpp:1106-1111 | decides whether the alpha in use is positive |
| `DualStabilization.Stabilization.ScheduleEnds` | gcg/src/class_stabilization.cpp:406-413 | from the tenth mispricing on nothing is smoothed and every dual is the LP dual |
| `StabilizationRuns.PerformAll` | gcg/src/class_stabilization.cpp:189-507 | any sequence of calls, in any order, with the duals of a round handed out with or without an update of the hybrid parameters, while the numbers of constraints and cuts only grow: every dual of a constraint or cut that is ever handed out has the sign that its sides demand |
| `StabilizationRuns.ReachableProduct` | gcg/src/class_stabilization.cpp:519-718 | in every state that any sequence of calls can reach, the subgradient product uses no infinite side |
| `StabilizationRuns.BetaMayVanish` | gcg/src/class_stabilization.cpp:1032-1037 | a run of the object on two equations after which the assertion on beta fails, although neither the subgradient nor the difference of the duals vanishes |
| `StabilizationLoop.StartRound` | gcg/src/pricer_gcg.cpp:2817-2823 | a round is smoothed within a schedule only before its tenth mispricing |
| `StabilizationLoop.UpdateParameters` | gcg/src/pricer_gcg.cpp:3014-3031 | mispricing enters or continues a schedule; a round with improving columns ends it |
| `StabilizationLoop.FinishRound` | gcg/src/pricer_gcg.cpp:3006-3032 | the center moves if all problems were solved to optimality, then the parameters |
| `StabilizationLoop.NextChunkIfAny` | gcg/src/pricer_gcg.cpp:3056-3057 | either there is another chunk, or the rotation has been through all of them |
| `StabilizationLoop.Run` | gcg/src/pricer_gcg.cpp:2792-3062 | the loop ends after at most eleven rounds for each chunk; unless columns from the pool or infeasibility end it at once, it reports that nothing was found only if every chunk was priced with the unsmoothed LP duals |
| `PricingJobs.NextEnabledCounts` | gcg/src/pricingjob.c:171-203 | moving to the next enabled solver uses up exactly one of them |
| `PricingJobs.NextEnabledIsFirst` | gcg/src/pricingjob.c:171-203 | the next solver is enabled, and no enabled one lies between |
| `PricingJobs.RunUsesWork` | gcg/src/class_pricingcontroller.cpp:467-529 | whatever a solver answers, a run uses up work, and a job that is queued again satisfies what queued jobs satisfy |
| `PricingJobs.NextBranchconsWork` | gcg/src/class_pricingcontroller.cpp:416-434 | going to the next branching constraint uses up the runs of the phase |
| `PricingJobs.NextSolverWork` | gcg/src/class_pricingcontroller.cpp:516-522 | so does going to the next solver |
| `PricingJobs.HeuristicStatusExpected` | gcg/src/class_pricingcontroller.cpp:488-490 | the assertion inside evaluatePricingjob |
| `PricingJobs.WorstRunUsesOne` | gcg/src/class_pricingcontroller.cpp:467-529 | under the worst answers a run uses up exactly one unit: the bound is attained |
| `PricingJobs.FreshWork` | gcg/src/class_pricingcontroller.cpp:368-397 | the work of a job that has just been set up |
| `PricingJobs.WorkWithinIterations` | gcg/src/class_pricingcontroller.cpp:347-350 | the exact work never exceeds what the controller computes for the problem |
| `PricingJobs.RequeuedExactJob` | gcg/src/class_pricingcontroller.cpp:505-526 | an exact job that is queued again becomes heuristic exactly if heuristic iterations are allowed at all |
| `PricingJobs.EvaluationTable` | gcg/src/class_pricingcontroller.cpp:467-529 | what becomes of a job whose run found no column, for every status: repeated heuristically while iterations are left, then exactly; after an optimal run the next branching constraint, after the last one none; otherwise the next enabled solver |
| `PricingJobs.ExactFreshWork` | gcg/src/class_pricingcontroller.cpp:368-397 | a job set up exact saves its heuristic iterations, and has a single run exactly if it has neither another enabled solver nor a branching constraint |
| `PricingLoop.StepBurnsFuel` | gcg/src/pricer_gcg.cpp:2872-2963 | every step of every job moves towards the end: the loop cannot go on forever even without its limit |
| `PricingLoop.RunsWithinBudget` | gcg/src/pricer_gcg.cpp:2872-2963 | every run is finite, and in every state each job is within its budget |
| `PricingLoop.TotalRunsBounded` | gcg/src/class_pricingcontroller.cpp:347-351 | each job runs at most (heurpricingiters+1)(enabled solvers+branching constraints) times, and all together at most tmpmaxniters times, for any interleaving and any answers |
| `PricingLoop.WorstRunsIsWork` | gcg/src/class_pricingcontroller.cpp:467-529 | the worst case of a job is exactly its work |
| `PricingLoop.DepthLimitIff` | gcg/src/class_pricingcontroller.cpp:380-392 | below the depth limit all jobs start exact; some run of the loop still solves a job heuristically exactly if heuristic iterations are allowed and some job of the chunk has another enabled solver or a branching constraint |
| `PricingLoop.DepthLimitPassed` | gcg/src/class_pricingcontroller.cpp:380-392 | an input: two solvers, heuristics at the root only, and a heuristic run at depth 1 |
| `IterationLimit.TurnUsesWork` | gcg/src/pricer_gcg.cpp:2877-2963 | whatever job an iteration takes and whatever the answer is, it uses up work, and exactly one unit under the worst answer |
| `IterationLimit.IterationsUseWork` | gcg/src/pricer_gcg.cpp:2877-2963 | so n iterations leave n units less or an empty queue |
| `IterationLimit.WorstIterations` | gcg/src/pricer_gcg.cpp:2877-2963 | under the worst answers the work falls by exactly one in every iteration, in whatever order the jobs are taken |
| `IterationLimit.EmptiesIff` | gcg/src/pricer_gcg.cpp:2877-2963 | n iterations always empty the queue exactly if its work is at most n; otherwise some run leaves a job queued |
| `IterationLimit.CapSuffices` | gcg/src/class_pricingcontroller.cpp:347-351 | for any problems and any chunk: maxniters iterations empty the queue, in any order and for any answers, exactly if the budgets of the queued jobs add up to at most 16383; tmpmaxniters iterations always do |
| `IterationLimit.CapFallsShort` | gcg/src/class_pricingcontroller.cpp:347-351 | an input: two problems, each of which alone stays below the cap, and the cap does not suffice |
| `Chunks.NChunksBounds` | gcg/src/class_pricingcontroller.cpp:276-281 | the rounded-up number of chunks is positive and fits: all chunks but the last are full |
| `Chunks.ChunkInRange` | gcg/src/class_pricingcontroller.cpp:297 | every job's chunk lies in [0, nchunks) |
| `Chunks.ChunkMembers` | gcg/src/class_pricingcontroller.cpp:297 | a chunk is a nonempty interval of at most actchunksize problems |
| `Chunks.RotationStops` | gcg/src/class_pricingcontroller.cpp:585-600 | checkNextChunk refuses exactly the call that would return to the start |
| `Chunks.RotationVisitsAll` | gcg/src/class_pricingcontroller.cpp:585-600 | by then every chunk has been visited, none twice |
| `PricingControl.CompareIsStrictOrder` | gcg/src/class_pricingcontroller.cpp:142-199 | on jobs of different problems the comparison is a strict total order |
| `PricingControl.CompareMeansPrecedes` | gcg/src/class_pricingcontroller.cpp:142-199 | a job comes first exactly if its solver has the greater priority; with equal ones, if it is heuristic and the other one exact, or has had fewer heuristic iterations; then the greater score, then the smaller problem number |
| `PricingControl.PricingJob.Setup` | gcg/src/pricingjob.c:82-123 | first enabled solver, heuristic or exact, score by criterion; the count of heuristic iterations is reset only for a heuristic job |
| `PricingControl.Pricingcontroller.constructor` | gcg/src/class_pricingcontroller.cpp:270-309 | one job for each relevant problem, with chunk k/actchunksize, if any solver is enabled; no two jobs share a problem |
| `PricingControl.CreateJobs` | gcg/src/class_pricingcontroller.cpp:287-304 | the loop of initSol |
| `PricingControl.FirstEnabled` | gcg/src/class_pricingcontroller.cpp:293-301 | the inner loop of initSol finds the first enabled solver |
| `PricingControl.Pricingcontroller.InitPricing` | gcg/src/class_pricingcontroller.cpp:330-356 | the next chunk; each problem counts the generic nodes of its block; the iteration limit is the capped sum over all problems |
| `PricingControl.Pricingcontroller.GetGenericBranchconss` | gcg/src/class_pricingcontroller.cpp:202-246 | every problem gets one branching constraint for each generic node of its block |
| `PricingControl.Pricingcontroller.AddBranchcons` | gcg/src/class_pricingcontroller.cpp:227-240 | the search for the problem of a block: that problem and no other gets the constraint |
| `PricingControl.Pricingcontroller.ComputeMaxNIters` | gcg/src/class_pricingcontroller.cpp:347-351 | the loop that computes the iteration limit |
| `PricingControl.Pricingcontroller.MoveChunkForward` | gcg/src/class_pricingcontroller.cpp:338-340 | the rotation starts at the chunk after the last one used |
| `PricingControl.Pricingcontroller.CheckNextChunk` | gcg/src/class_pricingcontroller.cpp:585-600 | moves to the next chunk unless that is the start |
| `PricingControl.Pricingcontroller.SetupPriorityQueue` | gcg/src/class_pricingcontroller.cpp:368-397 | all jobs are reset and the queue holds exactly those of the current chunk, each once and with work left |
| `PricingControl.Pricingcontroller.QueuedWorkIsBudget` | gcg/src/class_pricingcontroller.cpp:347-397 | the work in the queue is then the sum of the budgets of the chunk's jobs, and at most the uncapped limit of initPricing |
| `PricingControl.Pricingcontroller.RemoveBest` | gcg/src/class_pricingcontroller.cpp:406 | the job taken out beats every job that stays: none has a solver of greater priority, and so on down to the score |
| `PricingControl.Pricingcontroller.GetNextPricingjob` | gcg/src/class_pricingcontroller.cpp:399-411 | the best job that is not done; discarded jobs are done; the work in the queue does not grow |
| `PricingControl.Pricingcontroller.EvaluatePricingjob` | gcg/src/class_pricingcontroller.cpp:466-529 | job and queue change as the value-level evaluation says, and the queue stays free of duplicates |
| `PricingControl.Pricingcontroller.NextSolver` | gcg/src/class_pricingcontroller.cpp:516-525 | the job goes to the next enabled solver, and is queued if there is one |
| `PricingControl.Pricingcontroller.PricingprobNextBranchcons` | gcg/src/class_pricingcontroller.cpp:413-434 | every job of the problem starts over at the next branching constraint |
| `PricingControl.Pricingcontroller.RunAndEvaluate` | gcg/src/class_pricingcontroller.cpp:455-529 | a run with its evaluation leaves strictly less work in the queue |
| `PricingControl.UpdateProb` | gcg/src/pricingprob.c:173-192 | status, the better lower bound, improving columns and solves, unless the solver was not applicable: then nothing changes |
| `PricingControl.ResetProb` | gcg/src/pricingprob.c:159-170 | the problem starts at its last branching constraint, unsolved and without a lower bound |
| `PricingControl.PricingLoop` | gcg/src/pricer_gcg.cpp:2872-2963 | for any answers and any decisions to abort: runs made plus work left never exceed the work at the start, and with a limit of at least that work the queue ends empty |
| `PricingControl.PriceChunk` | gcg/src/pricer_gcg.cpp:2872-2963 | initPricing, set-up and loop together: the computed limit empties the queue whenever the budgets of the chunk add up to at most the cap |
| `PricingControl.EveryJobOffered` | gcg/src/class_pricingcontroller.cpp:380-392 | every job is queued in one of the chunks that the rotation visits |
| `ColPool.Colpool.NoDuplicates` | gcg/src/colpool.c:280-301 | array, positions and hash table in agreement mean that no key is stored twice |
| `ColPool.Colpool.constructor` | gcg/src/colpool.c:159-192 | the empty pool is valid |
| `ColPool.Colpool.ColpoolDelCol` | gcg/src/colpool.c:221-258 | swap-with-last removal keeps positions, hash table and array in agreement and leaves all other columns alone |
| `ColPool.Colpool.Clear` | gcg/src/colpool.c:261-278 | the pool is empty and every column freed |
| `ColPool.Colpool.AddNewCol` | gcg/src/colpool.c:303-325 | a column that is not stored is appended, with its position |
| `ColPool.Colpool.AddCol` | gcg/src/colpool.c:280-301 | added exactly if its key is not stored; stored afterwards either way |
| `ColPool.Colpool.DelCol` | gcg/src/colpool.c:327-348 | the stored column of that key is removed, an error if there is none |
| `ColPool.Colpool.UpdateNode` | gcg/src/colpool.c:427-446 | at another node the pool is cleared, at the first one kept |
| `ColPool.Pricestore.constructor` | gcg/src/pricestore_gcg.c:85-126 | the empty store |
| `ColPool.Pricestore.AddCol` | gcg/src/pricestore_gcg.c:243-357 | a column that equals a stored one (up to being a ray) is freed, any other one appended |
| `ColPool.SurvivorsStay` | gcg/src/colpool.c:383-413 | the array that the price loop leaves is a permutation of the columns that stay |
| `ColPool.VerdictsConserve` | gcg/src/colpool.c:383-413 | the original columns are exactly those left, those handed over and those freed, each once |
| `ColPool.Colpool.MoveToStore` | gcg/src/colpool.c:393-404 | a column of negative reduced cost leaves the pool for the store, unfreed and with age 0; if the store holds an equal one, the column is freed while the pool still holds it |
| `ColPool.Colpool.GrowOlder` | gcg/src/colpool.c:405-412 | any other column is one older, and freed beyond the age limit |
| `ColPool.Colpool.PriceOne` | gcg/src/colpool.c:385-412 | one turn of the price loop, with nothing else changed, or a freed column that is about to be used |
| `ColPool.Colpool.AcceptedIffApart` | gcg/src/pricestore_gcg.c:288-339 | the store accepts the next column exactly if no column examined so far, and none that it held before, is equal to it |
| `ColPool.Colpool.PriceStep` | gcg/src/colpool.c:383-413 | one turn keeps the invariant: columns below are as they were, those above are treated, array and store are what the verdicts say; it goes wrong exactly at a column that is not apart from those examined |
| `ColPool.Colpool.ApartFromEmptyStore` | gcg/src/pricestore_gcg.c:288-339 | from an empty store the priced columns are apart exactly if no two of them are a ray and a point with the same entries |
| `ColPool.Colpool.Price` | gcg/src/colpool.c:351-425 | for any pool and store: if the priced columns are apart, every original column is examined exactly once, negative ones go to the store in descending order, aged ones are freed, the rest stay one older, and the pool stays valid; if and only if they are not, the loop meets a column that the store has freed and the pool still holds |
| `ColPool.Colpool.FatesOf` | gcg/src/colpool.c:383-413 | what becomes of each column of the pool, told from its reduced cost and age before: a negative one is in the store and no longer in the pool; any other one is a turn older, freed exactly if that exceeds the age limit, and otherwise still in the pool |
| `ColPool.PriceRayAndPoint` | gcg/src/colpool.c:351-425 | an input: a pool with a ray and a point that have the same single entry |
| `Classifiers.IndexClassifier.constructor` | gcg/src/class_indexclassifier.cpp:52-64 | all indices unclassified |
| `Classifiers.IndexClassifier.AssignIndexToClass` | gcg/src/class_indexclassifier.cpp:109-116 | one index changes its class |
| `Classifiers.IndexClassifier.FindEmptyClasses` | gcg/src/class_indexclassifier.cpp:318-334 | exactly the classes without indices, in ascending order |
| `Classifiers.IndexClassifier.DeleteClass` | gcg/src/class_indexclassifier.cpp:339-350 | the later classes move down by one, in all four vectors |
| `Classifiers.WithoutClassKeeps` | gcg/src/class_indexclassifier.cpp:339-350 | deleting an empty class keeps for each index who shares its class and the name, description and info of the class |
| `Classifiers.EmptyOnesShrink` | gcg/src/class_indexclassifier.cpp:337-351 | deleting from the back leaves the remaining empty classes at their numbers |
| `Classifiers.IndexClassifier.RemoveEmptyClasses` | gcg/src/class_indexclassifier.cpp:311-354 | only nonempty classes are left, the partition, unclassified indices and class data are kept, and the number of removed classes is returned |
| `Classifiers.IndexClassifier.MapClasses` | gcg/src/class_indexclassifier.cpp:122-145 | the mapping of classes, or a clash that refutes the duplicate |
| `Classifiers.IsInjective` | gcg/src/class_indexclassifier.cpp:147-158 | the nested loops decide whether two classes are mapped to one |
| `Classifiers.IndexClassifier.ClassifierIsDuplicateOfClassifier` | gcg/src/class_indexclassifier.cpp:118-161 | returns true exactly if the numbers of classes agree and the three conditions that the loops test hold for all indices |
| `Classifiers.DuplicatesIffSame` | gcg/src/class_indexclassifier.cpp:118-161 | if the other classifier classifies what this one classifies, those conditions hold exactly if the partitions coincide |
| `Classifiers.HalfClassifiedGoesUnnoticed` | gcg/src/class_indexclassifier.cpp:136-139 | if not, the partitions differ, and the check can only answer yes if such indices come first in their classes |
| `Classifiers.ClassifiedDuplicatesUnclassified` | gcg/src/class_indexclassifier.cpp:136-139 | an index in a class of its own passes as a duplicate of an unclassified one, but not the other way round |
| `Classifiers.DuplicateCheckDecides` | gcg/src/class_indexclassifier.cpp:118-161 | on classifiers without empty classes the check decides sameness of the partitions: the numbers of classes then agree by themselves |
| `Classifiers.ReduceClasses` | gcg/src/class_indexclassifier.cpp:275-309 | the mapping is onto the given number of classes, merges only classes into class 0 and none of them larger than one that stays apart |
| `Classifiers.GetAllSubsets` | gcg/src/class_indexclassifier.cpp:163-181 | the doubling loops produce the value-level list of subsets |
| `Classifiers.SubsetsComplete` | gcg/src/class_indexclassifier.cpp:163-181 | every subset of the given classes is in the list |
| `Classifiers.SubsetsDistinct` | gcg/src/class_indexclassifier.cpp:163-181 | no subset is in it twice, if the classes are distinct |

## Left out

- Floating-point tolerances (equality, integrality and positivity up to epsilon): comparisons are exact.
- Square roots: a function that is assumed to give a nonnegative root; division by zero gives an arbitrary value, so that
  sign safety holds for NaN-like results of beta and of the hybrid factor as well.
- The case in which center and LP duals coincide while the subgradient does not vanish: beta is then 0/0; only the
  sign results cover it.
- Memory management: allocation, growth policies and freeing are not modelled, except for the freed mark on columns.
- SCIP itself, LP solving, parameters, statistics, clocks and debug output: LP values, duals, reduced costs, pricing
  statuses, activities of rows and depths of nodes are inputs.
- Pruning of children by dominance, and the strips of checked blocks: the children are those created before pruning.
- Continuous components: the branch of Separate that skips one cannot be taken on an index set of integer variables.
- GenericBranching.InitBranch: it is assumed that a fractional original value comes from a fractional column of the
  block that represents it, and that the candidates are the fractional master variables. Continuous variables are those
  of a problem solved by discretization; without discretization the selection is that from the candidates.
- Disaggregation.Assemble: rays, the tolerances and the final rounding to bounds are left out, and the columns come
  sorted, as GCGsortPtrPtr is not part of this model. The branch for columns beyond the last block is not modelled; it
  cannot be taken while the columns meet the convexity constraint.
- Columns.Mass: rays count in the mass of a block, while the convexity constraint leaves them out, so that the theorems
  on block totals hold for LP solutions without rays; the branching rule warns that it is not compatible with unbounded
  problems.
- Sorting of strips: SCIP's sorting routines are not modelled; the comparison functions are.
- Search.FindFirstMax: priorities are unbounded integers, not 64-bit ones.
- Median.GetMedian: entries are integers; GCG keeps them as floating-point numbers.
- DualStabilization.Stabilization.UpdateStabcenterconsvals: the number of constraints never shrinks, as the cast of a
  negative difference would otherwise clear the wrong amount of memory; the same holds for cuts.
- DualStabilization.Stabilization.LinkingconsGetDual: linking constraints are equations, so no sign is claimed.
- DualStabilization.InfeasibilitiesMeasure: rows without any finite side are excluded, as GCG's assertion excludes them;
  for such a row the model takes the infinite side as 0.
- Lower bounds of Lagrangian relaxation and their use for early termination.
- The priority queue as a binary heap: it is a sequence from which the best job is taken.
- PricingControl.Pricingcontroller.InitPricing: a pricing problem exists only together with its job, so that without an
  enabled solver the limit is 0; there is nothing to run then.
- PricingControl.PricingLoop: when to abort is an arbitrary decision in each iteration; the criterion itself, a
  comparison of counters with parameters, is not modelled.
- Parallel pricing: the classes are sequential; the transition system `PricingLoop` covers any interleaving of the
  critical sections.
- StabilizationLoop.Run: in Farkas pricing there is no stabilization, so that it is the case of disabled stabilization.
- ColPool.Pricestore.AddCol: forced columns, scores and orthogonality; the price loop never forces a column.
- ColPool.Colpool.Price: ends where the loop would use a freed column, since what follows is undefined.
- Classifiers.ReduceClasses: the sorted order of the classes is an input, as the order of ties is unspecified.
- The detection of isomorphic blocks, the other branching rules, the classifiers' remaining accessors and the Benders
  plugins: they would add easy members, or rest on libraries that are not part of this model.
