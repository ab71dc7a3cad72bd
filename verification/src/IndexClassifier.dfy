/** Classifiers of indices: a partition into classes with names, and operations that renumber it in place. */
module Classifiers {

  // ---------- partitions ----------

  /** -1 stands for an unclassified index. */
  predicate WellNumbered(a: seq<int>, nClasses: nat) {
    forall i :: 0 <= i < |a| ==> -1 <= a[i] < nClasses
  }

  /** The same indices are classified, and the same pairs of them share a class. */
  ghost predicate SamePartition(a: seq<int>, b: seq<int>)
    requires |a| == |b|
  {
    && (forall i :: 0 <= i < |a| ==> (a[i] == -1 <==> b[i] == -1))
    && (forall i, j :: 0 <= i < |a| && 0 <= j < |a| ==> (a[i] == a[j] <==> b[i] == b[j]))
  }

  /** An index that a classifies and b does not. */
  ghost predicate HalfClassified(a: seq<int>, b: seq<int>, i: nat)
    requires |a| == |b| && i < |a|
  {
    a[i] != -1 && b[i] == -1
  }

  /** What classifierIsDuplicateOfClassifier finds out about two classifiers with equally many classes. */
  ghost predicate Duplicates(a: seq<int>, b: seq<int>)
    requires |a| == |b|
  {
    && (forall i :: 0 <= i < |a| && a[i] == -1 ==> b[i] == -1)
    && (forall i, j :: 0 <= i < j < |a| && a[i] == a[j] && b[i] != -1 ==> b[j] == b[i])
    && (forall i, j :: 0 <= i < |a| && 0 <= j < |a| && b[i] == b[j] != -1 ==> a[i] == a[j])
  }

  /** If b classifies what a classifies, the check decides whether the partitions coincide. */
  lemma DuplicatesIffSame(a: seq<int>, b: seq<int>)
    requires |a| == |b| && forall i :: 0 <= i < |a| ==> !HalfClassified(a, b, i)
    ensures Duplicates(a, b) <==> SamePartition(a, b)
  {
    if Duplicates(a, b) {
      forall i | 0 <= i < |a| ensures a[i] == -1 <==> b[i] == -1 {
        assert !HalfClassified(a, b, i);
      }
      forall i, j | 0 <= i < |a| && 0 <= j < |a| ensures a[i] == a[j] <==> b[i] == b[j] {
        assert !HalfClassified(a, b, i) && !HalfClassified(a, b, j);
        if a[i] == a[j] && a[i] != -1 { assert i == j || (if i < j then b[j] == b[i] else b[i] == b[j]); }
      }
    }
    if SamePartition(a, b) {
      forall i, j | 0 <= i < j < |a| && a[i] == a[j] && b[i] != -1 ensures b[j] == b[i] {
        assert a[i] == a[j] <==> b[i] == b[j];
      }
      forall i, j | 0 <= i < |a| && 0 <= j < |a| && b[i] == b[j] != -1 ensures a[i] == a[j] {
        assert a[i] == a[j] <==> b[i] == b[j];
      }
    }
  }

  /** If not, the partitions differ; and the check does not notice if such indices come first in their classes. */
  lemma HalfClassifiedGoesUnnoticed(a: seq<int>, b: seq<int>, k: nat)
    requires |a| == |b| && k < |a| && HalfClassified(a, b, k)
    ensures !SamePartition(a, b)
    ensures Duplicates(a, b) ==> forall i :: 0 <= i < k && a[i] == a[k] ==> HalfClassified(a, b, i)
  {
  }

  /** The smallest case: an index of its own class duplicates an unclassified one, but not the other way round. */
  lemma ClassifiedDuplicatesUnclassified()
    ensures Duplicates([0], [-1]) && !SamePartition([0], [-1]) && !Duplicates([-1], [0])
  {
    assert [-1][0] == -1 && [0][0] != -1;
  }

  // ---------- classifiers without empty classes ----------

  /** How many different classes occur. */
  function DistinctClasses(a: seq<int>): nat {
    if a == [] then 0
    else
      var n := |a| - 1;
      DistinctClasses(a[..n]) + if a[n] == -1 || a[n] in a[..n] then 0 else 1
  }

  lemma {:induction false} SameDistinctClasses(a: seq<int>, b: seq<int>)
    requires |a| == |b| && SamePartition(a, b)
    ensures DistinctClasses(a) == DistinctClasses(b)
  {
    if a != [] {
      var n := |a| - 1;
      forall i, j | 0 <= i < n && 0 <= j < n ensures a[..n][i] == a[..n][j] <==> b[..n][i] == b[..n][j] {
        assert a[i] == a[j] <==> b[i] == b[j];
      }
      SameDistinctClasses(a[..n], b[..n]);
      SameOccurrence(a, b, n);
    }
  }

  lemma SameOccurrence(a: seq<int>, b: seq<int>, n: nat)
    requires |a| == |b| && n < |a| && SamePartition(a, b)
    ensures a[n] in a[..n] <==> b[n] in b[..n]
  {
    if a[n] in a[..n] {
      var i :| 0 <= i < n && a[..n][i] == a[n];
      assert a[i] == a[n] <==> b[i] == b[n];
      assert b[..n][i] == b[n];
    }
    if b[n] in b[..n] {
      var i :| 0 <= i < n && b[..n][i] == b[n];
      assert a[i] == a[n] <==> b[i] == b[n];
      assert a[..n][i] == a[n];
    }
  }

  function ClassesOf(a: seq<int>): set<int> {
    set i | 0 <= i < |a| && a[i] != -1 :: a[i]
  }

  lemma {:induction false} DistinctClassesCount(a: seq<int>)
    ensures DistinctClasses(a) == |ClassesOf(a)|
  {
    if a != [] {
      var n := |a| - 1;
      DistinctClassesCount(a[..n]);
      forall c ensures c in ClassesOf(a) <==> c in ClassesOf(a[..n]) || (c == a[n] && c != -1) {
        if c in ClassesOf(a[..n]) {
          var i :| 0 <= i < n && a[..n][i] == c;
          assert a[i] == c;
        }
        if c in ClassesOf(a) && c != a[n] {
          var i :| 0 <= i < |a| && a[i] == c;
          assert a[..n][i] == c;
        }
      }
      assert ClassesOf(a) == ClassesOf(a[..n]) + if a[n] == -1 then {} else {a[n]};
    }
  }

  function Below(n: nat): set<int> {
    if n == 0 then {} else Below(n - 1) + {n - 1}
  }

  lemma {:induction false} CountBelow(n: nat)
    ensures |Below(n)| == n && forall c :: c in Below(n) <==> 0 <= c < n
  {
    if n > 0 { CountBelow(n - 1); }
  }

  /** The number of classes is determined by the partition if no class is empty. */
  lemma NoEmptyClassCount(a: seq<int>, n: nat)
    requires WellNumbered(a, n) && forall c :: 0 <= c < n ==> c in a
    ensures DistinctClasses(a) == n
  {
    CountBelow(n);
    forall c | c in Below(n) ensures c in ClassesOf(a) {
      assert c in a;
      var i :| 0 <= i < |a| && a[i] == c;
    }
    assert ClassesOf(a) == Below(n);
    DistinctClassesCount(a);
  }

  /**
   * Once both classifiers have lost their empty classes, the check (equal numbers of classes, no clash) decides
   * whether the partitions coincide, provided that the other classifier classifies what this one classifies.
   */
  lemma DuplicateCheckDecides(a: seq<int>, n: nat, b: seq<int>, m: nat)
    requires |a| == |b| && WellNumbered(a, n) && WellNumbered(b, m)
    requires (forall c :: 0 <= c < n ==> c in a) && (forall c :: 0 <= c < m ==> c in b)
    requires forall i :: 0 <= i < |a| ==> !HalfClassified(a, b, i)
    ensures n == m && Duplicates(a, b) <==> SamePartition(a, b)
  {
    DuplicatesIffSame(a, b);
    NoEmptyClassCount(a, n);
    NoEmptyClassCount(b, m);
    if SamePartition(a, b) { SameDistinctClasses(a, b); }
  }

  /** The mapping of classes after the indices of a prefix. */
  ghost predicate Mapped(a: seq<int>, b: seq<int>, mapping: seq<int>)
    requires |a| == |b| && WellNumbered(a, |mapping|)
  {
    && (forall i :: 0 <= i < |a| && a[i] == -1 ==> b[i] == -1)
    && (forall i :: 0 <= i < |a| && a[i] != -1 ==> b[i] == -1 || b[i] == mapping[a[i]])
    && (forall i, j :: 0 <= i < j < |a| && a[i] == a[j] && b[i] != -1 ==> b[j] == b[i])
    && (forall c :: 0 <= c < |mapping| && mapping[c] != -1 ==> MapsTo(a, b, c, mapping[c]))
  }

  ghost predicate MapsTo(a: seq<int>, b: seq<int>, c: int, d: int)
    requires |a| == |b|
  {
    exists i :: 0 <= i < |a| && a[i] == c && b[i] == d
  }

  ghost predicate Injective(mapping: seq<int>) {
    forall c, d :: 0 <= c < d < |mapping| && mapping[c] != -1 ==> mapping[c] != mapping[d]
  }

  lemma MappedDecides(a: seq<int>, b: seq<int>, mapping: seq<int>)
    requires |a| == |b| && WellNumbered(a, |mapping|) && Mapped(a, b, mapping)
    ensures Duplicates(a, b) <==> Injective(mapping)
  {
    if Duplicates(a, b) {
      forall c, d | 0 <= c < d < |mapping| && mapping[c] != -1 ensures mapping[c] != mapping[d] {
        assert MapsTo(a, b, c, mapping[c]);
      }
    }
    if Injective(mapping) {
      forall i, j | 0 <= i < |a| && 0 <= j < |a| && b[i] == b[j] != -1 ensures a[i] == a[j] {
        assert b[i] == mapping[a[i]] && b[j] == mapping[a[j]];
      }
    }
  }

  /** The values of the mapping that belong to the prefix of length i + 1. */
  lemma MappedStep(a: seq<int>, b: seq<int>, mapping: seq<int>, i: nat)
    requires |a| == |b| && i < |a| && WellNumbered(a, |mapping|) && Mapped(a[..i], b[..i], mapping)
    requires a[i] == -1 ==> b[i] == -1
    requires a[i] != -1 && mapping[a[i]] != -1 ==> mapping[a[i]] == b[i]
    ensures Mapped(a[..i + 1], b[..i + 1], if a[i] == -1 then mapping else mapping[a[i] := b[i]])
  {
    var after := if a[i] == -1 then mapping else mapping[a[i] := b[i]];
    forall c | 0 <= c < |after| && after[c] != -1 ensures MapsTo(a[..i + 1], b[..i + 1], c, after[c]) {
      if a[i] == c {
        assert a[..i + 1][i] == c && b[..i + 1][i] == after[c];
      } else {
        assert MapsTo(a[..i], b[..i], c, mapping[c]);
        var j :| 0 <= j < i && a[..i][j] == c && b[..i][j] == mapping[c];
        assert a[..i + 1][j] == c && b[..i + 1][j] == after[c];
      }
    }
    forall p, q | 0 <= p < q < i + 1 && a[p] == a[q] && b[p] != -1 ensures b[q] == b[p] {
      assert a[..i][p] == a[p] && b[..i][p] == b[p];
      if q < i { assert a[..i][q] == a[q] && b[..i][q] == b[q]; }
    }
    forall p | 0 <= p < i + 1 && a[p] != -1 ensures b[p] == -1 || b[p] == after[a[p]] {
      if p < i { assert a[..i][p] == a[p] && b[..i][p] == b[p]; }
    }
    forall p | 0 <= p < i + 1 && a[p] == -1 ensures b[p] == -1 {
      if p < i { assert a[..i][p] == a[p] && b[..i][p] == b[p]; }
    }
  }

  // ---------- removing classes, on values ----------

  /** What a classifier says about its indices. */
  datatype Snapshot = Snapshot(classes: seq<int>, names: seq<string>, descriptions: seq<string>, infos: seq<int>)
  {
    predicate WellFormed() {
      |names| == |descriptions| == |infos| && WellNumbered(classes, |names|)
    }
  }

  /** Same unclassified indices, same pairs in a class, and every class keeps its name, description and info. */
  ghost predicate KeepsIndices(s: Snapshot, t: Snapshot)
    requires s.WellFormed() && t.WellFormed()
  {
    && |t.classes| == |s.classes|
    && SamePartition(s.classes, t.classes)
    && forall i :: 0 <= i < |s.classes| && s.classes[i] != -1 ==> SameClass(s, s.classes[i], t, t.classes[i])
  }

  ghost predicate SameClass(s: Snapshot, c: int, t: Snapshot, d: int) {
    && 0 <= c < |s.names| == |s.descriptions| == |s.infos|
    && 0 <= d < |t.names| == |t.descriptions| == |t.infos|
    && t.names[d] == s.names[c] && t.descriptions[d] == s.descriptions[c] && t.infos[d] == s.infos[c]
  }

  function Removed<T>(s: seq<T>, c: nat): (r: seq<T>)
    requires c < |s|
    ensures |r| == |s| - 1
  {
    s[..c] + s[c + 1..]
  }

  function Lowered(x: int, c: nat): int {
    if x > c then x - 1 else x
  }

  function LoweredAll(a: seq<int>, c: nat): (r: seq<int>)
    ensures |r| == |a| && forall i :: 0 <= i < |a| ==> r[i] == Lowered(a[i], c)
  {
    seq(|a|, i requires 0 <= i < |a| => Lowered(a[i], c))
  }

  function WithoutClass(s: Snapshot, c: nat): Snapshot
    requires s.WellFormed() && c < |s.names|
  {
    Snapshot(LoweredAll(s.classes, c), Removed(s.names, c), Removed(s.descriptions, c), Removed(s.infos, c))
  }

  lemma WithoutClassKeeps(s: Snapshot, c: nat)
    requires s.WellFormed() && c < |s.names| && c !in s.classes
    ensures WithoutClass(s, c).WellFormed() && KeepsIndices(s, WithoutClass(s, c))
  {
    var t := WithoutClass(s, c);
    forall i | 0 <= i < |s.classes| && s.classes[i] != -1 ensures SameClass(s, s.classes[i], t, t.classes[i]) {
      assert s.classes[i] in s.classes;
    }
    forall i, j | 0 <= i < |s.classes| && 0 <= j < |s.classes|
      ensures s.classes[i] == s.classes[j] <==> t.classes[i] == t.classes[j] {
      assert s.classes[i] in s.classes && s.classes[j] in s.classes;
    }
  }

  lemma KeepsTransitive(s: Snapshot, t: Snapshot, u: Snapshot)
    requires s.WellFormed() && t.WellFormed() && u.WellFormed() && KeepsIndices(s, t) && KeepsIndices(t, u)
    ensures KeepsIndices(s, u)
  {
    forall i | 0 <= i < |s.classes| && s.classes[i] != -1 ensures SameClass(s, s.classes[i], u, u.classes[i]) {
      assert SameClass(s, s.classes[i], t, t.classes[i]) && SameClass(t, t.classes[i], u, u.classes[i]);
    }
    forall i, j | 0 <= i < |s.classes| && 0 <= j < |s.classes|
      ensures s.classes[i] == s.classes[j] <==> u.classes[i] == u.classes[j] {
      assert s.classes[i] == s.classes[j] <==> t.classes[i] == t.classes[j];
      assert t.classes[i] == t.classes[j] <==> u.classes[i] == u.classes[j];
    }
  }

  /** The listed classes, in ascending order, are the empty ones. */
  ghost predicate EmptyOnes(classes: seq<int>, n: nat, empty: seq<nat>) {
    && (forall x, y :: 0 <= x < y < |empty| ==> empty[x] < empty[y])
    && (forall x :: 0 <= x < |empty| ==> empty[x] < n)
    && (forall c :: 0 <= c < n ==> (c in empty <==> c !in classes))
  }

  /** Once the last empty class is gone, the other empty ones are still the same. */
  lemma EmptyOnesShrink(classes: seq<int>, n: nat, empty: seq<nat>)
    requires EmptyOnes(classes, n, empty) && WellNumbered(classes, n) && |empty| > 0
    ensures EmptyOnes(LoweredAll(classes, empty[|empty| - 1]), n - 1, empty[..|empty| - 1])
  {
    var d, rest := empty[|empty| - 1], empty[..|empty| - 1];
    var after := LoweredAll(classes, d);
    assert d in empty;
    forall c | 0 <= c < n - 1 ensures c in rest <==> c !in after {
      var was := if c < d then c else c + 1;
      LoweredMembers(classes, d, c);
      assert was in empty <==> was !in classes;
      if was in empty {
        var x :| 0 <= x < |empty| && empty[x] == was;
        assert rest[x] == was;
      }
      if c in rest {
        var x :| 0 <= x < |rest| && rest[x] == c;
        assert empty[x] == c && c < d;
      }
    }
  }

  lemma LoweredMembers(classes: seq<int>, d: nat, c: nat)
    requires d !in classes
    ensures c in LoweredAll(classes, d) <==> (if c < d then c else c + 1) in classes
  {
    var was := if c < d then c else c + 1;
    if was in classes {
      var i :| 0 <= i < |classes| && classes[i] == was;
      assert LoweredAll(classes, d)[i] == c;
    }
    if c in LoweredAll(classes, d) {
      var i :| 0 <= i < |classes| && LoweredAll(classes, d)[i] == c;
      assert classes[i] in classes;
    }
  }

  class IndexClassifier {
    var nClasses: nat
    var indicesToClasses: seq<int>
    var classNames: seq<string>
    var classDescriptions: seq<string>
    var classDecompInfo: seq<int>

    ghost predicate Valid()
      reads this
    {
      && WellNumbered(indicesToClasses, nClasses)
      && |classNames| == |classDescriptions| == |classDecompInfo| == nClasses
    }

    constructor (givenNClasses: nat, givenNIndices: nat)
      ensures Valid() && nClasses == givenNClasses
      ensures |indicesToClasses| == givenNIndices && forall i :: 0 <= i < givenNIndices ==> indicesToClasses[i] == -1
    {
      nClasses := givenNClasses;
      indicesToClasses := seq(givenNIndices, i => -1);
      classNames, classDescriptions := seq(givenNClasses, i => ""), seq(givenNClasses, i => "");
      classDecompInfo := seq(givenNClasses, i => 0);
    }

    method AssignIndexToClass(givenIndex: nat, givenClassindex: int)
      requires Valid() && givenIndex < |indicesToClasses| && -1 <= givenClassindex < nClasses
      modifies `indicesToClasses
      ensures Valid() && indicesToClasses == old(indicesToClasses)[givenIndex := givenClassindex]
    {
      indicesToClasses := indicesToClasses[givenIndex := givenClassindex];
    }

    function State(): Snapshot
      reads this
    {
      Snapshot(indicesToClasses, classNames, classDescriptions, classDecompInfo)
    }

    // ---------- empty classes ----------

    /** One flag for each class: does any index belong to it? */
    method FindEmptyClasses() returns (toDelete: seq<nat>)
      requires Valid()
      ensures EmptyOnes(indicesToClasses, nClasses, toDelete)
    {
      var nIndicesPerClasses: seq<nat> := seq(nClasses, c => 0);
      for i := 0 to |indicesToClasses|
        invariant |nIndicesPerClasses| == nClasses
        invariant forall c :: 0 <= c < nClasses ==> (nIndicesPerClasses[c] == 0 <==> c !in indicesToClasses[..i])
      {
        var c := indicesToClasses[i];
        assert indicesToClasses[..i + 1] == indicesToClasses[..i] + [c];
        if c != -1 { nIndicesPerClasses := nIndicesPerClasses[c := nIndicesPerClasses[c] + 1]; }
      }
      assert indicesToClasses[..|indicesToClasses|] == indicesToClasses;
      toDelete := [];
      for c := 0 to nClasses
        invariant EmptyOnes(indicesToClasses, c, toDelete)
      {
        if nIndicesPerClasses[c] == 0 { toDelete := toDelete + [c]; }
      }
    }

    /** Deletes an empty class; the numbers of the later ones go down by one. */
    method DeleteClass(classindex: nat)
      requires Valid() && classindex < nClasses && classindex !in indicesToClasses
      modifies this
      ensures Valid() && nClasses == old(nClasses) - 1
      ensures State() == old(WithoutClass(State(), classindex))
    {
      WithoutClassKeeps(State(), classindex);
      for j := 0 to |indicesToClasses|
        invariant |indicesToClasses| == |old(indicesToClasses)|
        invariant forall i :: 0 <= i < j ==> indicesToClasses[i] == Lowered(old(indicesToClasses)[i], classindex)
        invariant forall i :: j <= i < |indicesToClasses| ==> indicesToClasses[i] == old(indicesToClasses)[i]
        invariant nClasses == old(nClasses) && classNames == old(classNames)
        invariant classDescriptions == old(classDescriptions) && classDecompInfo == old(classDecompInfo)
      {
        if indicesToClasses[j] > classindex {
          indicesToClasses := indicesToClasses[j := indicesToClasses[j] - 1];
        }
      }
      assert indicesToClasses == LoweredAll(old(indicesToClasses), classindex);
      classNames := classNames[..classindex] + classNames[classindex + 1..];
      classDescriptions := classDescriptions[..classindex] + classDescriptions[classindex + 1..];
      classDecompInfo := classDecompInfo[..classindex] + classDecompInfo[classindex + 1..];
      nClasses := nClasses - 1;
    }

    /** Only nonempty classes are left, and nothing changes for the indices but the numbers of their classes. */
    method RemoveEmptyClasses() returns (removed: nat)
      requires Valid()
      modifies this
      ensures Valid() && KeepsIndices(old(State()), State())
      ensures forall c :: 0 <= c < nClasses ==> c in indicesToClasses
      ensures removed == old(nClasses) - nClasses
      ensures exists empty: seq<nat> :: EmptyOnes(old(indicesToClasses), old(nClasses), empty) && removed == |empty|
    {
      if nClasses == 0 {
        assert EmptyOnes(indicesToClasses, nClasses, []);
        return 0;
      }
      var toDelete := FindEmptyClasses();
      for i := 0 to |toDelete|
        invariant Valid() && KeepsIndices(old(State()), State()) && nClasses == old(nClasses) - i
        invariant EmptyOnes(indicesToClasses, nClasses, toDelete[..|toDelete| - i])
      {
        ghost var s, rest := State(), toDelete[..|toDelete| - i];
        var classindex := toDelete[|toDelete| - 1 - i];
        assert rest[|rest| - 1] == classindex && classindex in rest &&
          rest[..|rest| - 1] == toDelete[..|toDelete| - (i + 1)];
        EmptyOnesShrink(indicesToClasses, nClasses, rest);
        WithoutClassKeeps(s, classindex);
        DeleteClass(classindex);
        KeepsTransitive(old(State()), s, State());
      }
      removed := |toDelete|;
    }

    // ---------- duplicates ----------

    /** The classes of the other classifier that the classes of this one are mapped to, unless they clash. */
    method MapClasses(other: IndexClassifier) returns (clash: bool, classMapping: seq<int>)
      requires Valid() && |indicesToClasses| == |other.indicesToClasses|
      ensures |classMapping| == nClasses
      ensures if clash then !Duplicates(indicesToClasses, other.indicesToClasses)
        else Mapped(indicesToClasses, other.indicesToClasses, classMapping)
    {
      ghost var a, b := indicesToClasses, other.indicesToClasses;
      clash, classMapping := false, seq(nClasses, c => -1);
      for i := 0 to |indicesToClasses|
        invariant |classMapping| == nClasses && !clash
        invariant Mapped(a[..i], b[..i], classMapping)
      {
        var compClass := indicesToClasses[i];
        if compClass != -1 {
          if classMapping[compClass] != -1 && classMapping[compClass] != other.indicesToClasses[i] {
            assert MapsTo(a[..i], b[..i], compClass, classMapping[compClass]);
            ghost var j :| 0 <= j < i && a[..i][j] == compClass && b[..i][j] == classMapping[compClass];
            assert a[j] == a[i] && b[j] != -1 && b[i] != b[j];
            return true, classMapping;
          }
          MappedStep(a, b, classMapping, i);
          classMapping := classMapping[compClass := other.indicesToClasses[i]];
        } else {
          if other.indicesToClasses[i] != -1 { return true, classMapping; }
          MappedStep(a, b, classMapping, i);
        }
      }
      assert a[..|a|] == a && b[..|a|] == b;
    }

    method ClassifierIsDuplicateOfClassifier(other: IndexClassifier) returns (duplicate: bool)
      requires Valid() && |indicesToClasses| == |other.indicesToClasses|
      ensures duplicate <==> nClasses == other.nClasses && Duplicates(indicesToClasses, other.indicesToClasses)
    {
      if nClasses != other.nClasses { return false; }
      var clash, classMapping := MapClasses(other);
      if clash { return false; }
      MappedDecides(indicesToClasses, other.indicesToClasses, classMapping);
      duplicate := IsInjective(classMapping);
    }
  }

  // ---------- merging small classes ----------

  function Members(a: seq<int>, c: int): nat {
    multiset(a)[c]
  }

  /** The classes, sorted by the numbers of their members; ties in any order. */
  ghost predicate SortedClasses(a: seq<int>, n: nat, order: seq<nat>) {
    && |order| == n && (forall x :: 0 <= x < n ==> order[x] < n) && (forall c: nat :: c < n ==> c in order)
    && (forall x, y :: 0 <= x < y < n ==> order[x] != order[y] && Members(a, order[x]) <= Members(a, order[y]))
  }

  /**
   * A mapping onto fewer classes: the larger classes stay apart, and the others, none of which has more members,
   * become class 0. An empty mapping if there is nothing to reduce or too much.
   */
  method ReduceClasses(indicesToClasses: seq<int>, nClasses: nat, order: seq<nat>, givenMaxNumber: nat)
    returns (mapping: seq<nat>)
    requires givenMaxNumber > 0 && SortedClasses(indicesToClasses, nClasses, order)
    ensures if nClasses <= givenMaxNumber || nClasses >= 2 * givenMaxNumber
      then mapping == [] else |mapping| == nClasses
    ensures forall c :: 0 <= c < |mapping| ==> mapping[c] < givenMaxNumber
    ensures mapping != [] ==> forall i: nat :: i < givenMaxNumber ==> i in mapping
    ensures forall c, d :: 0 <= c < d < |mapping| && mapping[c] == mapping[d] ==> mapping[c] == 0
    ensures forall c, d :: 0 <= c < |mapping| && 0 <= d < |mapping| && mapping[c] == 0 < mapping[d] ==>
      Members(indicesToClasses, c) <= Members(indicesToClasses, d)
  {
    if nClasses <= givenMaxNumber || nClasses >= 2 * givenMaxNumber { return []; }
    mapping := seq(nClasses, c => 0);
    var enlargedclass := nClasses - givenMaxNumber;
    for i := 1 to givenMaxNumber
      invariant |mapping| == nClasses
      invariant forall x :: 0 <= x < nClasses ==>
        mapping[order[x]] == if enlargedclass < x < enlargedclass + i then x - enlargedclass else 0
    {
      mapping := mapping[order[enlargedclass + i] := i];
    }
    forall i: nat | i < givenMaxNumber ensures i in mapping {
      assert mapping[order[enlargedclass + i]] == i;
    }
    forall c | 0 <= c < nClasses ensures mapping[c] < givenMaxNumber {
      var x := PositionOf(indicesToClasses, nClasses, order, c);
    }
    forall c, d | 0 <= c < nClasses && 0 <= d < nClasses && mapping[c] == 0 < mapping[d]
      ensures Members(indicesToClasses, c) <= Members(indicesToClasses, d)
    {
      var x := PositionOf(indicesToClasses, nClasses, order, c);
      var y := PositionOf(indicesToClasses, nClasses, order, d);
    }
    forall c, d | 0 <= c < d < nClasses && mapping[c] == mapping[d] ensures mapping[c] == 0 {
      var x := PositionOf(indicesToClasses, nClasses, order, c);
      var y := PositionOf(indicesToClasses, nClasses, order, d);
    }
  }

  lemma PositionOf(a: seq<int>, n: nat, order: seq<nat>, c: nat) returns (x: nat)
    requires SortedClasses(a, n, order) && c < n
    ensures x < n && order[x] == c
  {
    assert c in order;
    x :| x < n && order[x] == c;
  }

  // ---------- subsets ----------

  function WithEach(subsets: seq<seq<int>>, x: int): (r: seq<seq<int>>)
    ensures |r| == |subsets| && forall k :: 0 <= k < |r| ==> r[k] == subsets[k] + [x]
  {
    seq(|subsets|, k requires 0 <= k < |subsets| => subsets[k] + [x])
  }

  function AllSubsets(s: seq<int>): seq<seq<int>> {
    if s == [] then [[]]
    else
      var before := AllSubsets(s[..|s| - 1]);
      before + WithEach(before, s[|s| - 1])
  }

  function Elements(s: seq<int>): set<int> {
    set x | x in s
  }

  lemma {:induction false} SubsetsInside(s: seq<int>, k: nat)
    requires k < |AllSubsets(s)|
    ensures Elements(AllSubsets(s)[k]) <= Elements(s)
  {
    if s != [] {
      var n, before := |s| - 1, AllSubsets(s[..|s| - 1]);
      SubsetsInside(s[..n], if k < |before| then k else k - |before|);
      assert Elements(s) == Elements(s[..n]) + {s[n]};
      if k >= |before| { ElementsAppend(before[k - |before|], s[n]); }
    }
  }

  lemma ElementsAppend(s: seq<int>, x: int)
    ensures Elements(s + [x]) == Elements(s) + {x}
  {
  }

  /** Every set of the given classes is among the subsets. */
  lemma {:induction false} SubsetsComplete(s: seq<int>, t: set<int>) returns (k: nat)
    requires t <= Elements(s)
    ensures k < |AllSubsets(s)| && Elements(AllSubsets(s)[k]) == t
  {
    if s == [] {
      k := 0;
    } else {
      var first, x := s[..|s| - 1], s[|s| - 1];
      assert s == first + [x];
      ElementsAppend(first, x);
      var i := SubsetsComplete(first, t - {x});
      k := WithOrWithout(s, t, i);
    }
  }

  lemma WithOrWithout(s: seq<int>, t: set<int>, i: nat) returns (k: nat)
    requires s != [] && i < |AllSubsets(s[..|s| - 1])|
    requires Elements(AllSubsets(s[..|s| - 1])[i]) == t - {s[|s| - 1]}
    ensures k < |AllSubsets(s)| && Elements(AllSubsets(s)[k]) == t
  {
    var before, x := AllSubsets(s[..|s| - 1]), s[|s| - 1];
    ElementsAppend(before[i], x);
    k := if x in t then |before| + i else i;
  }

  /** No set appears twice if the classes are distinct. */
  lemma {:induction false} SubsetsDistinct(s: seq<int>, j: nat, k: nat)
    requires (forall x, y :: 0 <= x < y < |s| ==> s[x] != s[y]) && j < k < |AllSubsets(s)|
    ensures Elements(AllSubsets(s)[j]) != Elements(AllSubsets(s)[k])
  {
    if s != [] {
      var n, before := |s| - 1, AllSubsets(s[..|s| - 1]);
      if k < |before| {
        SubsetsDistinct(s[..n], j, k);
      } else if j >= |before| {
        SubsetsDistinct(s[..n], j - |before|, k - |before|);
        WithLast(s, j - |before|);
        WithLast(s, k - |before|);
      } else {
        WithLast(s, j);
        assert s[n] in AllSubsets(s)[k];
      }
    }
  }

  /** A subset of the first elements does not contain the last one. */
  lemma WithLast(s: seq<int>, k: nat)
    requires s != [] && (forall x, y :: 0 <= x < y < |s| ==> s[x] != s[y]) && k < |AllSubsets(s[..|s| - 1])|
    ensures s[|s| - 1] !in Elements(AllSubsets(s[..|s| - 1])[k])
    ensures Elements(AllSubsets(s[..|s| - 1])[k] + [s[|s| - 1]]) - {s[|s| - 1]} == Elements(AllSubsets(s[..|s| - 1])[k])
  {
    SubsetsInside(s[..|s| - 1], k);
  }

  method GetAllSubsets(givenClassindices: seq<int>) returns (subsets: seq<seq<int>>)
    ensures subsets == AllSubsets(givenClassindices)
  {
    subsets := [[]];
    for i := 0 to |givenClassindices|
      invariant subsets == AllSubsets(givenClassindices[..i])
    {
      var subsetTemp := subsets;
      for j := 0 to |subsetTemp|
        invariant |subsetTemp| == |subsets|
        invariant forall k :: 0 <= k < |subsets| ==>
          subsetTemp[k] == if k < j then subsets[k] + [givenClassindices[i]] else subsets[k]
      {
        subsetTemp := subsetTemp[j := subsetTemp[j] + [givenClassindices[i]]];
      }
      assert subsetTemp == WithEach(subsets, givenClassindices[i]);
      assert givenClassindices[..i + 1][..i] == givenClassindices[..i];
      subsets := Appended(subsets, subsetTemp);
    }
    assert givenClassindices[..|givenClassindices|] == givenClassindices;
  }

  method Appended(subsets: seq<seq<int>>, more: seq<seq<int>>) returns (all: seq<seq<int>>)
    ensures all == subsets + more
  {
    all := subsets;
    for j := 0 to |more|
      invariant all == subsets + more[..j]
    {
      all := all + [more[j]];
    }
  }

  method IsInjective(classMapping: seq<int>) returns (injective: bool)
    ensures injective <==> Injective(classMapping)
  {
    for c := 0 to |classMapping|
      invariant forall p, q :: 0 <= p < c && p < q < |classMapping| && classMapping[p] != -1 ==>
        classMapping[p] != classMapping[q]
    {
      if classMapping[c] != -1 {
        for j := c + 1 to |classMapping|
          invariant forall q :: c < q < j ==> classMapping[c] != classMapping[q]
        {
          if classMapping[c] == classMapping[j] { return false; }
        }
      }
    }
    injective := true;
  }
}
