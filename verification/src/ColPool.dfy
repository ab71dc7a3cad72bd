/** The column pool: an array of columns, their positions, and a hash table that must agree with both. */
module ColPool {

  /** What identifies a column; the variables are sorted. */
  datatype Key = Key(probnr: int, isray: bool, entries: seq<(int, real)>)
  {
    /** GCGcolIsEq, by which the price store recognises a column, does not look at isray. */
    predicate IsEq(other: Key) {
      probnr == other.probnr && entries == other.entries
    }
  }

  datatype ColState = ColState(redcost: real, age: nat, freed: bool)

  class GcgCol {
    const key: Key
    var pos: int
    var age: nat
    var redcost: real
    var freed: bool

    /** Everything but the position. */
    function State(): ColState
      reads this
    {
      ColState(redcost, age, freed)
    }

    constructor (key: Key, redcost: real)
      ensures this.key == key && State() == ColState(redcost, 0, false)
    {
      this.key, this.redcost, pos, age, freed := key, redcost, -1, 0, false;
    }
  }

  ghost function StatesOf(cols: seq<GcgCol>): (s: seq<ColState>)
    reads cols
    ensures |s| == |cols| && forall i :: 0 <= i < |cols| ==> s[i] == cols[i].State()
  {
    seq(|cols|, i requires 0 <= i < |cols| reads cols => cols[i].State())
  }

  /** What becomes of a column when the pool is priced. */
  datatype Verdict = Priced | Aged | Stays

  function Judge(s: ColState, agelimit: int): Verdict {
    if s.redcost < 0.0 then Priced else if agelimit >= 0 && s.age + 1 > agelimit then Aged else Stays
  }

  /** What pricing makes of a column. */
  function Treated(s: ColState, agelimit: int): ColState {
    match Judge(s, agelimit)
    case Priced => s.(age := 0)
    case Aged => s.(age := s.age + 1, freed := true)
    case Stays => s.(age := s.age + 1)
  }

  // ---------- removal, on values ----------

  /** The last element takes the place of the removed one. */
  function SwapRemove<T>(s: seq<T>, pos: nat): (r: seq<T>)
    requires pos < |s|
    ensures |r| == |s| - 1
  {
    s[pos := s[|s| - 1]][..|s| - 1]
  }

  lemma SwapRemoveMultiset<T>(s: seq<T>, pos: nat)
    requires pos < |s|
    ensures multiset(SwapRemove(s, pos)) == multiset(s) - multiset{s[pos]}
  {
    var n := |s| - 1;
    assert s == s[..n] + [s[n]];
    if pos == n {
      assert SwapRemove(s, pos) == s[..n];
    } else {
      assert SwapRemove(s, pos) == s[..n][pos := s[n]];
    }
  }

  /** Pricing from the last position down to the first: what the array holds in the end. */
  function Survivors<T>(s: seq<T>, v: seq<Verdict>): (r: seq<T>)
    requires |s| == |v|
    ensures |r| <= |s|
  {
    if s == [] then []
    else
      var rest := Survivors(s[1..], v[1..]);
      if v[0].Stays? then [s[0]] + rest else SwapRemove([s[0]] + rest, 0)
  }

  /** The elements of one verdict, the last one first. */
  function Chosen<T>(s: seq<T>, v: seq<Verdict>, w: Verdict): (r: seq<T>)
    requires |s| == |v|
  {
    if s == [] then [] else Chosen(s[1..], v[1..], w) + (if v[0] == w then [s[0]] else [])
  }

  /** No column gets lost and none is kept twice: the survivors are exactly the columns that stay. */
  lemma {:induction false} SurvivorsStay<T>(s: seq<T>, v: seq<Verdict>)
    requires |s| == |v|
    ensures multiset(Survivors(s, v)) == multiset(Chosen(s, v, Stays))
  {
    if s != [] {
      SurvivorsStay(s[1..], v[1..]);
      var all := [s[0]] + Survivors(s[1..], v[1..]);
      SwapRemoveMultiset(all, 0);
    }
  }

  lemma VerdictsConserve<T>(s: seq<T>, v: seq<Verdict>)
    requires |s| == |v|
    ensures multiset(s) == multiset(Survivors(s, v)) + multiset(Chosen(s, v, Priced)) + multiset(Chosen(s, v, Aged))
  {
    SurvivorsStay(s, v);
    var stay, price, age := multiset(Chosen(s, v, Stays)), multiset(Chosen(s, v, Priced)), multiset(Chosen(s, v, Aged));
    forall e: T | e in multiset(s) + stay + price + age
      ensures multiset(s)[e] == stay[e] + price[e] + age[e]
    {
      ChosenCount(s, v, e);
    }
  }

  lemma {:induction false} ChosenCount<T>(s: seq<T>, v: seq<Verdict>, e: T)
    requires |s| == |v|
    ensures multiset(s)[e] ==
            multiset(Chosen(s, v, Stays))[e] + multiset(Chosen(s, v, Priced))[e] + multiset(Chosen(s, v, Aged))[e]
  {
    if s != [] {
      ChosenCount(s[1..], v[1..], e);
      HeadCount(s, e);
      ChosenStep(s, v, Stays, e);
      ChosenStep(s, v, Priced, e);
      ChosenStep(s, v, Aged, e);
    }
  }

  lemma HeadCount<T>(s: seq<T>, e: T)
    requires |s| > 0
    ensures multiset(s)[e] == multiset(s[1..])[e] + (if s[0] == e then 1 else 0)
  {
    assert s == [s[0]] + s[1..];
  }

  lemma ChosenStep<T>(s: seq<T>, v: seq<Verdict>, w: Verdict, e: T)
    requires |s| == |v| > 0
    ensures multiset(Chosen(s, v, w))[e] == multiset(Chosen(s[1..], v[1..], w))[e] +
      (if v[0] == w && s[0] == e then 1 else 0)
  {
  }

  lemma SwapRemoveInside<T>(a: seq<T>, b: seq<T>)
    requires |b| > 0
    ensures SwapRemove(a + b, |a|) == a + SwapRemove(b, 0)
  {
  }

  lemma {:induction false} ChosenMember<T>(s: seq<T>, v: seq<Verdict>, w: Verdict, e: T) returns (i: nat)
    requires |s| == |v| && e in Chosen(s, v, w)
    ensures i < |s| && s[i] == e && v[i] == w
  {
    if v[0] == w && s[0] == e {
      i := 0;
    } else {
      i := ChosenMember(s[1..], v[1..], w, e);
      i := i + 1;
    }
  }

  lemma {:induction false} MemberChosen<T>(s: seq<T>, v: seq<Verdict>, w: Verdict, i: nat)
    requires |s| == |v| && i < |s| && v[i] == w
    ensures s[i] in Chosen(s, v, w)
  {
    if i > 0 { MemberChosen(s[1..], v[1..], w, i - 1); }
  }

  /** The array after position c - 1 has been examined as well. */
  lemma ArrayStep<T>(O: seq<T>, v: seq<Verdict>, c: nat, cols: seq<T>)
    requires |O| == |v| && 0 < c <= |O| && cols == O[..c] + Survivors(O[c..], v[c..])
    ensures cols[c - 1] == O[c - 1]
    ensures O[..c - 1] + Survivors(O[c - 1..], v[c - 1..]) == if v[c - 1].Stays? then cols else SwapRemove(cols, c - 1)
  {
    var rest := Survivors(O[c..], v[c..]);
    assert cols == O[..c - 1] + ([O[c - 1]] + rest);
    assert O[c - 1..][1..] == O[c..] && v[c - 1..][1..] == v[c..];
    SwapRemoveInside(O[..c - 1], [O[c - 1]] + rest);
  }

  lemma StoreStep<T>(O: seq<T>, v: seq<Verdict>, c: nat, before: seq<T>, w: Verdict)
    requires |O| == |v| && 0 < c <= |O|
    ensures before + Chosen(O[c - 1..], v[c - 1..], w) ==
            before + Chosen(O[c..], v[c..], w) + (if v[c - 1] == w then [O[c - 1]] else [])
  {
    assert O[c - 1..][1..] == O[c..] && v[c - 1..][1..] == v[c..];
  }

  // ---------- the price store ----------

  class Pricestore {
    var cols: seq<GcgCol>

    constructor ()
      ensures cols == []
    {
      cols := [];
    }

    /** A column that the store already holds is freed instead of being added. */
    method AddCol(col: GcgCol)
      modifies this, col`freed
      ensures if exists x :: x in old(cols) && x.key.IsEq(col.key) then cols == old(cols) && col.freed
              else cols == old(cols) + [col] && col.freed == old(col.freed)
    {
      for i := 0 to |cols|
        invariant cols == old(cols) && col.freed == old(col.freed)
        invariant forall j :: 0 <= j < i ==> !cols[j].key.IsEq(col.key)
      {
        if cols[i].key.IsEq(col.key) {
          col.freed := true;
          return;
        }
      }
      cols := cols + [col];
    }
  }

  // ---------- the pool ----------

  class Colpool {
    const agelimit: int
    var cols: seq<GcgCol>
    var hashtable: map<Key, GcgCol>
    var nodenr: int
    var maxncols: nat
    var ncalls: nat
    var ncolsfound: nat

    /** Every column knows its position, and the hash table holds exactly the columns of the array. */
    ghost predicate Valid()
      reads `cols, `hashtable, `maxncols, cols
    {
      && (forall i :: 0 <= i < |cols| ==> cols[i].pos == i && !cols[i].freed)
      && (forall i :: 0 <= i < |cols| ==> cols[i].key in hashtable && hashtable[cols[i].key] == cols[i])
      && (forall k :: k in hashtable ==> hashtable[k] in cols && hashtable[k].key == k)
      && |cols| <= maxncols
    }

    /** So the pool holds no two columns of the same key. */
    lemma NoDuplicates(i: nat, j: nat)
      requires Valid() && i < j < |cols|
      ensures cols[i] != cols[j] && cols[i].key != cols[j].key
    {
      assert hashtable[cols[i].key] == cols[i] && hashtable[cols[j].key] == cols[j];
    }

    constructor (agelimit: int)
      requires agelimit >= -1
      ensures Valid() && cols == [] && nodenr == -1 && this.agelimit == agelimit
    {
      this.agelimit := agelimit;
      cols, hashtable, nodenr, maxncols, ncalls, ncolsfound := [], map[], -1, 0, 0, 0;
    }

    /** Removes a stored column; the last column moves to its position. */
    method ColpoolDelCol(col: GcgCol, freecol: bool)
      requires Valid() && col in cols
      modifies `cols, `hashtable, cols
      ensures Valid() && cols == SwapRemove(old(cols), old(col.pos)) && col !in cols
      ensures hashtable == old(hashtable) - {col.key}
      ensures col.State() == old(col.State()).(freed := freecol)
      ensures forall c :: c in old(cols) && c != col ==> c.State() == old(c.State())
    {
      var pos := col.pos;
      hashtable := hashtable - {col.key};
      if freecol { col.freed := true; }
      if pos < |cols| - 1 {
        cols := cols[pos := cols[|cols| - 1]];
        cols[pos].pos := pos;
      }
      cols := cols[..|cols| - 1];
      forall k | k in hashtable ensures hashtable[k] in cols {
        var i :| 0 <= i < |old(cols)| && old(cols)[i] == hashtable[k];
        assert i != pos;
        assert cols[if i == |cols| then pos else i] == hashtable[k];
      }
    }

    /** Frees all columns, the last one first. */
    method Clear()
      requires Valid()
      modifies `cols, `hashtable, cols
      ensures Valid() && cols == [] && hashtable == map[]
      ensures forall c :: c in old(cols) ==> c.freed
    {
      while |cols| > 0
        invariant Valid() && cols <= old(cols)
        invariant forall j :: |cols| <= j < |old(cols)| ==> old(cols)[j].freed
      {
        ColpoolDelCol(cols[|cols| - 1], true);
      }
    }

    /** Appends a column that the pool does not hold. */
    method AddNewCol(col: GcgCol)
      requires Valid() && col.key !in hashtable && !col.freed
      modifies `cols, `hashtable, `maxncols, col`pos
      ensures Valid() && cols == old(cols) + [col] && hashtable == old(hashtable)[col.key := col]
    {
      col.pos := |cols|;
      cols := cols + [col];
      maxncols := if maxncols > |cols| then maxncols else |cols|;
      hashtable := hashtable[col.key := col];
    }

    method AddCol(col: GcgCol) returns (success: bool)
      requires Valid() && !col.freed
      modifies `cols, `hashtable, `maxncols, col`pos
      ensures Valid() && success == (col.key !in old(hashtable)) && col.key in hashtable
      ensures cols == if success then old(cols) + [col] else old(cols)
      ensures hashtable == if success then old(hashtable)[col.key := col] else old(hashtable)
    {
      success := false;
      if col.key !in hashtable {
        AddNewCol(col);
        success := true;
      }
    }

    /** Removes the stored column with the key of the given one, if there is one. */
    method DelCol(col: GcgCol, freecol: bool) returns (ok: bool)
      requires Valid()
      modifies `cols, `hashtable, cols
      ensures Valid() && ok == (col.key in old(hashtable))
      ensures hashtable == old(hashtable) - {col.key}
      ensures ok ==> cols == SwapRemove(old(cols), old(hashtable[col.key].pos))
      ensures ok ==> old(hashtable)[col.key].freed == freecol
      ensures !ok ==> cols == old(cols)
    {
      if col.key !in hashtable { return false; }
      ColpoolDelCol(hashtable[col.key], freecol);
      ok := true;
    }

    /** At another node the columns may violate branching decisions, so the pool starts over. */
    method UpdateNode(node: nat)
      requires Valid()
      modifies `cols, `hashtable, `nodenr, cols
      ensures Valid() && nodenr == node
      ensures if 0 <= old(nodenr) != node then cols == [] && hashtable == map[]
        else cols == old(cols) && hashtable == old(hashtable)
    {
      if nodenr < 0 {
        nodenr := node;
      } else if nodenr != node {
        Clear();
        nodenr := node;
      }
    }

    // ---------- pricing ----------

    ghost function States(): (s: seq<ColState>)
      reads `cols, cols
      ensures |s| == |cols|
    {
      StatesOf(cols)
    }

    ghost function Verdicts(s: seq<ColState>): (v: seq<Verdict>)
      ensures |v| == |s| && forall i :: 0 <= i < |s| ==> v[i] == Judge(s[i], agelimit)
    {
      seq(|s|, i requires 0 <= i < |s| => Judge(s[i], agelimit))
    }

    /** The price store accepts the column: it holds none that it takes for the same. */
    ghost predicate Accepted(col: GcgCol, store: Pricestore)
      reads store
    {
      forall x :: x in store.cols ==> !x.key.IsEq(col.key)
    }

    /** The pool still holds a column that has been freed. */
    ghost predicate HoldsFreed()
      reads `cols, cols
    {
      exists x :: x in cols && x.freed
    }

    /**
     * A column of negative reduced cost moves from the pool to the price store. If the store takes it for a duplicate,
     * it frees the column that the pool still holds; `dangling` says that it is about to be used.
     */
    method MoveToStore(col: GcgCol, store: Pricestore) returns (dangling: bool)
      requires Valid() && col in cols
      modifies `cols, `hashtable, cols, store
      ensures dangling == !old(Accepted(col, store))
      ensures dangling ==> cols == old(cols) && col.freed
      ensures !dangling ==>
        && Valid() && cols == SwapRemove(old(cols), old(col.pos)) && store.cols == old(store.cols) + [col]
        && col.State() == old(col.State()).(age := 0)
        && (forall x :: x in old(cols) && x != col ==> x.State() == old(x.State()))
    {
      store.AddCol(col);
      dangling := col.freed;
      if !dangling {
        ColpoolDelCol(col, false);
        col.age := 0;
      }
    }

    /** Any other column gets older, and is freed beyond the age limit. */
    method GrowOlder(col: GcgCol)
      requires Valid() && col in cols
      modifies `cols, `hashtable, cols
      ensures Valid() && cols == if col.freed then SwapRemove(old(cols), old(col.pos)) else old(cols)
      ensures col.State() ==
              old(col.State()).(age := old(col.age) + 1, freed := agelimit >= 0 && old(col.age) + 1 > agelimit)
      ensures forall x :: x in old(cols) && x != col ==> x.State() == old(x.State())
    {
      col.age := col.age + 1;
      if agelimit >= 0 && col.age > agelimit {
        ColpoolDelCol(col, true);
      }
    }

    /** The column at position c is examined. */
    method PriceOne(c: nat, store: Pricestore) returns (dangling: bool)
      requires Valid() && c < |cols|
      modifies `cols, `hashtable, cols, store
      ensures dangling == (old(cols[c].redcost) < 0.0 && !old(Accepted(cols[c], store)))
      ensures dangling ==> HoldsFreed()
      ensures !dangling ==>
        && Valid()
        && cols == (if old(Judge(cols[c].State(), agelimit)).Stays? then old(cols) else SwapRemove(old(cols), c))
        && store.cols ==
           old(store.cols) + (if old(Judge(cols[c].State(), agelimit)).Priced? then [old(cols[c])] else [])
        && old(cols[c]).State() == Treated(old(cols[c].State()), agelimit)
        && (forall x :: x in old(cols) && x != old(cols[c]) ==> x.State() == old(x.State()))
    {
      dangling := false;
      if cols[c].redcost < 0.0 {
        dangling := MoveToStore(cols[c], store);
        assert dangling ==> cols[c] in cols && cols[c].freed;
      } else {
        GrowOlder(cols[c]);
      }
    }

    /** Positions c and above have been examined; the ones below are as they were. */
    ghost predicate Progress(O: seq<GcgCol>, S: seq<ColState>, c: nat, before: seq<GcgCol>, store: Pricestore)
      requires |O| == |S| && c <= |O|
      reads `cols, `hashtable, `maxncols, cols, O, store
    {
      && Valid()
      && cols == O[..c] + Survivors(O[c..], Verdicts(S)[c..])
      && store.cols == before + Chosen(O[c..], Verdicts(S)[c..], Priced)
      && Examined(O, S, c)
    }

    ghost predicate Examined(O: seq<GcgCol>, S: seq<ColState>, c: nat)
      requires |O| == |S| && c <= |O|
      reads O
    {
      forall i :: 0 <= i < |O| ==> O[i].State() == if i < c then S[i] else Treated(S[i], agelimit)
    }

    /** No two priced columns, nor a priced column and one that the store had before, are the same to the store. */
    ghost predicate Apart(O: seq<GcgCol>, v: seq<Verdict>, before: seq<GcgCol>)
      requires |O| == |v|
    {
      && (forall i, x :: 0 <= i < |O| && v[i].Priced? && x in before ==> !x.key.IsEq(O[i].key))
      && (forall i, j :: 0 <= i < j < |O| && v[i].Priced? && v[j].Priced? ==> !O[j].key.IsEq(O[i].key))
    }

    /** The same for the columns that have been examined when position c is reached. */
    ghost predicate ApartFrom(O: seq<GcgCol>, v: seq<Verdict>, before: seq<GcgCol>, c: nat)
      requires |O| == |v|
    {
      && (forall i, x :: c <= i < |O| && v[i].Priced? && x in before ==> !x.key.IsEq(O[i].key))
      && (forall i, j :: c <= i < j < |O| && v[i].Priced? && v[j].Priced? ==> !O[j].key.IsEq(O[i].key))
    }

    ghost predicate DistinctColumns(O: seq<GcgCol>) {
      forall i, j :: 0 <= i < j < |O| ==> O[i] != O[j]
    }

    /**
     * From an empty store, pricing is safe exactly if no two priced columns are a ray and a point with the same
     * entries: the hash table tells them apart, the price store does not.
     */
    lemma ApartFromEmptyStore(v: seq<Verdict>)
      requires Valid() && |v| == |cols|
      ensures Apart(cols, v, []) <==>
              forall i, j :: 0 <= i < j < |cols| && v[i].Priced? && v[j].Priced? && cols[j].key.IsEq(cols[i].key)
                ==> cols[i].key.isray == cols[j].key.isray
    {
      forall i, j | 0 <= i < j < |cols| && cols[j].key.IsEq(cols[i].key)
        ensures cols[i].key.isray != cols[j].key.isray
      {
        NoDuplicates(i, j);
      }
    }

    /** The store accepts the next column exactly if that one is apart from all examined so far. */
    lemma AcceptedIffApart(O: seq<GcgCol>, S: seq<ColState>, c: nat, before: seq<GcgCol>, store: Pricestore)
      requires |O| == |S| && 0 < c <= |O| && ApartFrom(O, Verdicts(S), before, c) && Progress(O, S, c, before, store)
      requires Verdicts(S)[c - 1].Priced?
      ensures Accepted(O[c - 1], store) <==> ApartFrom(O, Verdicts(S), before, c - 1)
    {
      var v := Verdicts(S);
      if ApartFrom(O, v, before, c - 1) {
        forall x | x in store.cols ensures !x.key.IsEq(O[c - 1].key) {
          if x !in before {
            var j := ChosenMember(O[c..], v[c..], Priced, x);
            assert O[c + j] == x && v[c + j].Priced?;
          }
        }
      }
      if Accepted(O[c - 1], store) {
        forall j | c <= j < |O| && v[j].Priced? ensures !O[j].key.IsEq(O[c - 1].key) {
          MemberChosen(O[c..], v[c..], Priced, j - c);
          assert O[j] in store.cols;
        }
      }
    }

    /** The same, and no other column changes, whether it is still in the pool or not. */
    method PriceOneOf(ghost O: seq<GcgCol>, c: nat, store: Pricestore) returns (dangling: bool)
      requires Valid() && c < |cols|
      modifies `cols, `hashtable, cols, store
      ensures dangling == (old(cols[c].redcost) < 0.0 && !old(Accepted(cols[c], store)))
      ensures dangling ==> HoldsFreed()
      ensures !dangling ==>
        && Valid()
        && cols == (if old(Judge(cols[c].State(), agelimit)).Stays? then old(cols) else SwapRemove(old(cols), c))
        && store.cols ==
           old(store.cols) + (if old(Judge(cols[c].State(), agelimit)).Priced? then [old(cols[c])] else [])
        && old(cols[c]).State() == Treated(old(cols[c].State()), agelimit)
        && (forall x :: x in O && x != old(cols[c]) ==> x.State() == old(x.State()))
    {
      dangling := PriceOne(c, store);
      forall x | !dangling && x in O && x != old(cols[c]) ensures x.State() == old(x.State()) {
        if x !in old(cols) { assert unchanged(x); }
      }
    }

    method PriceStep(ghost O: seq<GcgCol>, ghost S: seq<ColState>, c: nat, ghost before: seq<GcgCol>, store: Pricestore)
      returns (dangling: bool)
      requires |O| == |S| && 0 < c <= |O| && DistinctColumns(O)
      requires Progress(O, S, c, before, store) && ApartFrom(O, Verdicts(S), before, c)
      modifies `cols, `hashtable, cols, store
      ensures dangling ==> HoldsFreed()
      ensures dangling == !ApartFrom(O, Verdicts(S), before, c - 1)
      ensures !dangling ==> Progress(O, S, c - 1, before, store)
    {
      NextArray(O, S, c, before, store);
      NextApart(O, S, c, before, store);
      dangling := PriceOneOf(O, c - 1, store);
      if !dangling {
        forall i | 0 <= i < |O| ensures O[i].State() == if i < c - 1 then S[i] else Treated(S[i], agelimit) {
          if i != c - 1 { assert O[i] != O[c - 1]; }
        }
      }
    }

    /** What array and store become when column c - 1 has been examined. */
    lemma NextArray(O: seq<GcgCol>, S: seq<ColState>, c: nat, before: seq<GcgCol>, store: Pricestore)
      requires |O| == |S| && 0 < c <= |O| && Progress(O, S, c, before, store)
      ensures c <= |cols| && cols[c - 1] == O[c - 1] && cols[c - 1].State() == S[c - 1]
      ensures O[..c - 1] + Survivors(O[c - 1..], Verdicts(S)[c - 1..]) ==
              if Judge(S[c - 1], agelimit).Stays? then cols else SwapRemove(cols, c - 1)
      ensures before + Chosen(O[c - 1..], Verdicts(S)[c - 1..], Priced) ==
              store.cols + (if Judge(S[c - 1], agelimit).Priced? then [O[c - 1]] else [])
    {
      ArrayStep(O, Verdicts(S), c, cols);
      StoreStep(O, Verdicts(S), c, before, Priced);
    }

    lemma NextApart(O: seq<GcgCol>, S: seq<ColState>, c: nat, before: seq<GcgCol>, store: Pricestore)
      requires |O| == |S| && 0 < c <= |O| && Progress(O, S, c, before, store)
      requires ApartFrom(O, Verdicts(S), before, c)
      ensures S[c - 1].redcost < 0.0 && !Accepted(O[c - 1], store) <==> !ApartFrom(O, Verdicts(S), before, c - 1)
    {
      if S[c - 1].redcost < 0.0 {
        AcceptedIffApart(O, S, c, before, store);
      } else {
        assert !Verdicts(S)[c - 1].Priced?;
      }
    }

    method PriceLoop(ghost O: seq<GcgCol>, ghost S: seq<ColState>, ghost before: seq<GcgCol>, store: Pricestore)
      returns (dangling: bool)
      requires |O| == |S| == |cols| && cols == O && DistinctColumns(O) && Progress(O, S, |O|, before, store)
      modifies `cols, `hashtable, cols, store
      ensures dangling ==> HoldsFreed()
      ensures dangling == !ApartFrom(O, Verdicts(S), before, 0)
      ensures !dangling ==> Progress(O, S, 0, before, store)
    {
      var c := |cols|;
      dangling := false;
      while c > 0
        invariant 0 <= c <= |O| && Progress(O, S, c, before, store) && ApartFrom(O, Verdicts(S), before, c)
        invariant forall x :: x in cols ==> x in O
      {
        dangling := PriceStep(O, S, c, before, store);
        if dangling { return; }
        c := c - 1;
        Subset(O, Verdicts(S), c);
      }
    }

    lemma Subset(O: seq<GcgCol>, v: seq<Verdict>, c: nat)
      requires |O| == |v| && c <= |O|
      ensures forall x :: x in O[..c] + Survivors(O[c..], v[c..]) ==> x in O
    {
      SurvivorsStay(O[c..], v[c..]);
      forall x | x in Survivors(O[c..], v[c..]) ensures x in O {
        assert x in multiset(Chosen(O[c..], v[c..], Stays));
        var i := ChosenMember(O[c..], v[c..], Stays, x);
      }
    }

    lemma Started(store: Pricestore)
      requires Valid()
      ensures DistinctColumns(cols) && Progress(cols, States(), |cols|, store.cols, store)
    {
      forall i, j | 0 <= i < j < |cols| ensures cols[i] != cols[j] { NoDuplicates(i, j); }
      assert cols[..|cols|] == cols && cols[|cols|..] == [];
    }

    lemma Finished(O: seq<GcgCol>, S: seq<ColState>, before: seq<GcgCol>, store: Pricestore)
      requires |O| == |S| && Progress(O, S, 0, before, store)
      ensures cols == Survivors(O, Verdicts(S)) && store.cols == before + Chosen(O, Verdicts(S), Priced)
    {
      assert O[0..] == O && Verdicts(S)[0..] == Verdicts(S);
      assert O[..0] == [];
    }

    /** What the loop has done in the end. */
    ghost predicate AllPriced(O: seq<GcgCol>, S: seq<ColState>, before: seq<GcgCol>, store: Pricestore)
      requires |O| == |S|
      reads `cols, store, O
    {
      && cols == Survivors(O, Verdicts(S))
      && store.cols == before + Chosen(O, Verdicts(S), Priced)
      && Examined(O, S, 0)
    }

    method PriceAll(store: Pricestore) returns (dangling: bool)
      requires Valid()
      modifies `cols, `hashtable, cols, store
      ensures dangling ==> HoldsFreed()
      ensures dangling == !Apart(old(cols), Verdicts(old(States())), old(store.cols))
      ensures !dangling ==> Valid() && AllPriced(old(cols), old(States()), old(store.cols), store)
    {
      ghost var O, S, before := cols, States(), store.cols;
      Started(store);
      dangling := PriceLoop(O, S, before, store);
      if !dangling { Finished(O, S, before, store); }
    }

    /**
     * Every column is examined exactly once, although deletion moves columns while the loop runs: those of negative
     * reduced cost go to the price store, the aged ones are freed, the others stay and are one older. The loop gets
     * that far exactly if the priced columns are apart; otherwise the pool is left with a freed column, which the
     * loop goes on to use.
     */
    method Price(store: Pricestore) returns (foundvars: bool, dangling: bool)
      requires Valid()
      modifies `cols, `hashtable, `ncalls, `ncolsfound, cols, store
      ensures ncalls == old(ncalls) + 1
      ensures dangling <==> !Apart(old(cols), Verdicts(old(States())), old(store.cols))
      ensures dangling ==> HoldsFreed()
      ensures !dangling ==>
        && Valid() && AllPriced(old(cols), old(States()), old(store.cols), store)
        && ncolsfound == old(ncolsfound) + |store.cols| - |old(store.cols)|
        && foundvars == (|store.cols| > |old(store.cols)|)
    {
      ncalls := ncalls + 1;
      assert States() == old(States());
      var oldncols := |store.cols|;
      foundvars := false;
      dangling := PriceAll(store);
      if !dangling {
        ncolsfound := ncolsfound + |store.cols| - oldncols;
        foundvars := |store.cols| - oldncols > 0;
      }
    }

    ghost predicate AllFates(O: seq<GcgCol>, S: seq<ColState>, store: Pricestore)
      requires |O| == |S|
      reads `cols, store, O
    {
      forall i :: 0 <= i < |O| ==> Fate(O[i], S[i].redcost, S[i].age, store)
    }

    /** What the loop has done in the end, column by column. */
    lemma FatesOf(O: seq<GcgCol>, S: seq<ColState>, before: seq<GcgCol>, store: Pricestore)
      requires |O| == |S| && DistinctColumns(O) && AllPriced(O, S, before, store)
      requires forall k :: 0 <= k < |S| ==> !S[k].freed
      ensures AllFates(O, S, store)
    {
      forall i | 0 <= i < |O| ensures Fate(O[i], S[i].redcost, S[i].age, store) { FateOf(O, S, before, store, i); }
    }

    /** What pricing does with a column of the given reduced cost and age. */
    ghost predicate Fate(col: GcgCol, redcost: real, age: nat, store: Pricestore)
      reads `cols, store, col
    {
      && (redcost < 0.0 ==> col in store.cols && col !in cols && col.age == 0 && !col.freed)
      && (redcost >= 0.0 && agelimit >= 0 && age + 1 > agelimit ==> col.freed && col !in cols)
      && (redcost >= 0.0 && (agelimit < 0 || age + 1 <= agelimit) ==> col in cols && col.age == age + 1 && !col.freed)
    }

    lemma FateOf(O: seq<GcgCol>, S: seq<ColState>, before: seq<GcgCol>, store: Pricestore, i: nat)
      requires |O| == |S| && i < |O| && DistinctColumns(O) && AllPriced(O, S, before, store)
      requires forall k :: 0 <= k < |S| ==> !S[k].freed
      ensures Fate(O[i], S[i].redcost, S[i].age, store)
    {
      var v := Verdicts(S);
      SurvivorsStay(O, v);
      assert O[i].State() == Treated(S[i], agelimit);
      if v[i].Priced? { MemberChosen(O, v, Priced, i); }
      if v[i].Stays? {
        MemberChosen(O, v, Stays, i);
        assert O[i] in multiset(Chosen(O, v, Stays));
      } else if O[i] in cols {
        assert O[i] in multiset(Chosen(O, v, Stays));
        var j := ChosenMember(O, v, Stays, O[i]);
      }
    }
  }

  /** A ray and a point with the same entries, both of negative reduced cost: the pool holds both, and pricing fails. */
  method PriceRayAndPoint() returns (pool: Colpool, store: Pricestore, dangling: bool)
    ensures dangling && pool.HoldsFreed()
  {
    pool := new Colpool(-1);
    store := new Pricestore();
    var ray := new GcgCol(Key(0, true, [(0, 1.0)]), -1.0);
    var point := new GcgCol(Key(0, false, [(0, 1.0)]), -1.0);
    pool.AddNewCol(ray);
    pool.AddNewCol(point);
    NotApart(pool, ray, point, store.cols);
    var foundvars: bool;
    foundvars, dangling := pool.Price(store);
  }

  lemma NotApart(pool: Colpool, a: GcgCol, b: GcgCol, before: seq<GcgCol>)
    requires pool.cols == [a, b] && a.key.IsEq(b.key) && a.redcost < 0.0 && b.redcost < 0.0
    ensures !pool.Apart(pool.cols, pool.Verdicts(pool.States()), before)
  {
    var v := pool.Verdicts(pool.States());
    assert v[0].Priced? && v[1].Priced? && pool.cols[1].key.IsEq(pool.cols[0].key);
  }
}
