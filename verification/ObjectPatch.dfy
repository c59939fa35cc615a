/**
 * Changing several scalars of one object, and undoing the change.
 *
 * A change names a resolved field path, the scalar it expects and the scalar it
 * writes. The module decides exactly when a list of changes can be written in every
 * order, and exactly when its inverses undo it.
 */
module ObjectPatch {
  import opened Wrappers
  import opened FieldPath
  import opened Manifest

  datatype Change = Change(path: Path, current: Scalar, desired: Scalar)

  predicate DistinctTargets(rs: seq<Change>) {
    forall i, j :: 0 <= i < j < |rs| ==> rs[i].path != rs[j].path
  }

  predicate ValidChange(r: Change) {
    r.path != [] && r.current != r.desired
  }

  function Inverse(r: Change): Change {
    Change(r.path, r.desired, r.current)
  }

  function Inverses(rs: seq<Change>): (r: seq<Change>)
    ensures |r| == |rs|
    ensures forall i :: 0 <= i < |rs| ==> r[i] == Inverse(rs[i])
  {
    seq(|rs|, i requires 0 <= i < |rs| => Inverse(rs[i]))
  }

  // ----- Permutations -----

  predicate Distinct<T(==)>(xs: seq<T>) {
    forall i, j :: 0 <= i < j < |xs| ==> xs[i] != xs[j]
  }

  /** A list without repetitions that is included in one no longer than itself is a permutation of it. */
  lemma {:induction false} IncludedIsPermutation<T>(xs: seq<T>, ys: seq<T>)
    requires Distinct(xs) && |ys| <= |xs|
    requires forall x :: x in xs ==> x in ys
    ensures multiset(xs) == multiset(ys)
  {
    if xs == [] {
      assert ys == [];
    } else {
      assert xs[0] in ys;
      var k :| 0 <= k < |ys| && ys[k] == xs[0];
      var rest := ys[..k] + ys[k + 1..];
      forall x | x in xs[1..]
        ensures x in rest
      {
        assert x in xs && x != xs[0];
        var j :| 0 <= j < |ys| && ys[j] == x;
        assert j < k ==> rest[j] == x;
        assert j > k ==> rest[j - 1] == x;
      }
      IncludedIsPermutation(xs[1..], rest);
      assert xs == [xs[0]] + xs[1..];
      assert ys == ys[..k] + [ys[k]] + ys[k + 1..];
    }
  }

  ghost predicate Permutes(xs: seq<Change>, ys: seq<Change>) {
    multiset(xs) == multiset(ys)
  }

  // ----- Materializing a list of changes on the object -----

  function WriteOf(r: Change): Write {
    Write(r.path, r.desired)
  }

  function Writes(rs: seq<Change>): (ws: seq<Write>)
    ensures |ws| == |rs|
    ensures forall i :: 0 <= i < |rs| ==> ws[i] == Write(rs[i].path, rs[i].desired)
  {
    seq(|rs|, i requires 0 <= i < |rs| => Write(rs[i].path, rs[i].desired))
  }

  /** Each change finds its current value in `v`. */
  predicate CurrentValuesMatch(v: Value, rs: seq<Change>) {
    forall i :: 0 <= i < |rs| ==> Get(v, rs[i].path) == Some(Leaf(rs[i].current))
  }

  /** The object that materializing `rs` on `v` must produce; `None` when it is refused. */
  function Materialized(v: Value, rs: seq<Change>): Option<Value>
  {
    if CurrentValuesMatch(v, rs) then ApplyAll(v, Writes(rs)) else None
  }

  predicate AllNameSafe(rs: seq<Change>) {
    forall i :: 0 <= i < |rs| ==> NameSafe(rs[i].path)
  }

  /** No change renames a list item that an earlier or later change selects, by its old or its new name. */
  predicate Independent(rs: seq<Change>) {
    forall i, j :: 0 <= i < |rs| && 0 <= j < |rs| && i != j ==> !Disturbs(WriteOf(rs[i]), rs[j].path)
  }

  predicate WellFormed(rs: seq<Change>) {
    DistinctTargets(rs) && forall i :: 0 <= i < |rs| ==> ValidChange(rs[i])
  }

  lemma WritesAreApplicable(v: Value, rs: seq<Change>)
    requires WellFormed(rs) && CurrentValuesMatch(v, rs) && Undisturbed(Writes(rs))
    ensures Applicable(v, Writes(rs)) && DistinctPaths(Writes(rs))
  {
  }

  lemma IndependentInAnyOrder(xs: seq<Change>, ys: seq<Change>)
    requires Independent(xs) && WellFormed(ys) && Permutes(xs, ys)
    ensures Independent(ys) && Undisturbed(Writes(ys))
  {
    PermutedMembers(xs, ys);
    forall i, j | 0 <= i < |ys| && 0 <= j < |ys| && i != j
      ensures !Disturbs(WriteOf(ys[i]), ys[j].path)
    {
      assert ys[i] in xs && ys[j] in xs;
      var a :| 0 <= a < |xs| && xs[a] == ys[i];
      var b :| 0 <= b < |xs| && xs[b] == ys[j];
      assert ys[if i < j then i else j].path != ys[if i < j then j else i].path;
      assert a != b;
    }
  }

  lemma PermutedDistinct(xs: seq<Change>, ys: seq<Change>)
    requires WellFormed(xs) && multiset(xs) == multiset(ys)
    ensures WellFormed(ys)
  {
    PermutedMembers(xs, ys);
    forall i, j | 0 <= i < j < |ys|
      ensures ys[i].path != ys[j].path
    {
      if ys[i].path == ys[j].path {
        assert ys[i] in xs && ys[j] in xs;
        var a :| 0 <= a < |xs| && xs[a] == ys[i];
        var b :| 0 <= b < |xs| && xs[b] == ys[j];
        assert a == b;
        TwiceInMultiset(ys, i, j);
        OnceInMultiset(xs, a);
        assert false;
      }
    }
    forall i | 0 <= i < |ys|
      ensures ValidChange(ys[i])
    {
      assert ys[i] in xs;
    }
  }

  lemma TwiceInMultiset<T>(xs: seq<T>, i: nat, j: nat)
    requires i < j < |xs| && xs[i] == xs[j]
    ensures multiset(xs)[xs[i]] >= 2
  {
    assert xs == xs[..i] + [xs[i]] + xs[i + 1..j] + [xs[j]] + xs[j + 1..];
  }

  lemma OnceInMultiset(xs: seq<Change>, a: nat)
    requires a < |xs| && DistinctTargets(xs)
    ensures multiset(xs)[xs[a]] == 1
  {
    assert xs == xs[..a] + [xs[a]] + xs[a + 1..];
    assert xs[a] !in xs[..a] && xs[a] !in xs[a + 1..];
  }

  /** Independent changes give one object, in whatever order they are materialized. */
  lemma MaterializedInAnyOrder(v: Value, xs: seq<Change>, ys: seq<Change>)
    requires WellFormed(xs) && CurrentValuesMatch(v, xs) && Independent(xs) && Permutes(xs, ys)
    ensures WellFormed(ys) && CurrentValuesMatch(v, ys)
    ensures Materialized(v, xs).Some? && Materialized(v, xs) == Materialized(v, ys)
  {
    PermutedDistinct(xs, ys);
    MatchInAnyOrder(v, xs, ys);
    IndependentInAnyOrder(xs, ys);
    IndependentInAnyOrder(xs, xs);
    WritesAreApplicable(v, xs);
    WritesAreApplicable(v, ys);
    WritesPermuted(xs, ys);
    WritesCommute(v, Writes(xs), Writes(ys));
    ApplyAllIsOverlay(v, Writes(xs));
  }

  lemma MatchInAnyOrder(v: Value, xs: seq<Change>, ys: seq<Change>)
    requires CurrentValuesMatch(v, xs) && Permutes(xs, ys)
    ensures CurrentValuesMatch(v, ys)
  {
    PermutedMembers(xs, ys);
    forall i | 0 <= i < |ys|
      ensures Get(v, ys[i].path) == Some(Leaf(ys[i].current))
    {
      assert ys[i] in xs;
    }
  }

  // ----- The exact condition for every order -----

  /** The list is accepted in every order, always with the same object. */
  ghost predicate AcceptedInEveryOrder(v: Value, rs: seq<Change>) {
    forall xs :: Permutes(xs, rs) ==> Materialized(v, xs).Some? && Materialized(v, xs) == Materialized(v, rs)
  }

  /** A list that starts with a rename and a change that the rename disturbs is refused. */
  lemma DisturbedIsRefused(v: Value, rs: seq<Change>)
    requires |rs| >= 2 && CurrentValuesMatch(v, rs) && ValidChange(rs[0]) && Disturbs(WriteOf(rs[0]), rs[1].path)
    ensures Materialized(v, rs) == None
  {
    var ws := Writes(rs);
    assert ws[1..][0] == ws[1];
    UnsafePathReadsItsName(v, rs[0].path);
    SetIsOverlay(v, [], rs[0].path, rs[0].desired);
    DisturbedIsLost(v, ws[0], rs[1].path, rs[1].desired);
    var renamed := Set(v, ws[0].path, ws[0].value).value;
    assert ApplyAll(renamed, ws[1..]) == None;
  }

  /** A rename and a change below the renamed item are accepted only with the rename last. */
  lemma RenameComesLast(v: Value, rename: Change, below: Change)
    requires CurrentValuesMatch(v, [rename, below]) && ValidChange(rename) && ValidChange(below)
    requires Disturbs(WriteOf(rename), below.path) && NameSafe(below.path)
    ensures Materialized(v, [rename, below]) == None && Materialized(v, [below, rename]).Some?
  {
    var cs := [rename, below];
    DisturbedIsRefused(v, cs);
    var swapped := [below, rename];
    assert swapped[0] == cs[1] && swapped[1] == cs[0];
    ApplyAllIsOverlay(v, Writes(swapped));
  }

  lemma ToFront(rs: seq<Change>, i: nat) returns (xs: seq<Change>)
    requires i < |rs|
    ensures xs == [rs[i]] + rs[..i] + rs[i + 1..] && Permutes(xs, rs)
  {
    xs := [rs[i]] + rs[..i] + rs[i + 1..];
    assert rs == rs[..i] + [rs[i]] + rs[i + 1..];
  }

  lemma TwoToFront(rs: seq<Change>, i: nat, j: nat) returns (xs: seq<Change>)
    requires i < |rs| && j < |rs| && i != j
    ensures Permutes(xs, rs) && |xs| >= 2 && xs[0] == rs[i] && xs[1] == rs[j]
  {
    var ys := ToFront(rs, j);
    xs := ToFront(ys, if i < j then i + 1 else i);
  }

  /** Matching changes that are not independent have an order that is refused. */
  lemma RefusedOrder(v: Value, rs: seq<Change>) returns (xs: seq<Change>)
    requires WellFormed(rs) && CurrentValuesMatch(v, rs) && !Independent(rs)
    ensures Permutes(xs, rs) && Materialized(v, xs) == None
  {
    var i, j :| 0 <= i < |rs| && 0 <= j < |rs| && i != j && Disturbs(WriteOf(rs[i]), rs[j].path);
    xs := TwoToFront(rs, i, j);
    MatchInAnyOrder(v, rs, xs);
    DisturbedIsRefused(v, xs);
  }

  /** A list of matching changes is accepted in every order exactly when its changes are independent. */
  lemma AcceptedInEveryOrderIff(v: Value, rs: seq<Change>)
    requires WellFormed(rs) && CurrentValuesMatch(v, rs)
    ensures AcceptedInEveryOrder(v, rs) <==> Independent(rs)
  {
    if Independent(rs) {
      forall xs | Permutes(xs, rs)
        ensures Materialized(v, xs).Some? && Materialized(v, xs) == Materialized(v, rs)
      {
        MaterializedInAnyOrder(v, rs, xs);
      }
    } else {
      var xs := RefusedOrder(v, rs);
    }
  }

  lemma WritesPermuted(xs: seq<Change>, ys: seq<Change>)
    requires WellFormed(xs) && WellFormed(ys) && multiset(xs) == multiset(ys)
    requires DistinctPaths(Writes(xs))
    ensures multiset(Writes(xs)) == multiset(Writes(ys))
  {
    PermutedMembers(xs, ys);
    forall w | w in Writes(xs)
      ensures w in Writes(ys)
    {
      var i :| 0 <= i < |xs| && Writes(xs)[i] == w;
      assert xs[i] in ys;
      var j :| 0 <= j < |ys| && ys[j] == xs[i];
      assert Writes(ys)[j] == w;
    }
    IncludedIsPermutation(Writes(xs), Writes(ys));
  }

  /** Materializing is a simultaneous substitution of the desired scalars. */
  lemma MaterializedIsOverlay(v: Value, rs: seq<Change>) returns (m: map<Pos, Scalar>)
    requires WellFormed(rs) && CurrentValuesMatch(v, rs) && Undisturbed(Writes(rs))
    ensures Materialized(v, rs) == Some(Overlay(v, [], m))
    ensures forall p :: p in m ==> exists i :: 0 <= i < |rs| && Locate(v, rs[i].path) == Some(p)
    ensures forall i :: 0 <= i < |rs| ==>
      Locate(v, rs[i].path).Some? && var p := Locate(v, rs[i].path).value; LeafAt(v, p) && p in m && m[p] == rs[i].desired
  {
    var ws := Writes(rs);
    WritesAreApplicable(v, rs);
    ApplicableLocates(v, ws);
    ApplyAllIsOverlay(v, ws);
    EffectIsSetOfWrites(v, ws);
    m := Effect(v, ws);
    forall p | p in m
      ensures exists i :: 0 <= i < |rs| && Locate(v, rs[i].path) == Some(p)
    {
      var i :| 0 <= i < |ws| && Locate(v, ws[i].path) == Some(p);
      assert Locate(v, rs[i].path) == Some(p);
    }
    assert forall i :: 0 <= i < |rs| ==> rs[i].path == ws[i].path;
  }

  /** Nothing outside the named positions changes. */
  lemma MaterializedChangesOnlyTargets(v: Value, rs: seq<Change>, pos: Pos)
    requires WellFormed(rs) && CurrentValuesMatch(v, rs) && Undisturbed(Writes(rs))
    ensures Materialized(v, rs).Some? && (LeafAt(Materialized(v, rs).value, pos) <==> LeafAt(v, pos))
    ensures LeafAt(v, pos) && (forall i :: 0 <= i < |rs| ==> Locate(v, rs[i].path) != Some(pos)) ==>
      At(Materialized(v, rs).value, pos) == At(v, pos)
    ensures forall i :: 0 <= i < |rs| && Locate(v, rs[i].path) == Some(pos) ==>
      At(Materialized(v, rs).value, pos) == Some(Leaf(rs[i].desired))
  {
    var m := MaterializedIsOverlay(v, rs);
    AtOverlay(v, [], m, pos);
    assert [] + pos == pos;
  }

  // ----- A chain of renames moves a write -----

  function NamedItem(name: string, k: string): Value {
    Obj(map[NAME := Leaf(Str(name)), Text("k") := Leaf(Str(k))])
  }

  /** `{x: [{name: n, k: k}, {name: m, k: l}]}` */
  function TwoItems(n: string, k: string, m: string, l: string): Value {
    Obj(map[Text("x") := List([NamedItem(n, k), NamedItem(m, l)])])
  }

  /** `x[name=name].key` */
  function ItemField(name: string, key: string): Path {
    [Segment("x", Some(name)), Segment(key, None)]
  }

  lemma SelectedOfTwo(n: string, k: string, m: string, l: string)
    requires n != m
    ensures var items := [NamedItem(n, k), NamedItem(m, l)]; Select(items, n) == Some(0) && Select(items, m) == Some(1)
  {
    var items := [NamedItem(n, k), NamedItem(m, l)];
    SelectIsUniqueMatch(items, n, 0);
    SelectIsUniqueMatch(items, m, 1);
  }

  lemma FieldIsRead(items: seq<Value>, name: string, i: nat, key: string)
    requires Select(items, name) == Some(i) && items[i].Obj? && Text(key) in items[i].fields
    ensures Get(Obj(map[Text("x") := List(items)]), ItemField(name, key)) == Some(items[i].fields[Text(key)])
  {
    var path := ItemField(name, key);
    assert path[1..] == [Segment(key, None)] && path[1..][1..] == [];
    assert Get(items[i], path[1..]) == Descend(items[i], path[1]);
  }

  lemma FirstRenamed(n: string, k: string, m: string, l: string, c: string)
    requires n != m
    ensures Set(TwoItems(n, k, m, l), ItemField(n, "name"), Str(c)) == Some(TwoItems(c, k, m, l))
  {
    SelectedOfTwo(n, k, m, l);
    assert ItemField(n, "name")[1..] == [Segment("name", None)];
    assert NamedItem(n, k).fields[NAME := Leaf(Str(c))] == NamedItem(c, k).fields;
    assert [NamedItem(n, k), NamedItem(m, l)][0 := NamedItem(c, k)] == [NamedItem(c, k), NamedItem(m, l)];
    assert TwoItems(n, k, m, l).fields[Text("x") := List([NamedItem(c, k), NamedItem(m, l)])] == TwoItems(c, k, m, l).fields;
  }

  lemma SecondWritten(n: string, k: string, m: string, l: string, key: string, x: string, written: Value)
    requires n != m && (key == "name" || key == "k")
    requires written == if key == "name" then NamedItem(x, l) else NamedItem(m, x)
    ensures Set(TwoItems(n, k, m, l), ItemField(m, key), Str(x)) == Some(Obj(map[Text("x") := List([NamedItem(n, k), written])]))
  {
    SelectedOfTwo(n, k, m, l);
    assert |"k"| == 1 && |"name"| == 4;
    assert ItemField(m, key)[1..] == [Segment(key, None)];
    assert NamedItem(m, l).fields[Text(key) := Leaf(Str(x))] == written.fields;
    assert [NamedItem(n, k), NamedItem(m, l)][1 := written] == [NamedItem(n, k), written];
    assert TwoItems(n, k, m, l).fields[Text("x") := List([NamedItem(n, k), written])]
        == map[Text("x") := List([NamedItem(n, k), written])];
  }

  /** The first item is renamed, the second one takes its name, and a field of the first one changes. */
  function Chain(a: string, b: string, c: string, p: string, q: string): seq<Change> {
    [Change(ItemField(a, "name"), Str(a), Str(c)), Change(ItemField(b, "name"), Str(b), Str(a)),
     Change(ItemField(a, "k"), Str(p), Str(q))]
  }

  lemma ChainMatches(a: string, b: string, c: string, p: string, q: string, r: string)
    requires a != b && c != a && p != q
    ensures WellFormed(Chain(a, b, c, p, q)) && CurrentValuesMatch(TwoItems(a, p, b, r), Chain(a, b, c, p, q))
  {
    var items := [NamedItem(a, p), NamedItem(b, r)];
    SelectedOfTwo(a, p, b, r);
    FieldIsRead(items, a, 0, "name");
    FieldIsRead(items, b, 1, "name");
    FieldIsRead(items, a, 0, "k");
    assert |"k"| == 1 && |"name"| == 4;
    assert ItemField(a, "name")[1].key == "name" && ItemField(a, "k")[1].key == "k";
    assert ItemField(b, "name")[0].selected == Some(b) && ItemField(a, "name")[0].selected == Some(a) == ItemField(a, "k")[0].selected;
  }

  /**
   * Current values are checked on the original and scalars written into the changed
   * object. When an item gives its name to another, a change of the first one that is
   * listed last is written into the second one.
   */
  lemma ChainMovesWrite(a: string, b: string, c: string, p: string, q: string, r: string)
    requires a != b && b != c && c != a && p != q
    ensures WellFormed(Chain(a, b, c, p, q)) && CurrentValuesMatch(TwoItems(a, p, b, r), Chain(a, b, c, p, q))
    ensures Materialized(TwoItems(a, p, b, r), Chain(a, b, c, p, q)) == Some(TwoItems(c, p, a, q))
  {
    ChainMatches(a, b, c, p, q, r);
    FirstRenamed(a, p, b, r, c);
    SecondWritten(c, p, b, r, "name", a, NamedItem(a, r));
    SecondWritten(c, p, a, r, "k", q, NamedItem(a, q));
    var ws := Writes(Chain(a, b, c, p, q));
    ThreeWrites(TwoItems(a, p, b, r), ws, TwoItems(c, p, b, r), TwoItems(c, p, a, r), TwoItems(c, p, a, q));
  }

  lemma ThreeWrites(v: Value, ws: seq<Write>, v1: Value, v2: Value, v3: Value)
    requires |ws| == 3 && Set(v, ws[0].path, ws[0].value) == Some(v1)
    requires Set(v1, ws[1].path, ws[1].value) == Some(v2) && Set(v2, ws[2].path, ws[2].value) == Some(v3)
    ensures ApplyAll(v, ws) == Some(v3)
  {
    assert ws[0..] == ws && ws[3..] == [];
    ApplyFrom(v, ws, 0);
    ApplyFrom(v1, ws, 1);
    ApplyFrom(v2, ws, 2);
  }

  // ----- Forward, then rollback -----

  lemma ForwardState(v: Value, rs: seq<Change>) returns (m: map<Pos, Scalar>)
    requires WellFormed(rs) && CurrentValuesMatch(v, rs) && AllNameSafe(rs)
    ensures Materialized(v, rs) == Some(Overlay(v, [], m))
    ensures forall p :: p in m ==> exists i :: 0 <= i < |rs| && Locate(v, rs[i].path) == Some(p)
    ensures forall i :: 0 <= i < |rs| ==>
      Locate(Overlay(v, [], m), rs[i].path) == Locate(v, rs[i].path)
    ensures forall i :: 0 <= i < |rs| ==> Get(Overlay(v, [], m), rs[i].path) == Some(Leaf(rs[i].desired))
  {
    NameSafeIsIndependent(rs);
    m := MaterializedIsOverlay(v, rs);
    forall p | p in m
      ensures SafePos(p)
    {
      var i :| 0 <= i < |rs| && Locate(v, rs[i].path) == Some(p);
      NameSafeIsSafePos(v, rs[i].path);
    }
    forall i | 0 <= i < |rs|
      ensures Locate(Overlay(v, [], m), rs[i].path) == Locate(v, rs[i].path)
      ensures Get(Overlay(v, [], m), rs[i].path) == Some(Leaf(rs[i].desired))
    {
      GetOverlay(v, m, rs[i].path);
    }
  }

  /** Materializing a list and then its inverses gives the original object back. */
  lemma InversesRestore(v: Value, rs: seq<Change>)
    requires WellFormed(rs) && CurrentValuesMatch(v, rs) && AllNameSafe(rs)
    ensures WellFormed(Inverses(rs)) && AllNameSafe(Inverses(rs))
    ensures Materialized(v, rs).Some? && CurrentValuesMatch(Materialized(v, rs).value, Inverses(rs))
    ensures Materialized(Materialized(v, rs).value, Inverses(rs)) == Some(v)
  {
    var m := ForwardState(v, rs);
    var v1 := Overlay(v, [], m);
    WritesAreApplicable(v1, Inverses(rs));
    BackIsOriginal(v, v1, rs, m);
  }

  lemma BackIsOriginal(v: Value, v1: Value, rs: seq<Change>, m: map<Pos, Scalar>)
    requires WellFormed(rs) && CurrentValuesMatch(v, rs)
    requires WellFormed(Inverses(rs)) && Applicable(v1, Writes(Inverses(rs))) && DistinctPaths(Writes(Inverses(rs)))
    requires v1 == Overlay(v, [], m)
    requires forall p :: p in m ==> exists i :: 0 <= i < |rs| && Locate(v, rs[i].path) == Some(p)
    requires forall i :: 0 <= i < |rs| ==> Locate(v1, rs[i].path) == Locate(v, rs[i].path)
    ensures ApplyAll(v1, Writes(Inverses(rs))) == Some(v)
  {
    var ws := Writes(Inverses(rs));
    ApplyAllIsOverlay(v1, ws);
    EffectIsSetOfWrites(v1, ws);
    var n := Effect(v1, ws);
    forall p | p in m
      ensures p in n
    {
      var i :| 0 <= i < |rs| && Locate(v, rs[i].path) == Some(p);
      assert Locate(v1, ws[i].path) == Some(p);
    }
    forall p | p in n && LeafAt(v, p)
      ensures At(v, p).value == Leaf(n[p])
    {
      var i :| 0 <= i < |ws| && Locate(v1, ws[i].path) == Some(p);
      assert ws[i].path == rs[i].path;
      GetIsAtLocate(v, ws[i].path);
    }
    OverlayRestores(v, m, n);
  }

  // ----- Checking and writing one change at a time -----

  /** Each change is checked against the object as the earlier changes left it. */
  function Sequential(v: Value, cs: seq<Change>): Option<Value>
    decreases |cs|
  {
    if cs == [] then Some(v)
    else if Get(v, cs[0].path) != Some(Leaf(cs[0].current)) then None
    else
      var written := Set(v, cs[0].path, cs[0].desired);
      if written.None? then None else Sequential(written.value, cs[1..])
  }

  /** A write leaves every other path that it does not disturb reading what it read. */
  lemma OtherPathUnchanged(v: Value, c: Change, path: Path)
    requires c.path != [] && Get(v, c.path) == Some(Leaf(c.current)) && !Disturbs(WriteOf(c), path)
    requires path != c.path
    ensures Set(v, c.path, c.desired).Some?
    ensures forall x :: Get(Set(v, c.path, c.desired).value, path) == Some(Leaf(x)) <==> Get(v, path) == Some(Leaf(x))
  {
    SetIsOverlay(v, [], c.path, c.desired);
    var pos := Locate(v, c.path).value;
    assert [] + pos == pos;
    UndisturbedLocate(v, WriteOf(c), path);
    GetAtSamePlace(v, map[pos := c.desired], path);
    if Locate(v, path) == Some(pos) {
      LocateIsInjective(v, path, c.path);
      assert false;
    }
  }

  /** Checking against the intermediate objects is the same as checking against the first one. */
  lemma {:induction false} SequentialIsMaterialized(v: Value, cs: seq<Change>)
    requires WellFormed(cs) && Undisturbed(Writes(cs))
    ensures Sequential(v, cs) == Materialized(v, cs)
    decreases |cs|
  {
    if cs == [] {
    } else if Get(v, cs[0].path) == Some(Leaf(cs[0].current)) {
      SetIsOverlay(v, [], cs[0].path, cs[0].desired);
      var rest := cs[1..];
      var w := Set(v, cs[0].path, cs[0].desired).value;
      forall i | 0 <= i < |rest|
        ensures Get(w, rest[i].path) == Some(Leaf(rest[i].current)) <==> Get(v, rest[i].path) == Some(Leaf(rest[i].current))
      {
        assert rest[i] == cs[i + 1];
        OtherPathUnchanged(v, cs[0], rest[i].path);
      }
      assert CurrentValuesMatch(v, cs) <==> CurrentValuesMatch(w, rest) by {
        if CurrentValuesMatch(w, rest) {
          forall i | 0 <= i < |cs|
            ensures Get(v, cs[i].path) == Some(Leaf(cs[i].current))
          {
            assert i > 0 ==> cs[i] == rest[i - 1];
          }
        }
      }
      assert Writes(cs)[1..] == Writes(rest);
      SequentialIsMaterialized(w, rest);
    }
  }

  lemma NameSafeIsIndependent(rs: seq<Change>)
    requires AllNameSafe(rs)
    ensures Independent(rs) && Undisturbed(Writes(rs))
  {
  }

  lemma SequentialInAnyOrder(v: Value, xs: seq<Change>, ys: seq<Change>)
    requires WellFormed(xs) && AllNameSafe(xs) && Permutes(xs, ys) && Sequential(v, xs).Some?
    ensures Sequential(v, ys) == Sequential(v, xs)
  {
    NameSafeIsIndependent(xs);
    SequentialIsMaterialized(v, xs);
    MaterializedInAnyOrder(v, xs, ys);
    IndependentInAnyOrder(xs, ys);
    SequentialIsMaterialized(v, ys);
  }

  // ----- Why the name condition is exact -----

  /** Writing a scalar over a scalar reads back exactly when it does not rename the selected item. */
  lemma WriteReadsBack(v: Value, path: Path, x: Scalar)
    requires path != [] && Get(v, path).Some? && Get(v, path).value.Leaf?
    ensures Set(v, path, x).Some?
    ensures Get(Set(v, path, x).value, path) == Some(Leaf(x)) <==> NameSafe(path) || Get(v, path) == Some(Leaf(x))
  {
    SetIsOverlay(v, [], path, x);
    var pos := Locate(v, path).value;
    assert [] + pos == pos;
    var m := map[pos := x];
    NameSafeIsSafePos(v, path);
    if NameSafe(path) {
      GetOverlay(v, m, path);
    } else {
      UnsafePathReadsItsName(v, path);
      if x == Str(path[|path| - 2].selected.value) {
        GetIsAtLocate(v, path);
        forall p | LeafAt(v, p) && [] + p in m
          ensures At(v, p).value == Leaf(m[[] + p])
        {
          assert [] + p == p == pos;
        }
        OverlaySame(v, [], m);
      } else {
        DisturbedIsLost(v, Write(path, x), path, x);
      }
    }
  }

  /** A path that ends in the `name` of a selected item can only read that name. */
  lemma UnsafePathReadsItsName(v: Value, path: Path)
    requires path != [] && !NameSafe(path) && Get(v, path).Some? && Get(v, path).value.Leaf?
    ensures Get(v, path) == Some(Leaf(Str(path[|path| - 2].selected.value)))
  {
    var n := |path|;
    var init, last := path[..n - 2], path[n - 2..];
    assert path == init + last;
    LocateAppend(v, init, last);
    var parent := Get(v, init).value;
    assert last[1..][1..] == [];
    var item := Descend(parent, last[0]).value;
    assert Get(item, last[1..]) == Descend(item, path[n - 1]);
    assert last[0] == path[n - 2] && last[1..][0] == path[n - 1];
  }

  /** A checked sequence reads only real paths, and one that ends in a selected item's name reads that name. */
  lemma {:induction false} SequentialReads(v: Value, cs: seq<Change>)
    requires Sequential(v, cs).Some?
    ensures forall i :: 0 <= i < |cs| ==> cs[i].path != []
    ensures forall i :: 0 <= i < |cs| && !NameSafe(cs[i].path) ==>
      cs[i].current == Str(cs[i].path[|cs[i].path| - 2].selected.value)
    decreases |cs|
  {
    if cs != [] {
      SequentialReads(Set(v, cs[0].path, cs[0].desired).value, cs[1..]);
      if !NameSafe(cs[0].path) {
        UnsafePathReadsItsName(v, cs[0].path);
      }
      forall i | 0 < i < |cs|
        ensures cs[i].path != []
        ensures !NameSafe(cs[i].path) ==> cs[i].current == Str(cs[i].path[|cs[i].path| - 2].selected.value)
      {
        assert cs[i] == cs[1..][i - 1];
      }
    }
  }

  // ----- Undoing -----

  /** `xs` is accepted, and `ys` after it gives the original back. */
  predicate Undone(v: Value, xs: seq<Change>, ys: seq<Change>) {
    var r := Materialized(v, xs);
    r.Some? && Materialized(r.value, ys) == Some(v)
  }

  lemma SafeIsUndone(v: Value, rs: seq<Change>, back: seq<Change>, xs: seq<Change>, ys: seq<Change>)
    requires WellFormed(rs) && CurrentValuesMatch(v, rs) && AllNameSafe(rs)
    requires Permutes(back, Inverses(rs)) && Permutes(xs, rs) && Permutes(ys, back)
    ensures Undone(v, xs, ys)
  {
    MaterializedInAnyOrder(v, rs, xs);
    InversesRestore(v, rs);
    MaterializedInAnyOrder(Materialized(v, rs).value, Inverses(rs), ys);
  }

  /** If one change renames a selected item, no order of the inverses undoes any order of the list. */
  lemma RenameIsNotUndone(v: Value, rs: seq<Change>, back: seq<Change>, k: nat, xs: seq<Change>, ys: seq<Change>)
    requires k < |rs| && ValidChange(rs[k]) && !NameSafe(rs[k].path) && Inverse(rs[k]) in back
    requires Permutes(xs, rs) && Permutes(ys, back)
    ensures !Undone(v, xs, ys)
  {
    if Undone(v, xs, ys) {
      PermutedMembers(xs, rs);
      PermutedMembers(ys, back);
      assert rs[k] in xs && Inverse(rs[k]) in ys;
      UnsafePathReadsItsName(v, rs[k].path);
      UnsafePathReadsItsName(Materialized(v, xs).value, rs[k].path);
      assert false;
    }
  }

  /** The exact condition for undoing a list of changes that the object accepts, whatever the two orders are. */
  lemma UndoneIffNameSafe(v: Value, rs: seq<Change>, back: seq<Change>, xs: seq<Change>, ys: seq<Change>)
    requires WellFormed(rs) && CurrentValuesMatch(v, rs)
    requires Permutes(back, Inverses(rs)) && Permutes(xs, rs) && Permutes(ys, back)
    ensures Undone(v, xs, ys) <==> AllNameSafe(rs)
  {
    if AllNameSafe(rs) {
      SafeIsUndone(v, rs, back, xs, ys);
    } else {
      var k :| 0 <= k < |rs| && !NameSafe(rs[k].path);
      PermutedMembers(Inverses(rs), back);
      assert Inverses(rs)[k] in Inverses(rs);
      RenameIsNotUndone(v, rs, back, k, xs, ys);
    }
  }
}
