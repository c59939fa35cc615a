/**
 * Validated scalar patch plans: a forward list of replacements and a rollback
 * list that must be its exact inverse. The result is the exact condition under
 * which such a plan can be rolled back, and the one under which the order of its
 * replacements decides nothing.
 */
module PatchPlan {
  import opened Wrappers
  import opened FieldPath
  import opened Manifest
  import opened ObjectPatch
  import opened ActionPolicy
  import opened Text
  import RepositoryPath

  const RAW_YAML := "raw-yaml"

  datatype Plan = Plan(
    actionType: ActionType, sourceType: string, sourceManifestSha256: string, expectedBaseSha: string, manifestPath: string,
    replacements: seq<Replacement>, rollback: seq<Replacement>)

  /** `same_scalar`, for operands of which one is known to be a scalar. */
  predicate SameScalar(left: Value, right: Value) {
    left.Leaf? && left == right
  }

  predicate DistinctFields(rs: seq<Replacement>) {
    forall i, j :: 0 <= i < j < |rs| ==> rs[i].fieldPath != rs[j].fieldPath
  }

  function Reversed(r: Replacement): Replacement {
    Replacement(r.fieldPath, r.desired, r.current)
  }

  predicate ValidReplacement(r: Replacement) {
    Parse(r.fieldPath) != [] && r.current.Leaf? && r.desired.Leaf? && r.current != r.desired
  }

  predicate ValidMetadata(plan: Plan) {
    && !plan.actionType.OtherAction? && plan.sourceType == RAW_YAML
    && IsDigest(plan.sourceManifestSha256) && IsCommit(plan.expectedBaseSha) && IsSafePath(plan.manifestPath)
  }

  /** What `validate_scalar_patch_plan` accepts. */
  ghost predicate ValidPlan(plan: Plan) {
    && ValidMetadata(plan)
    && 1 <= |plan.replacements| <= 4
    && |plan.rollback| == |plan.replacements|
    && DistinctFields(plan.replacements)
    && DistinctFields(plan.rollback)
    && forall r :: r in plan.replacements ==> ValidReplacement(r) && Reversed(r) in plan.rollback && Allows(plan.actionType, r)
  }

  method HasDistinctFields(rs: seq<Replacement>) returns (ok: bool)
    ensures ok == DistinctFields(rs)
  {
    var seen: set<string> := {};
    for i := 0 to |rs|
      invariant DistinctFields(rs[..i])
      invariant forall j :: 0 <= j < i ==> rs[j].fieldPath in seen
      invariant forall f :: f in seen ==> exists j :: 0 <= j < i && rs[j].fieldPath == f
    {
      if rs[i].fieldPath in seen {
        return false;
      }
      seen := seen + {rs[i].fieldPath};
    }
    assert rs[..|rs|] == rs;
    return true;
  }

  method IndexByPath(rs: seq<Replacement>) returns (byPath: map<string, Replacement>)
    ensures forall f :: f in byPath ==> byPath[f] in rs && byPath[f].fieldPath == f
    ensures forall j :: 0 <= j < |rs| ==> rs[j].fieldPath in byPath
  {
    byPath := map[];
    for i := 0 to |rs|
      invariant forall f :: f in byPath ==> byPath[f] in rs && byPath[f].fieldPath == f
      invariant forall j :: 0 <= j < i ==> rs[j].fieldPath in byPath
    {
      byPath := byPath[rs[i].fieldPath := rs[i]];
    }
  }

  method ValidateScalarPatchPlan(plan: Plan) returns (ok: bool)
    ensures ok == ValidPlan(plan)
  {
    if !ValidMetadata(plan) || !(1 <= |plan.replacements| <= 4) || |plan.rollback| != |plan.replacements| {
      return false;
    }
    var distinct := HasDistinctFields(plan.replacements);
    if !distinct {
      return false;
    }
    distinct := HasDistinctFields(plan.rollback);
    if !distinct {
      return false;
    }
    var byPath := IndexByPath(plan.rollback);
    for i := 0 to |plan.replacements|
      invariant forall j :: 0 <= j < i ==>
        ValidReplacement(plan.replacements[j]) && Reversed(plan.replacements[j]) in plan.rollback
        && Allows(plan.actionType, plan.replacements[j])
    {
      var item := plan.replacements[i];
      assert item in plan.replacements;
      var valid := ValidateItem(plan.actionType, item, plan.rollback, byPath);
      if !valid {
        return false;
      }
    }
    return true;
  }

  /** One replacement, with the rollback replacements indexed by their paths. */
  method ValidateItem(action: ActionType, item: Replacement, rollbacks: seq<Replacement>, byPath: map<string, Replacement>)
    returns (ok: bool)
    requires forall f :: f in byPath ==> byPath[f] in rollbacks && byPath[f].fieldPath == f
    requires DistinctFields(rollbacks) && forall j :: 0 <= j < |rollbacks| ==> rollbacks[j].fieldPath in byPath
    ensures ok <==> ValidReplacement(item) && Reversed(item) in rollbacks && Allows(action, item)
  {
    var segments := FieldPathSegments(item.fieldPath);
    if || segments == []
       || !item.current.Leaf? || !item.desired.Leaf? || SameScalar(item.current, item.desired)
       || item.fieldPath !in byPath
    {
      return false;
    }
    var rollback := byPath[item.fieldPath];
    assert Reversed(item) in rollbacks ==> rollback == Reversed(item);
    return SameScalar(rollback.current, item.desired) && SameScalar(rollback.desired, item.current) && Allows(action, item);
  }

  // ----- The rollback list is a permutation of inverses -----

  predicate Scalars(rs: seq<Replacement>) {
    forall i :: 0 <= i < |rs| ==> rs[i].current.Leaf? && rs[i].desired.Leaf?
  }

  /** The changes a list of replacements stands for, with their paths parsed. */
  function Resolved(rs: seq<Replacement>): (cs: seq<Change>)
    requires Scalars(rs)
    ensures |cs| == |rs|
    ensures forall i :: 0 <= i < |rs| ==>
      cs[i] == Change(Parse(rs[i].fieldPath), rs[i].current.scalar, rs[i].desired.scalar)
  {
    seq(|rs|, i requires 0 <= i < |rs| =>
      Change(Parse(rs[i].fieldPath), rs[i].current.scalar, rs[i].desired.scalar))
  }

  function ReversedAll(rs: seq<Replacement>): (r: seq<Replacement>)
    ensures |r| == |rs|
    ensures forall i :: 0 <= i < |rs| ==> r[i] == Reversed(rs[i])
  {
    seq(|rs|, i requires 0 <= i < |rs| => Reversed(rs[i]))
  }

  lemma ResolvedIsWellFormed(rs: seq<Replacement>)
    requires Scalars(rs) && DistinctFields(rs) && forall r :: r in rs ==> ValidReplacement(r)
    ensures WellFormed(Resolved(rs))
  {
    var cs := Resolved(rs);
    forall i | 0 <= i < |rs|
      ensures ValidChange(cs[i])
    {
      assert rs[i] in rs;
    }
    forall i, j | 0 <= i < j < |rs|
      ensures cs[i].path != cs[j].path
    {
      assert ValidChange(cs[i]);
      if cs[i].path == cs[j].path {
        ParseIsInjective(rs[i].fieldPath, rs[j].fieldPath);
        assert false;
      }
    }
  }

  /** Validation leaves no freedom in the rollback list but its order. */
  lemma RollbackIsPermutationOfInverses(plan: Plan)
    requires ValidPlan(plan)
    ensures multiset(plan.rollback) == multiset(ReversedAll(plan.replacements))
    ensures Scalars(plan.replacements) && Scalars(plan.rollback)
    ensures Permutes(Resolved(plan.rollback), Inverses(Resolved(plan.replacements)))
  {
    var rs, reversed := plan.replacements, ReversedAll(plan.replacements);
    forall i | 0 <= i < |rs|
      ensures ValidReplacement(rs[i]) && reversed[i] in plan.rollback
    {
      assert rs[i] in rs;
    }
    IncludedIsPermutation(reversed, plan.rollback);
    PermutedMembers(reversed, plan.rollback);
    forall i | 0 <= i < |plan.rollback|
      ensures plan.rollback[i].current.Leaf? && plan.rollback[i].desired.Leaf?
    {
      assert plan.rollback[i] in reversed;
    }
    ResolvedIsWellFormed(rs);
    ResolvedInverses(rs, plan.rollback);
  }

  /** The replacement changes a scalar at a parsable path, as the action allows. */
  predicate IsAllowedChange(action: ActionType, r: Replacement) {
    Parse(r.fieldPath) != [] && r.current.Leaf? && r.desired.Leaf? && r.current != r.desired && Allows(action, r)
  }

  /**
   * A plan is accepted exactly when its metadata are well formed and it has one to four
   * allowed scalar changes of different fields, whose inverses are its rollback in some order.
   */
  lemma ValidPlanIff(plan: Plan)
    ensures ValidPlan(plan) <==>
      && !plan.actionType.OtherAction? && plan.sourceType == "raw-yaml"
      && IsDigest(plan.sourceManifestSha256) && IsCommit(plan.expectedBaseSha) && IsSafePath(plan.manifestPath)
      && 1 <= |plan.replacements| <= 4
      && (forall r :: r in plan.replacements ==> IsAllowedChange(plan.actionType, r))
      && (forall i, j :: 0 <= i < j < |plan.replacements| ==>
            Parse(plan.replacements[i].fieldPath) != Parse(plan.replacements[j].fieldPath))
      && multiset(plan.rollback) == multiset(ReversedAll(plan.replacements))
  {
    var rs, reversed := plan.replacements, ReversedAll(plan.replacements);
    if ValidPlan(plan) {
      RollbackIsPermutationOfInverses(plan);
      ResolvedIsWellFormed(rs);
      assert forall i :: 0 <= i < |rs| ==> Resolved(rs)[i].path == Parse(rs[i].fieldPath);
    }
    if multiset(plan.rollback) == multiset(reversed) && forall i, j :: 0 <= i < j < |rs| ==> Parse(rs[i].fieldPath) != Parse(rs[j].fieldPath) {
      PermutedMembers(plan.rollback, reversed);
      PermutedFields(plan.rollback, reversed);
      forall r | r in rs
        ensures Reversed(r) in plan.rollback
      {
        var i :| 0 <= i < |rs| && rs[i] == r;
        assert reversed[i] in reversed;
      }
    }
  }

  lemma PermutedFields(xs: seq<Replacement>, ys: seq<Replacement>)
    requires multiset(xs) == multiset(ys) && DistinctFields(ys)
    ensures DistinctFields(xs)
  {
    PermutedMembers(xs, ys);
    forall i, j | 0 <= i < j < |xs|
      ensures xs[i].fieldPath != xs[j].fieldPath
    {
      if xs[i].fieldPath == xs[j].fieldPath {
        assert xs[i] in ys && xs[j] in ys;
        var a :| 0 <= a < |ys| && ys[a] == xs[i];
        var b :| 0 <= b < |ys| && ys[b] == xs[j];
        assert a == b;
        FieldOnce(ys, a);
        TwiceInMultiset(xs, i, j);
        assert false;
      }
    }
  }

  lemma FieldOnce(rs: seq<Replacement>, a: nat)
    requires a < |rs| && DistinctFields(rs)
    ensures multiset(rs)[rs[a]] == 1
  {
    assert rs == rs[..a] + [rs[a]] + rs[a + 1..];
    assert rs[a] !in rs[..a] && rs[a] !in rs[a + 1..];
  }

  lemma ResolvedInverses(rs: seq<Replacement>, back: seq<Replacement>)
    requires Scalars(rs) && Scalars(back) && |back| == |rs| && DistinctTargets(Resolved(rs))
    requires forall i :: 0 <= i < |rs| ==> Reversed(rs[i]) in back
    ensures Permutes(Resolved(back), Inverses(Resolved(rs)))
  {
    var inverses := Inverses(Resolved(rs));
    forall c | c in inverses
      ensures c in Resolved(back)
    {
      var i :| 0 <= i < |rs| && inverses[i] == c;
      var j :| 0 <= j < |back| && back[j] == Reversed(rs[i]);
      assert Resolved(back)[j] == c;
    }
    IncludedIsPermutation(inverses, Resolved(back));
  }

  /** `scalar_patch_matches_manifest` on a validated plan. */
  predicate MatchesManifest(plan: Plan, v: Value) {
    Scalars(plan.replacements) && CurrentValuesMatch(v, Resolved(plan.replacements))
  }

  /** An order of the replacements and an order of the rollback list. */
  ghost predicate OrdersOf(plan: Plan, xs: seq<Change>, ys: seq<Change>) {
    && Scalars(plan.replacements) && Permutes(xs, Resolved(plan.replacements))
    && Scalars(plan.rollback) && Permutes(ys, Resolved(plan.rollback))
  }

  /**
   * A validated plan whose current values match the manifest can be rolled back
   * exactly when none of its paths writes the name of the list item it selects,
   * whatever the order of its replacements and of its rollback list.
   */
  lemma PlanRestoresIffNameSafe(plan: Plan, v: Value, xs: seq<Change>, ys: seq<Change>)
    requires ValidPlan(plan) && MatchesManifest(plan, v) && OrdersOf(plan, xs, ys)
    ensures Undone(v, xs, ys) <==> forall r :: r in plan.replacements ==> NameSafe(Parse(r.fieldPath))
  {
    RollbackIsPermutationOfInverses(plan);
    ResolvedIsWellFormed(plan.replacements);
    UndoneIffNameSafe(v, Resolved(plan.replacements), Resolved(plan.rollback), xs, ys);
    AllNameSafeIsPerReplacement(plan.replacements);
  }

  lemma AllNameSafeIsPerReplacement(rs: seq<Replacement>)
    requires Scalars(rs)
    ensures AllNameSafe(Resolved(rs)) <==> forall r :: r in rs ==> NameSafe(Parse(r.fieldPath))
  {
    if AllNameSafe(Resolved(rs)) {
      forall r | r in rs
        ensures NameSafe(Parse(r.fieldPath))
      {
        var i :| 0 <= i < |rs| && rs[i] == r;
        assert Resolved(rs)[i].path == Parse(r.fieldPath);
      }
    }
  }

  lemma PlanIsNameSafe(plan: Plan)
    requires ValidPlan(plan) && plan.actionType != SelectorFix
    ensures forall r :: r in plan.replacements ==> NameSafe(Parse(r.fieldPath))
    ensures Scalars(plan.replacements) && AllNameSafe(Resolved(plan.replacements))
  {
    forall r | r in plan.replacements
      ensures NameSafe(Parse(r.fieldPath))
    {
      AllowedIsNameSafe(plan.actionType, r);
    }
    RollbackIsPermutationOfInverses(plan);
    AllNameSafeIsPerReplacement(plan.replacements);
  }

  /** Plans of every action but `selector_fix` can always be rolled back. */
  lemma PlanRestoresUnlessSelectorFix(plan: Plan, v: Value, xs: seq<Change>, ys: seq<Change>)
    requires ValidPlan(plan) && MatchesManifest(plan, v) && OrdersOf(plan, xs, ys) && plan.actionType != SelectorFix
    ensures Undone(v, xs, ys)
  {
    PlanIsNameSafe(plan);
    PlanRestoresIffNameSafe(plan, v, xs, ys);
  }

  /** The manifest accepts a validated plan in every order exactly when its replacements are independent. */
  lemma PlanAcceptedInEveryOrderIff(plan: Plan, v: Value)
    requires ValidPlan(plan) && MatchesManifest(plan, v)
    ensures AcceptedInEveryOrder(v, Resolved(plan.replacements)) <==> Independent(Resolved(plan.replacements))
  {
    RollbackIsPermutationOfInverses(plan);
    ResolvedIsWellFormed(plan.replacements);
    AcceptedInEveryOrderIff(v, Resolved(plan.replacements));
  }

  // ----- What accepted plans write -----

  /** The metadata of an accepted plan. */
  lemma PlanIsIdentified(plan: Plan)
    requires ValidPlan(plan)
    ensures plan.sourceType == "raw-yaml" && !plan.actionType.OtherAction?
    ensures exists hex :: plan.sourceManifestSha256 == "sha256:" + hex && |hex| == 64 && HexDigits(hex)
    ensures 40 <= |plan.expectedBaseSha| <= 64 && HexDigits(plan.expectedBaseSha)
    ensures RepositoryPath.Walk(RepositoryPath.Split(plan.manifestPath), []).Some?
    ensures 1 <= |plan.replacements| <= 4
  {
    DigestIff(plan.sourceManifestSha256);
    CommitIff(plan.expectedBaseSha);
    SafePathStaysInside(plan.manifestPath, []);
  }

  /** A replacement of an accepted plan of any action but `selector_fix` reads back as its desired value. */
  lemma PlanWrites(plan: Plan, v: Value, i: nat)
    requires ValidPlan(plan) && MatchesManifest(plan, v) && plan.actionType != SelectorFix && i < |plan.replacements|
    ensures Materialized(v, Resolved(plan.replacements)).Some?
    ensures var r := plan.replacements[i];
      && Get(v, Parse(r.fieldPath)) == Some(r.current)
      && Get(Materialized(v, Resolved(plan.replacements)).value, Parse(r.fieldPath)) == Some(r.desired)
  {
    var cs := Resolved(plan.replacements);
    PlanIsNameSafe(plan);
    ResolvedIsWellFormed(plan.replacements);
    var m := ForwardState(v, cs);
    assert cs[i].path == Parse(plan.replacements[i].fieldPath);
  }

  /** A scaling plan is one replacement, which raises the replicas of the manifest to at most ten. */
  lemma ReplicasOnlyGrow(plan: Plan, v: Value)
    requires ValidPlan(plan) && MatchesManifest(plan, v) && plan.actionType == ReplicaScale
    ensures |plan.replacements| == 1 && Materialized(v, Resolved(plan.replacements)).Some?
    ensures var replicas, after := [Key("spec"), Key("replicas")], Materialized(v, Resolved(plan.replacements)).value;
      exists n, m :: 1 <= n < m <= 10 && Get(v, replicas) == Some(Leaf(Int(n))) && Get(after, replicas) == Some(Leaf(Int(m)))
  {
    var r := plan.replacements[0];
    assert r in plan.replacements;
    ReplicaScaleIff(r);
    var n, m :| 1 <= n < m <= 10 && r == Replacement("spec.replicas", Leaf(Int(n)), Leaf(Int(m)));
    ReplicasPath();
    PlanWrites(plan, v, 0);
    if |plan.replacements| > 1 {
      ReplicaScaleIff(plan.replacements[1]);
      assert false;
    }
  }

  lemma ReplicasPath()
    ensures Parse("spec.replicas") == [Key("spec"), Key("replicas")]
  {
    assert ValidSegment(Key("spec")) && ValidSegment(Key("replicas"));
    assert "spec" + "." + "replicas" == "spec.replicas";
    TwoKeys("spec", "replicas");
  }

  lemma TwoKeys(first: string, second: string)
    requires ValidSegment(Key(first)) && ValidSegment(Key(second))
    ensures Parse(first + "." + second) == [Key(first), Key(second)]
  {
    var path := [Key(first), Key(second)];
    assert path == [Key(first)] + [Key(second)];
    PrintCons(Key(first), [Key(second)]);
    assert PrintSegment(Key(first)) == first && Print([Key(second)]) == second;
    assert Print(path) == first + "." + second;
    ParseOfPrint(path);
  }

  /** A memory plan raises every quantity it writes, to at most four gibibytes. */
  lemma MemoryOnlyGrows(plan: Plan, v: Value, i: nat)
    requires ValidPlan(plan) && MatchesManifest(plan, v) && plan.actionType == OomMemory && i < |plan.replacements|
    ensures Materialized(v, Resolved(plan.replacements)).Some?
    ensures var path := Parse(plan.replacements[i].fieldPath);
      var before, after := Get(v, path), Get(Materialized(v, Resolved(plan.replacements)).value, path);
      before.Some? && after.Some? && exists n: nat, m: nat :: IsMemory(before.value, n) && IsMemory(after.value, m) && n < m <= 4294967296
  {
    var r := plan.replacements[i];
    assert r in plan.replacements;
    OomMemoryIff(r);
    PlanWrites(plan, v, i);
  }

  // ----- A plan that cannot be rolled back, and whose order decides -----

  function Key(key: string): Segment {
    Segment(key, None)
  }

  /** `spec.selector.matchLabels` */
  function LabelsPath(): Path {
    [Key("spec"), Key("selector"), Key("matchLabels")]
  }

  /** `spec.selector.matchLabels.x[name=a].` followed by the key. */
  function ItemPath(key: string): Path {
    LabelsPath() + [Segment("x", Some("a")), Key(key)]
  }

  predicate IsItemKey(key: string) {
    key == "name" || key == "k"
  }

  lemma WordsAreValid()
    ensures !IsBlank("a") && !IsBlank("b") && !IsBlank("p") && !IsBlank("q") && "a" != "b" && "p" != "q"
    ensures ValidSegment(Segment("x", Some("a"))) && ValidSegment(Key("k")) && ValidSegment(Key("name")) && "k" != "name"
  {
    assert "a"[0] == 'a' && "b"[0] == 'b' && "p"[0] == 'p' && "q"[0] == 'q' && "k"[0] == 'k' && "name"[0] == 'n';
  }

  lemma ItemPathIsValid(key: string)
    requires IsItemKey(key)
    ensures ValidPath(ItemPath(key)) && (NameSafe(ItemPath(key)) <==> key == "k")
  {
    WordsAreValid();
    LabelsPathIsValid();
    var p := ItemPath(key);
    assert p[3] == Segment("x", Some("a")) && p[4] == Key(key);
    assert forall i :: 0 <= i < 3 ==> p[i] == LabelsPath()[i];
  }

  lemma LabelsPathIsValid()
    ensures ValidPath(LabelsPath())
  {
  }

  lemma ItemPathText(key: string)
    ensures StartsWith(Print(ItemPath(key)), "spec.selector.matchLabels.")
  {
    var p := ItemPath(key);
    PrintCons(p[0], p[1..]);
    PrintCons(p[1], p[2..]);
    PrintCons(p[2], p[3..]);
    assert [p[0]] + p[1..] == p && [p[1]] + p[2..] == p[1..] && [p[2]] + p[3..] == p[2..];
    var rest := Print(p[3..]);
    assert Print(p) == "spec" + "." + ("selector" + "." + ("matchLabels" + "." + rest));
    PrefixText(rest);
  }

  lemma PrefixText(rest: string)
    ensures "spec" + "." + ("selector" + "." + ("matchLabels" + "." + rest)) == "spec.selector.matchLabels." + rest
  {
  }

  lemma PrintCons(g: Segment, rest: Path)
    requires rest != []
    ensures Print([g] + rest) == PrintSegment(g) + "." + Print(rest)
  {
    assert ([g] + rest)[1..] == rest;
    var parts := PrintAll([g] + rest);
    assert parts == [PrintSegment(g)] + PrintAll(rest) && parts[1..] == PrintAll(rest);
  }

  /** A deployment with the given labels. */
  function Deployment(labels: Value): Value {
    var spec := Obj(map[Text("selector") := Obj(map[Text("matchLabels") := labels])]);
    Obj(map[Text("kind") := Leaf(Str("Deployment")), Text("spec") := spec])
  }

  /** `{x: [{name: a, k: p}]}` */
  function ItemLabels(): Value {
    var item := Obj(map[Text("name") := Leaf(Str("a")), Text("k") := Leaf(Str("p"))]);
    Obj(map[Text("x") := List([item])])
  }

  lemma LabelsAreRead(labels: Value)
    ensures Get(Deployment(labels), LabelsPath()) == Some(labels)
  {
    var p, v := LabelsPath(), Deployment(labels);
    assert p[1..][1..][1..] == [] && p[1..][1..][0] == p[2] && p[1..][0] == p[1];
    assert "spec"[0] == 's' && "kind"[0] == 'k';
    var spec := Descend(v, p[0]).value;
    var selector := Descend(spec, p[1]).value;
    assert Get(selector, p[1..][1..]) == Some(labels);
    assert Get(spec, p[1..]) == Some(labels);
  }

  lemma ItemPathReads(key: string)
    requires IsItemKey(key)
    ensures Get(Deployment(ItemLabels()), ItemPath(key)) == Some(Leaf(Str(if key == "name" then "a" else "p")))
  {
    var labels, rest := ItemLabels(), [Segment("x", Some("a")), Key(key)];
    LabelsAreRead(labels);
    LocateAppend(Deployment(labels), LabelsPath(), rest);
    var items := labels.fields[Text("x")].items;
    assert NameIs(items[0], "a");
    SelectIsUniqueMatch(items, "a", 0);
    assert rest[1..][0] == Key(key) && rest[1..][1..] == [];
    assert Get(items[0], rest[1..]) == Descend(items[0], Key(key));
    WordsAreValid();
  }

  /** Renames the item and changes its `k`. */
  function RenamingPlan(): Plan {
    var name, k := Print(ItemPath("name")), Print(ItemPath("k"));
    var a, b, p, q := Leaf(Str("a")), Leaf(Str("b")), Leaf(Str("p")), Leaf(Str("q"));
    Plan(SelectorFix, RAW_YAML, "sha256:" + seq(64, _ => '0'), seq(40, _ => '0'), "d",
         [Replacement(name, a, b), Replacement(k, p, q)], [Replacement(name, b, a), Replacement(k, q, p)])
  }

  /** The two changes of the plan. */
  function RenamingChanges(): seq<Change> {
    [Change(ItemPath("name"), Str("a"), Str("b")), Change(ItemPath("k"), Str("p"), Str("q"))]
  }

  lemma ItemReplacement(r: Replacement, key: string, current: string, desired: string)
    requires IsItemKey(key) && current != desired && !IsBlank(current) && !IsBlank(desired)
    requires r == Replacement(Print(ItemPath(key)), Leaf(Str(current)), Leaf(Str(desired)))
    ensures ValidReplacement(r) && Allows(SelectorFix, r) && Parse(r.fieldPath) == ItemPath(key)
  {
    ItemPathIsValid(key);
    ItemPathText(key);
    ParseOfPrint(ItemPath(key));
  }

  lemma RenamingMetadata()
    ensures ValidMetadata(RenamingPlan())
  {
    var digits := seq(64, _ => '0');
    assert ("sha256:" + digits)[7..] == digits;
    RepositoryPath.SplitOne("d");
    assert "d"[0] == 'd' && |"d"| == 1 && |".."| == 2;
  }

  lemma ValidPair(plan: Plan, r: Replacement, t: Replacement, cs: seq<Change>)
    requires ValidMetadata(plan) && plan.replacements == [r, t] && plan.rollback == [Reversed(r), Reversed(t)]
    requires ValidReplacement(r) && ValidReplacement(t) && Parse(r.fieldPath) != Parse(t.fieldPath)
    requires Allows(plan.actionType, r) && Allows(plan.actionType, t)
    requires |cs| == 2 && cs[0] == Change(Parse(r.fieldPath), r.current.scalar, r.desired.scalar)
    requires cs[1] == Change(Parse(t.fieldPath), t.current.scalar, t.desired.scalar)
    ensures ValidPlan(plan) && Scalars(plan.replacements) && Resolved(plan.replacements) == cs
  {
  }

  lemma RenamingPlanIsValid()
    ensures ValidPlan(RenamingPlan()) && Scalars(RenamingPlan().replacements)
    ensures Resolved(RenamingPlan().replacements) == RenamingChanges()
  {
    var plan := RenamingPlan();
    var r, t := plan.replacements[0], plan.replacements[1];
    RenamingMetadata();
    WordsAreValid();
    ItemReplacement(r, "name", "a", "b");
    ItemReplacement(t, "k", "p", "q");
    assert ItemPath("name")[4] == Key("name") && ItemPath("k")[4] == Key("k");
    ValidPair(plan, r, t, RenamingChanges());
  }

  lemma RenamingChangesMatch()
    ensures var cs := RenamingChanges();
      && CurrentValuesMatch(Deployment(ItemLabels()), cs) && ValidChange(cs[0]) && ValidChange(cs[1])
      && !NameSafe(cs[0].path) && NameSafe(cs[1].path) && Disturbs(WriteOf(cs[0]), cs[1].path)
  {
    var cs := RenamingChanges();
    ItemPathReads("name");
    ItemPathReads("k");
    ItemPathIsValid("name");
    ItemPathIsValid("k");
    WordsAreValid();
    assert cs[0].path[..3] == LabelsPath() == cs[1].path[..3];
    assert cs[0].path[3] == cs[1].path[3] == Segment("x", Some("a"));
  }

  /** An accepted `selector_fix` plan, and a deployment that it matches, that no order of its rollback restores. */
  lemma SelectorFixCanRename() returns (plan: Plan, v: Value)
    ensures ValidPlan(plan) && plan.actionType == SelectorFix && MatchesManifest(plan, v)
    ensures v == Deployment(ItemLabels()) && plan == RenamingPlan()
    ensures forall xs, ys :: OrdersOf(plan, xs, ys) ==> !Undone(v, xs, ys)
  {
    plan, v := RenamingPlan(), Deployment(ItemLabels());
    RenamingPlanIsValid();
    RenamingChangesMatch();
    UnsafeIsNotUndone(plan, v);
  }

  lemma UnsafeIsNotUndone(plan: Plan, v: Value)
    requires ValidPlan(plan) && MatchesManifest(plan, v) && !NameSafe(Resolved(plan.replacements)[0].path)
    ensures forall xs, ys :: OrdersOf(plan, xs, ys) ==> !Undone(v, xs, ys)
  {
    forall xs, ys | OrdersOf(plan, xs, ys)
      ensures !Undone(v, xs, ys)
    {
      PlanRestoresIffNameSafe(plan, v, xs, ys);
      assert plan.replacements[0] in plan.replacements;
    }
  }

  /** An accepted `selector_fix` plan that the deployment refuses as it is listed, and accepts with the rename last. */
  lemma SelectorFixOrderDecides() returns (plan: Plan, v: Value, xs: seq<Change>)
    ensures ValidPlan(plan) && plan.actionType == SelectorFix && MatchesManifest(plan, v)
    ensures v == Deployment(ItemLabels()) && plan == RenamingPlan()
    ensures Materialized(v, Resolved(plan.replacements)) == None
    ensures Permutes(xs, Resolved(plan.replacements)) && Materialized(v, xs).Some?
  {
    plan, v := RenamingPlan(), Deployment(ItemLabels());
    RenamingPlanIsValid();
    RenamingChangesMatch();
    var cs := RenamingChanges();
    xs := [cs[1], cs[0]];
    RenameComesLast(v, cs[0], cs[1]);
  }

  // ----- The exact condition on the action -----

  /** Every accepted plan of the action can be rolled back, in every order, on every manifest it matches. */
  ghost predicate AlwaysRollsBack(action: ActionType) {
    forall plan: Plan, v: Value, xs: seq<Change>, ys: seq<Change> ::
      ValidPlan(plan) && plan.actionType == action && MatchesManifest(plan, v) && OrdersOf(plan, xs, ys) ==>
        Undone(v, xs, ys)
  }

  /** `selector_fix` is the only action whose plans may fail to roll back. */
  lemma AlwaysRollsBackIff(action: ActionType)
    ensures AlwaysRollsBack(action) <==> action != SelectorFix
  {
    if action == SelectorFix {
      var plan, v := SelectorFixCanRename();
      RollbackIsPermutationOfInverses(plan);
      assert OrdersOf(plan, Resolved(plan.replacements), Resolved(plan.rollback));
    } else {
      forall plan: Plan, v: Value, xs: seq<Change>, ys: seq<Change> |
        ValidPlan(plan) && plan.actionType == action && MatchesManifest(plan, v) && OrdersOf(plan, xs, ys)
        ensures Undone(v, xs, ys)
      {
        PlanRestoresUnlessSelectorFix(plan, v, xs, ys);
      }
    }
  }

  /** Every accepted plan of the action gives one object in every order of its replacements, on every manifest it matches. */
  ghost predicate OrderNeverDecides(action: ActionType) {
    forall plan: Plan, v: Value, xs: seq<Change> ::
      ValidPlan(plan) && plan.actionType == action && MatchesManifest(plan, v) && Permutes(xs, Resolved(plan.replacements)) ==>
        Materialized(v, xs) == Materialized(v, Resolved(plan.replacements))
  }

  /** `selector_fix` is the only action whose plans may depend on the order of their replacements. */
  lemma OrderNeverDecidesIff(action: ActionType)
    ensures OrderNeverDecides(action) <==> action != SelectorFix
  {
    if action == SelectorFix {
      var plan, v, xs := SelectorFixOrderDecides();
    } else {
      forall plan: Plan, v: Value, xs: seq<Change> |
        ValidPlan(plan) && plan.actionType == action && MatchesManifest(plan, v) && Permutes(xs, Resolved(plan.replacements))
        ensures Materialized(v, xs) == Materialized(v, Resolved(plan.replacements))
      {
        OtherActionIsOrderFree(plan, v, xs);
      }
    }
  }

  lemma OtherActionIsOrderFree(plan: Plan, v: Value, xs: seq<Change>)
    requires ValidPlan(plan) && plan.actionType != SelectorFix && MatchesManifest(plan, v)
    requires Permutes(xs, Resolved(plan.replacements))
    ensures Materialized(v, xs).Some? && Materialized(v, xs) == Materialized(v, Resolved(plan.replacements))
  {
    PlanIsNameSafe(plan);
    PlanAcceptedInEveryOrderIff(plan, v);
  }
}
