/**
 * Authorization of a merged recovery diff.
 *
 * A diff is accepted when its changes are exactly the approved scalars. A change
 * may be reported on an ancestor object of approved scalars; the approved values
 * are then projected into the object and compared with what the diff reports.
 */
module RecoveryMerge {
  import opened Wrappers
  import opened Text
  import opened FieldPath
  import opened Manifest
  import opened ObjectPatch

  const ALREADY_CONVERGED := "already_converged"
  const INTENDED_CHANGE := "intended_change"
  const NO_CHANGE := "no_change"

  // ----- The approved contract -----

  /** An approved change; `path` is the parse of `fieldPath`. */
  datatype Approval = Approval(fieldPath: string, path: Path, current: Scalar, desired: Scalar)

  /** An entry of the stored change list, which may be anything. */
  datatype RawApproval = NotMapping | RawApproval(fieldPath: string, current: Value, desired: Value)

  predicate DistinctApprovals(approved: seq<Approval>) {
    forall i, j :: 0 <= i < j < |approved| ==> approved[i].fieldPath != approved[j].fieldPath
  }

  predicate ValidApproval(a: Approval) {
    a.path != [] && a.path == Parse(a.fieldPath) && a.current != a.desired
  }

  /** What a contract guarantees: at most four different parsable paths, each with a real change. */
  predicate ValidContract(approved: seq<Approval>) {
    && 1 <= |approved| <= 4
    && DistinctApprovals(approved)
    && forall i :: 0 <= i < |approved| ==> ValidApproval(approved[i])
  }

  /** One stored entry; `None` refuses the whole contract. */
  function ReadApproval(raw: RawApproval): (r: Option<Approval>)
    ensures r.Some? ==> raw.RawApproval? && ValidApproval(r.value) && r.value.fieldPath == Strip(raw.fieldPath)
  {
    if raw.NotMapping? || !raw.current.Leaf? || !raw.desired.Leaf? then None
    else
      var field := Strip(raw.fieldPath);
      if Parse(field) == [] || raw.current == raw.desired then None
      else Some(Approval(field, Parse(field), raw.current.scalar, raw.desired.scalar))
  }

  /** The list has one to four readable entries for different fields. */
  predicate ReadableContract(raw: seq<RawApproval>) {
    && 1 <= |raw| <= 4
    && (forall i :: 0 <= i < |raw| ==> ReadApproval(raw[i]).Some?)
    && (forall i, j :: 0 <= i < j < |raw| ==>
          ReadApproval(raw[i]).value.fieldPath != ReadApproval(raw[j]).value.fieldPath)
  }

  /** `approved_change_contract` on the stored change list; `None` when it is not a list. */
  method ApprovedChangeContract(changes: Option<seq<RawApproval>>) returns (r: Option<seq<Approval>>)
    ensures r.Some? <==> changes.Some? && ReadableContract(changes.value)
    ensures r.Some? ==> ValidContract(r.value) && |r.value| == |changes.value|
    ensures r.Some? ==> forall i :: 0 <= i < |r.value| ==> Some(r.value[i]) == ReadApproval(changes.value[i])
  {
    if changes.None? || !(1 <= |changes.value| <= 4) {
      return None;
    }
    var raw := changes.value;
    var approved: seq<Approval> := [];
    for i := 0 to |raw|
      invariant |approved| == i && DistinctApprovals(approved)
      invariant forall k :: 0 <= k < i ==> Some(approved[k]) == ReadApproval(raw[k])
    {
      var longer := AddApproval(raw[i], approved);
      if longer.None? {
        NotReadable(raw, approved, i);
        return None;
      }
      approved := longer.value;
    }
    AllRead(raw, approved);
    return Some(approved);
  }

  /** The field of the approval is not among those read before. */
  predicate IsNewField(a: Approval, approved: seq<Approval>) {
    forall k :: 0 <= k < |approved| ==> approved[k].fieldPath != a.fieldPath
  }

  /** One more entry; `None` when it cannot be read or repeats a field. */
  method AddApproval(raw: RawApproval, approved: seq<Approval>) returns (r: Option<seq<Approval>>)
    ensures r.Some? <==> ReadApproval(raw).Some? && IsNewField(ReadApproval(raw).value, approved)
    ensures r.Some? ==> r.value == approved + [ReadApproval(raw).value]
  {
    var a := ReadApproval(raw);
    return if a.None? || !IsNewField(a.value, approved) then None else Some(approved + [a.value]);
  }

  lemma NotReadable(raw: seq<RawApproval>, approved: seq<Approval>, i: nat)
    requires i < |raw| && |approved| == i && forall k :: 0 <= k < i ==> Some(approved[k]) == ReadApproval(raw[k])
    requires !(ReadApproval(raw[i]).Some? && IsNewField(ReadApproval(raw[i]).value, approved))
    ensures !ReadableContract(raw)
  {
    if ReadApproval(raw[i]).Some? {
      var k :| 0 <= k < i && approved[k].fieldPath == ReadApproval(raw[i]).value.fieldPath;
      assert Some(approved[k]) == ReadApproval(raw[k]);
    }
  }

  lemma AllRead(raw: seq<RawApproval>, approved: seq<Approval>)
    requires 1 <= |raw| <= 4 && |approved| == |raw| && DistinctApprovals(approved)
    requires forall k :: 0 <= k < |raw| ==> Some(approved[k]) == ReadApproval(raw[k])
    ensures ReadableContract(raw) && ValidContract(approved)
  {
    forall k | 0 <= k < |raw|
      ensures ValidApproval(approved[k]) && ReadApproval(raw[k]).Some?
    {
      assert Some(approved[k]) == ReadApproval(raw[k]);
    }
  }

  // ----- Projecting approved values into a parent object -----

  /** The approved changes below `prefix`, with their paths relative to it. */
  function Relative(approved: seq<Approval>, prefix: string): seq<Change> {
    if approved == [] then []
    else
      var a, rest := approved[0], Relative(approved[1..], prefix);
      if prefix <= a.fieldPath then [Change(Parse(a.fieldPath[|prefix|..]), a.current, a.desired)] + rest
      else rest
  }

  /** `projected_parent_value`; `None` is a raised `ManifestSourcePatchError`. */
  function Project(source: Value, parent: string, approved: seq<Approval>): Option<Value> {
    if source.Obj? then Sequential(source, Relative(approved, parent + ".")) else None
  }

  method ProjectedParentValue(source: Value, parent: string, approved: seq<Approval>) returns (r: Option<Value>)
    ensures r == Project(source, parent, approved)
  {
    if !source.Obj? {
      return None;
    }
    var projected := source;
    var prefix := parent + ".";
    assert approved[0..] == approved;
    for i := 0 to |approved|
      invariant projected.Obj?
      invariant Sequential(source, Relative(approved, prefix)) == Sequential(projected, Relative(approved[i..], prefix))
    {
      assert approved[i..][1..] == approved[i + 1..];
      if prefix <= approved[i].fieldPath {
        var segments := FieldPathSegments(approved[i].fieldPath[|prefix|..]);
        ghost var cs, rest := Relative(approved[i..], prefix), Relative(approved[i + 1..], prefix);
        assert cs == [Change(segments, approved[i].current, approved[i].desired)] + rest && cs[1..] == rest;
        var found := ObjectValueAt(projected, segments);
        if segments == [] || found != Some(Leaf(approved[i].current)) {
          return None;
        }
        var written := Set(projected, segments, approved[i].desired);
        if written.None? {
          return None;
        }
        projected := written.value;
      }
    }
    return Some(projected);
  }

  // ----- One reported change -----

  /** A reported change. Its text fields are already stripped; an absent value is null. */
  datatype DiffChange = DiffChange(fieldPath: string, classification: string, oldDesired: Value, before: Value, after: Value)

  predicate InScope(field: string, path: string) {
    path == field || field + "." <= path
  }

  function Scoped(approved: seq<Approval>, field: string): (r: seq<Approval>)
    ensures forall a :: a in r <==> a in approved && InScope(field, a.fieldPath)
    ensures DistinctApprovals(approved) ==> DistinctApprovals(r)
  {
    if approved == [] then []
    else
      var rest := Scoped(approved[1..], field);
      assert forall i :: 0 <= i < |rest| ==> rest[i] in approved[1..];
      if InScope(field, approved[0].fieldPath) then [approved[0]] + rest else rest
  }

  function Paths(approved: seq<Approval>): set<string> {
    set a | a in approved :: a.fieldPath
  }

  /** `approved_change_matches_diff`: the approved paths that the change accounts for, `None` to refuse it. */
  function MatchChange(c: DiffChange, approved: seq<Approval>): Option<set<string>> {
    var scoped := Scoped(approved, c.fieldPath);
    var intended := c.classification == INTENDED_CHANGE;
    if scoped == [] then
      if c.classification == ALREADY_CONVERGED then Some({}) else None
    else if !intended && c.classification != ALREADY_CONVERGED then None
    else if Paths(scoped) == {c.fieldPath} then
      var a := scoped[0];
      if && c.oldDesired == Leaf(a.current)
         && c.before == Leaf(if intended then a.current else a.desired)
         && c.after == Leaf(a.desired)
      then Some(Paths(scoped)) else None
    else if intended then
      var projected := Project(c.before, c.fieldPath, scoped);
      if PyEq(c.oldDesired, c.before) && projected.Some? && PyEq(projected.value, c.after)
      then Some(Paths(scoped)) else None
    else
      var projected := Project(c.oldDesired, c.fieldPath, scoped);
      if projected.Some? && PyEq(projected.value, c.before) && PyEq(c.before, c.after)
      then Some(Paths(scoped)) else None
  }

  // ----- The whole diff -----

  datatype Diff = Diff(
    resource: string, namespace: string, desired: Value, hasChanges: bool, status: string, changes: seq<Option<DiffChange>>)

  predicate DesiredHolds(desired: Value, approved: seq<Approval>) {
    forall i :: 0 <= i < |approved| ==> Get(desired, approved[i].path) == Some(Leaf(approved[i].desired))
  }

  /** The verdict on an entry: the approved paths it accounts for, `None` when it refuses the diff. */
  function Verdict(entry: Option<DiffChange>, approved: seq<Approval>): Option<set<string>> {
    if entry.None? then None else MatchChange(entry.value, approved)
  }

  predicate Intended(entry: Option<DiffChange>) {
    entry.Some? && entry.value.classification == INTENDED_CHANGE
  }

  predicate Covers(verdict: Option<set<string>>, path: string) {
    verdict.Some? && path in verdict.value
  }

  // ----- The resource the diff is about -----

  /** `str.casefold`, and `str` of a loaded value. */
  datatype Texts = Texts(fold: string -> string, render: Value -> string)

  /** The resource that was authorized. */
  datatype Target = Target(namespace: string, kind: string, name: string)

  /** Python's falsy values. */
  predicate IsFalsy(v: Value) {
    || v == Leaf(Null) || v == Leaf(Bool(false)) || v == Leaf(Int(0)) || v == Leaf(Float(0.0)) || v == Leaf(Str(""))
    || v == List([]) || v == Obj(map[])
  }

  /** `text` of an entry of a mapping, which may be missing. */
  function TextAt(texts: Texts, v: Value, key: string): string {
    if !v.Obj? || Text(key) !in v.fields || IsFalsy(v.fields[Text(key)]) then ""
    else Strip(texts.render(v.fields[Text(key)]))
  }

  function ChildOf(v: Value, key: string): Value {
    if v.Obj? && Text(key) in v.fields then v.fields[Text(key)] else Leaf(Null)
  }

  /** The text before and after the first slash. */
  function Partition(s: string): Option<(string, string)> {
    if s == "" then None
    else if s[0] == '/' then Some(("", s[1..]))
    else
      var rest := Partition(s[1..]);
      if rest.None? then None else Some(([s[0]] + rest.value.0, rest.value.1))
  }

  /** The diff and its manifest name the authorized resource. */
  predicate SameResource(texts: Texts, target: Target, diff: Diff) {
    var namespace, kind, name := Strip(target.namespace), Strip(target.kind), Strip(target.name);
    var resource := Partition(Strip(diff.resource));
    var metadata := ChildOf(diff.desired, "metadata");
    && namespace != "" && kind != "" && name != ""
    && diff.namespace == namespace
    && resource.Some? && texts.fold(resource.value.0) == texts.fold(kind) && resource.value.1 == name
    && texts.fold(TextAt(texts, diff.desired, "kind")) == texts.fold(kind)
    && TextAt(texts, metadata, "name") == name
    && (TextAt(texts, metadata, "namespace") == "" || TextAt(texts, metadata, "namespace") == namespace)
  }

  /** The resource text names the kind before its first slash and the name after it. */
  lemma {:induction false} PartitionIsFirstSlash(s: string, kind: string, name: string)
    ensures Partition(s) == Some((kind, name)) <==> s == kind + "/" + name && '/' !in kind
  {
    if s != "" && s[0] != '/' {
      if kind != "" {
        PartitionIsFirstSlash(s[1..], kind[1..], name);
        assert kind == [kind[0]] + kind[1..] && s == [s[0]] + s[1..];
        assert s == kind + "/" + name ==> s[0] == kind[0] && s[1..] == kind[1..] + "/" + name;
        assert s[0] == kind[0] && s[1..] == kind[1..] + "/" + name ==> s == kind + "/" + name;
      } else {
        assert (kind + "/" + name)[0] == '/';
      }
    } else if s != "" {
      assert s == "/" + s[1..];
      if kind != "" {
        assert (kind + "/" + name)[0] == kind[0];
      } else {
        assert (kind + "/" + name)[1..] == name;
      }
    } else {
      assert |kind + "/" + name| >= 1;
    }
  }

  /** All entries match, some intended one among approved paths, and together they cover all approved paths. */
  ghost predicate Suffices(changes: seq<Option<DiffChange>>, vs: seq<Option<set<string>>>, paths: set<string>)
    requires |vs| == |changes|
  {
    && (forall i :: 0 <= i < |vs| ==> vs[i].Some?)
    && (exists i :: 0 <= i < |vs| && vs[i].value != {} && Intended(changes[i]))
    && (forall p :: p in paths ==> exists i :: 0 <= i < |vs| && Covers(vs[i], p))
  }

  /** What `recovery_diff_matches_approved_scope` accepts for a valid contract on the right resource. */
  ghost predicate InApprovedScope(diff: Diff, approved: seq<Approval>) {
    && DesiredHolds(diff.desired, approved)
    && if !diff.hasChanges then
         && (diff.status == ALREADY_CONVERGED || diff.status == NO_CHANGE)
         && forall i :: 0 <= i < |diff.changes| ==>
              diff.changes[i].Some? && diff.changes[i].value.classification == ALREADY_CONVERGED
       else Suffices(diff.changes, Verdicts(diff.changes, approved), Paths(approved))
  }

  function Verdicts(changes: seq<Option<DiffChange>>, approved: seq<Approval>): (vs: seq<Option<set<string>>>)
    ensures |vs| == |changes|
    ensures forall i :: 0 <= i < |changes| ==> vs[i] == Verdict(changes[i], approved)
  {
    seq(|changes|, i requires 0 <= i < |changes| => Verdict(changes[i], approved))
  }

  lemma MatchedPathsAreApproved(c: DiffChange, approved: seq<Approval>)
    ensures MatchChange(c, approved).Some? ==> MatchChange(c, approved).value <= Paths(approved)
  {
  }

  method HoldsDesired(desired: Value, approved: seq<Approval>) returns (ok: bool)
    requires ValidContract(approved)
    ensures ok == DesiredHolds(desired, approved)
  {
    var i := 0;
    while i < |approved|
      invariant 0 <= i <= |approved| && DesiredHolds(desired, approved[..i])
    {
      var holds := HoldsOne(desired, approved, i);
      if !holds {
        return false;
      }
      i := i + 1;
    }
    assert approved[..i] == approved;
    return true;
  }

  /** One approval more: the manifest holds it, and with it all up to it; or it does not hold them all. */
  method HoldsOne(desired: Value, approved: seq<Approval>, i: nat) returns (ok: bool)
    requires ValidContract(approved) && i < |approved| && DesiredHolds(desired, approved[..i])
    ensures ok ==> DesiredHolds(desired, approved[..i + 1])
    ensures !ok ==> !DesiredHolds(desired, approved)
  {
    assert ValidApproval(approved[i]);
    var segments := FieldPathSegments(approved[i].fieldPath);
    var found := ObjectValueAt(desired, segments);
    ok := found == Some(Leaf(approved[i].desired));
    HoldsOneMore(desired, approved, i);
  }

  lemma HoldsOneMore(desired: Value, approved: seq<Approval>, i: nat)
    requires i < |approved| && DesiredHolds(desired, approved[..i])
    ensures DesiredHolds(desired, approved[..i + 1]) <==> Get(desired, approved[i].path) == Some(Leaf(approved[i].desired))
  {
    var longer := approved[..i + 1];
    assert longer[i] == approved[i] && forall k :: 0 <= k < i ==> longer[k] == approved[..i][k];
  }

  /** The accumulating loop over the verdicts on the reported changes. */
  method Accumulate(changes: seq<Option<DiffChange>>, vs: seq<Option<set<string>>>)
    returns (ok: bool, covered: set<string>, intended: nat)
    requires |vs| == |changes|
    ensures ok <==> forall i :: 0 <= i < |vs| ==> vs[i].Some?
    ensures ok ==> (intended > 0 <==> exists i :: 0 <= i < |vs| && vs[i].value != {} && Intended(changes[i]))
    ensures ok ==> forall p :: p in covered <==> exists i :: 0 <= i < |vs| && Covers(vs[i], p)
  {
    covered, intended := {}, 0;
    for i := 0 to |vs|
      invariant forall k :: 0 <= k < i ==> vs[k].Some?
      invariant intended > 0 <==> exists k :: 0 <= k < i && vs[k].value != {} && Intended(changes[k])
      invariant forall p :: p in covered <==> exists k :: 0 <= k < i && Covers(vs[k], p)
    {
      if vs[i].None? {
        return false, covered, intended;
      }
      if vs[i].value != {} && Intended(changes[i]) {
        intended := intended + 1;
      }
      covered := covered + vs[i].value;
      assert forall p :: p in vs[i].value <==> Covers(vs[i], p);
    }
    return true, covered, intended;
  }

  /** The approvals a readable list stands for. */
  function Contract(raw: seq<RawApproval>): (r: seq<Approval>)
    requires ReadableContract(raw)
    ensures |r| == |raw| && forall i :: 0 <= i < |raw| ==> Some(r[i]) == ReadApproval(raw[i])
  {
    seq(|raw|, i requires 0 <= i < |raw| => ReadApproval(raw[i]).value)
  }

  /** The checks on the contents of the diff. */
  method MatchesApprovedScope(diff: Diff, approved: seq<Approval>) returns (accepted: bool)
    requires ValidContract(approved)
    ensures accepted == InApprovedScope(diff, approved)
  {
    var holds := HoldsDesired(diff.desired, approved);
    if !holds {
      return false;
    }
    if !diff.hasChanges {
      return (diff.status == ALREADY_CONVERGED || diff.status == NO_CHANGE)
        && forall i :: 0 <= i < |diff.changes| ==>
             diff.changes[i].Some? && diff.changes[i].value.classification == ALREADY_CONVERGED;
    }
    var vs := Verdicts(diff.changes, approved);
    var ok, covered, intended := Accumulate(diff.changes, vs);
    assert ok ==> covered <= Paths(approved) by {
      forall i | 0 <= i < |vs| && vs[i].Some?
        ensures vs[i].value <= Paths(approved)
      {
        MatchedPathsAreApproved(diff.changes[i].value, approved);
      }
    }
    return ok && intended > 0 && covered == Paths(approved);
  }

  /** The verdict on a diff for an authorized target and the stored list of approved changes. */
  ghost predicate Authorizes(texts: Texts, target: Target, changes: Option<seq<RawApproval>>, diff: Diff) {
    && changes.Some? && ReadableContract(changes.value)
    && SameResource(texts, target, diff) && InApprovedScope(diff, Contract(changes.value))
  }

  method RecoveryDiffMatchesApprovedScope(texts: Texts, target: Target, changes: Option<seq<RawApproval>>, diff: Diff)
    returns (accepted: bool)
    ensures accepted == Authorizes(texts, target, changes, diff)
  {
    var approved := ApprovedChangeContract(changes);
    if approved.None? || !SameResource(texts, target, diff) {
      return false;
    }
    assert approved.value == Contract(changes.value);
    accepted := MatchesApprovedScope(diff, approved.value);
  }

  // ----- What contract is read -----

  /** The entry changes the scalar at a parsable field to another scalar. */
  predicate IsScalarChange(raw: RawApproval) {
    raw.RawApproval? && Parse(Strip(raw.fieldPath)) != [] && raw.current.Leaf? && raw.desired.Leaf? && raw.current != raw.desired
  }

  /** A list is a contract exactly when it has one to four scalar changes of different fields, and it stands for those changes. */
  lemma ContractIff(raw: seq<RawApproval>)
    ensures ReadableContract(raw) <==>
      && 1 <= |raw| <= 4 && (forall i :: 0 <= i < |raw| ==> IsScalarChange(raw[i]))
      && (forall i, j :: 0 <= i < j < |raw| ==> Parse(Strip(raw[i].fieldPath)) != Parse(Strip(raw[j].fieldPath)))
    ensures ReadableContract(raw) ==> forall i :: 0 <= i < |raw| ==>
      && Contract(raw)[i].path == Parse(Strip(raw[i].fieldPath))
      && Leaf(Contract(raw)[i].current) == raw[i].current && Leaf(Contract(raw)[i].desired) == raw[i].desired
  {
    if ReadableContract(raw) {
      forall i, j | 0 <= i < j < |raw|
        ensures Parse(Strip(raw[i].fieldPath)) != Parse(Strip(raw[j].fieldPath))
      {
        assert ReadApproval(raw[i]).Some? && ReadApproval(raw[j]).Some?;
        if Parse(Strip(raw[i].fieldPath)) == Parse(Strip(raw[j].fieldPath)) {
          ParseIsInjective(Strip(raw[i].fieldPath), Strip(raw[j].fieldPath));
        }
      }
    }
  }

  /** A diff without changes is accepted exactly when it is reported as converged throughout and the manifest holds the approved values. */
  lemma ConvergedIff(diff: Diff, approved: seq<Approval>)
    requires !diff.hasChanges
    ensures InApprovedScope(diff, approved) <==>
      && diff.status in {"already_converged", "no_change"}
      && (forall c :: c in diff.changes ==> c.Some? && c.value.classification == "already_converged")
      && (forall a :: a in approved ==> Get(diff.desired, a.path) == Some(Leaf(a.desired)))
  {
    if forall c :: c in diff.changes ==> c.Some? && c.value.classification == "already_converged" {
      forall i | 0 <= i < |diff.changes|
        ensures diff.changes[i].Some? && diff.changes[i].value.classification == ALREADY_CONVERGED
      {
        assert diff.changes[i] in diff.changes;
      }
    }
    if forall a :: a in approved ==> Get(diff.desired, a.path) == Some(Leaf(a.desired)) {
      forall i | 0 <= i < |approved|
        ensures Get(diff.desired, approved[i].path) == Some(Leaf(approved[i].desired))
      {
        assert approved[i] in approved;
      }
    }
  }

  // ----- What resource is authorized -----

  /** `text` of what a manifest holds, which may be nothing. */
  function Shown(texts: Texts, v: Option<Value>): string {
    if v.None? || IsFalsy(v.value) then "" else Strip(texts.render(v.value))
  }

  function Plain(key: string): Segment {
    Segment(key, None)
  }

  /** What a manifest says about itself, read by paths. */
  function KindOf(texts: Texts, manifest: Value): string {
    Shown(texts, Get(manifest, [Plain("kind")]))
  }

  function NameOf(texts: Texts, manifest: Value): string {
    Shown(texts, Get(manifest, [Plain("metadata"), Plain("name")]))
  }

  function NamespaceOf(texts: Texts, manifest: Value): string {
    Shown(texts, Get(manifest, [Plain("metadata"), Plain("namespace")]))
  }

  lemma ReadsOneKey(texts: Texts, v: Value, key: string)
    ensures Shown(texts, Get(v, [Plain(key)])) == TextAt(texts, v, key)
  {
    assert [Plain(key)][1..] == [];
    assert Get(v, [Plain(key)]) == Descend(v, Plain(key));
  }

  lemma ReadsTwoKeys(texts: Texts, v: Value, first: string, second: string)
    ensures Shown(texts, Get(v, [Plain(first), Plain(second)])) == TextAt(texts, ChildOf(v, first), second)
  {
    var path := [Plain(first), Plain(second)];
    assert path[1..] == [Plain(second)];
    ReadsOneKey(texts, ChildOf(v, first), second);
  }

  /**
   * A diff is authorized exactly for a non-blank target in whose namespace it is, whose
   * kind and name its resource text and its manifest give, and whose namespace its
   * manifest gives or leaves open.
   */
  lemma AuthorizedIff(texts: Texts, target: Target, changes: Option<seq<RawApproval>>, diff: Diff)
    ensures var namespace, kind, name := Strip(target.namespace), Strip(target.kind), Strip(target.name);
      Authorizes(texts, target, changes, diff) <==>
      && changes.Some? && ReadableContract(changes.value) && InApprovedScope(diff, Contract(changes.value))
      && namespace != "" && kind != "" && name != ""
      && diff.namespace == namespace
      && (exists prefix ::
            Strip(diff.resource) == prefix + "/" + name && '/' !in prefix && texts.fold(prefix) == texts.fold(kind))
      && texts.fold(KindOf(texts, diff.desired)) == texts.fold(kind)
      && NameOf(texts, diff.desired) == name
      && NamespaceOf(texts, diff.desired) in {"", namespace}
  {
    ReadsOneKey(texts, diff.desired, "kind");
    ReadsTwoKeys(texts, diff.desired, "metadata", "name");
    ReadsTwoKeys(texts, diff.desired, "metadata", "namespace");
    var resource, name := Strip(diff.resource), Strip(target.name);
    if Partition(resource).Some? {
      PartitionIsFirstSlash(resource, Partition(resource).value.0, Partition(resource).value.1);
    }
    forall prefix | resource == prefix + "/" + name && '/' !in prefix
      ensures Partition(resource) == Some((prefix, name))
    {
      PartitionIsFirstSlash(resource, prefix, name);
    }
  }

  /** One diff is never authorized for two resources, whatever was approved. */
  lemma OneTarget(texts: Texts, target: Target, target': Target, changes: Option<seq<RawApproval>>,
                  changes': Option<seq<RawApproval>>, diff: Diff)
    requires Authorizes(texts, target, changes, diff) && Authorizes(texts, target', changes', diff)
    ensures Strip(target.namespace) == Strip(target'.namespace) && Strip(target.name) == Strip(target'.name)
    ensures texts.fold(Strip(target.kind)) == texts.fold(Strip(target'.kind))
  {
    AuthorizedIff(texts, target, changes, diff);
    AuthorizedIff(texts, target', changes', diff);
  }

  // ----- Soundness -----

  /**
   * The approved change `a`, reported on the object at `base`, takes the leaf at
   * `pos` of `from` (reached by the rest of its path) to its desired value in `to`.
   */
  predicate AppliedAt(base: Path, from: Value, to: Value, a: Approval, rel: Path, pos: Pos) {
    && a.path == base + rel
    && Locate(from, rel) == Some(pos)
    && At(from, pos) == Some(Leaf(a.current))
    && LeafAt(to, pos) && ScalarEq(At(to, pos).value.scalar, a.desired)
  }

  /** A leaf of either object that the other does not have with an equal value. */
  predicate LeafDiffers(from: Value, to: Value, pos: Pos) {
    if LeafAt(from, pos) && LeafAt(to, pos) then !ScalarEq(At(from, pos).value.scalar, At(to, pos).value.scalar)
    else LeafAt(from, pos) || LeafAt(to, pos)
  }

  ghost predicate Applied(base: Path, from: Value, to: Value, a: Approval) {
    exists rel, pos :: AppliedAt(base, from, to, a, rel, pos)
  }

  ghost predicate Explained(base: Path, from: Value, to: Value, scoped: seq<Approval>, pos: Pos) {
    exists i, rel :: 0 <= i < |scoped| && AppliedAt(base, from, to, scoped[i], rel, pos)
  }

  /** `to` is `from` with exactly the changes of `scoped`. */
  ghost predicate Exact(base: Path, from: Value, to: Value, scoped: seq<Approval>) {
    && (forall pos :: LeafDiffers(from, to, pos) ==> Explained(base, from, to, scoped, pos))
    && (forall i :: 0 <= i < |scoped| ==> Applied(base, from, to, scoped[i]))
  }

  lemma {:induction false} RelativeAll(approved: seq<Approval>, prefix: string)
    requires forall i :: 0 <= i < |approved| ==> prefix <= approved[i].fieldPath
    ensures |Relative(approved, prefix)| == |approved|
    ensures forall i :: 0 <= i < |approved| ==>
      var c := Relative(approved, prefix)[i];
      c == Change(Parse(approved[i].fieldPath[|prefix|..]), approved[i].current, approved[i].desired)
  {
    if approved != [] {
      RelativeAll(approved[1..], prefix);
    }
  }

  /** The desired manifest cannot hold a scalar both at a path and below it. */
  lemma NoScalarBelowScalar(desired: Value, field: string, path: string)
    requires Parse(field) != [] && Parse(path) != [] && field + "." <= path
    requires Get(desired, Parse(field)).Some? && Get(desired, Parse(field)).value.Leaf?
    ensures Get(desired, Parse(path)).None?
  {
    var rest := path[|field| + 1..];
    assert path == field + "." + rest;
    CutFallsOnBoundary(field, rest);
    LocateAppend(desired, Parse(field), Parse(rest));
  }

  /** Reading an approved path relative to a reported ancestor. */
  lemma RelativePath(desired: Value, field: string, a: Approval, rel: Path)
    requires ValidApproval(a) && field + "." <= a.fieldPath && rel == Parse(a.fieldPath[|field| + 1..]) && rel != []
    requires Get(desired, a.path) == Some(Leaf(a.desired))
    ensures a.path == Parse(field) + rel
    ensures !NameSafe(rel) ==> a.desired == Str(rel[|rel| - 2].selected.value)
  {
    var rest := a.fieldPath[|field| + 1..];
    assert a.fieldPath == field + "." + rest;
    CutFallsOnBoundary(field, rest);
    if !NameSafe(rel) {
      UnsafePathReadsItsName(desired, a.path);
    }
  }

  /** The relative changes carry the approved values and continue the reported path. */
  predicate Continues(base: Path, scoped: seq<Approval>, cs: seq<Change>) {
    && |cs| == |scoped|
    && forall i :: 0 <= i < |cs| ==>
         cs[i].current == scoped[i].current && cs[i].desired == scoped[i].desired && scoped[i].path == base + cs[i].path
  }

  /** In an accepted projection no path renames a selected item, and all relative paths differ. */
  lemma ProjectionIsWellFormed(desired: Value, source: Value, field: string, scoped: seq<Approval>)
    requires DistinctApprovals(scoped)
    requires forall i :: 0 <= i < |scoped| ==> ValidApproval(scoped[i]) && field + "." <= scoped[i].fieldPath
    requires DesiredHolds(desired, scoped)
    requires Sequential(source, Relative(scoped, field + ".")).Some?
    ensures var cs := Relative(scoped, field + ".");
      Continues(Parse(field), scoped, cs) && WellFormed(cs) && AllNameSafe(cs)
  {
    var prefix := field + ".";
    var cs := Relative(scoped, prefix);
    RelativeAll(scoped, prefix);
    SequentialReads(source, cs);
    assert forall i :: 0 <= i < |cs| ==> scoped[i].fieldPath[|prefix|..] == scoped[i].fieldPath[|field| + 1..];
    RelativeContinues(desired, field, Parse(field), scoped, cs);
    ContinuationsDiffer(Parse(field), scoped, cs);
  }

  lemma RelativeContinues(desired: Value, field: string, base: Path, scoped: seq<Approval>, cs: seq<Change>)
    requires base == Parse(field) && DesiredHolds(desired, scoped) && |cs| == |scoped|
    requires forall i :: 0 <= i < |scoped| ==> ValidApproval(scoped[i]) && field + "." <= scoped[i].fieldPath
    requires forall i :: 0 <= i < |cs| ==>
      cs[i] == Change(Parse(scoped[i].fieldPath[|field| + 1..]), scoped[i].current, scoped[i].desired) && cs[i].path != []
    requires forall i :: 0 <= i < |cs| && !NameSafe(cs[i].path) ==>
      cs[i].current == Str(cs[i].path[|cs[i].path| - 2].selected.value)
    ensures Continues(base, scoped, cs) && AllNameSafe(cs) && forall i :: 0 <= i < |cs| ==> ValidChange(cs[i])
  {
    forall i | 0 <= i < |cs|
      ensures NameSafe(cs[i].path) && ValidChange(cs[i]) && scoped[i].path == base + cs[i].path
    {
      RelativePath(desired, field, scoped[i], cs[i].path);
    }
  }

  lemma ContinuationsDiffer(base: Path, scoped: seq<Approval>, cs: seq<Change>)
    requires Continues(base, scoped, cs) && DistinctApprovals(scoped)
    requires forall i :: 0 <= i < |scoped| ==> ValidApproval(scoped[i])
    ensures DistinctTargets(cs)
  {
    forall i, j | 0 <= i < j < |cs|
      ensures cs[i].path != cs[j].path
    {
      if cs[i].path == cs[j].path {
        ParseIsInjective(scoped[i].fieldPath, scoped[j].fieldPath);
        assert false;
      }
    }
  }

  /** The order in which the scoped approvals are projected does not matter. */
  lemma ProjectInAnyOrder(desired: Value, source: Value, field: string, xs: seq<Approval>, ys: seq<Approval>)
    requires DistinctApprovals(xs) && DesiredHolds(desired, xs) && multiset(xs) == multiset(ys)
    requires forall i :: 0 <= i < |xs| ==> ValidApproval(xs[i]) && field + "." <= xs[i].fieldPath
    requires Project(source, field, xs).Some?
    ensures Project(source, field, ys) == Project(source, field, xs)
  {
    ProjectionIsWellFormed(desired, source, field, xs);
    RelativePermuted(xs, ys, field + ".");
    var cs, ds := Relative(xs, field + "."), Relative(ys, field + ".");
    IncludedIsPermutation(cs, ds);
    SequentialInAnyOrder(source, cs, ds);
  }

  lemma RelativePermuted(xs: seq<Approval>, ys: seq<Approval>, prefix: string)
    requires multiset(xs) == multiset(ys)
    requires forall i :: 0 <= i < |xs| ==> prefix <= xs[i].fieldPath
    ensures |Relative(ys, prefix)| == |Relative(xs, prefix)|
    ensures forall c :: c in Relative(xs, prefix) ==> c in Relative(ys, prefix)
  {
    PermutedMembers(xs, ys);
    forall i | 0 <= i < |ys|
      ensures prefix <= ys[i].fieldPath
    {
      assert ys[i] in xs;
    }
    RelativeAll(xs, prefix);
    RelativeAll(ys, prefix);
    var cs, ds := Relative(xs, prefix), Relative(ys, prefix);
    forall i | 0 <= i < |cs|
      ensures cs[i] in ds
    {
      assert xs[i] in ys;
      var j :| 0 <= j < |ys| && ys[j] == xs[i];
      assert ds[j] == cs[i];
    }
  }

  /** A projection that equals the reported object explains every difference. */
  lemma ProjectionIsExact(base: Path, from: Value, to: Value, scoped: seq<Approval>, cs: seq<Change>)
    requires Continues(base, scoped, cs) && WellFormed(cs) && AllNameSafe(cs)
    requires Sequential(from, cs).Some? && PyEq(Sequential(from, cs).value, to)
    ensures Exact(base, from, to, scoped)
  {
    SequentialIsMaterialized(from, cs);
    forall i | 0 <= i < |scoped|
      ensures Applied(base, from, to, scoped[i])
    {
      var pos := TargetIsApplied(from, to, cs, i);
      assert AppliedAt(base, from, to, scoped[i], cs[i].path, pos);
    }
    forall pos | LeafDiffers(from, to, pos)
      ensures Explained(base, from, to, scoped, pos)
    {
      var i := DifferenceIsTarget(from, to, cs, pos);
      assert AppliedAt(base, from, to, scoped[i], cs[i].path, pos);
    }
  }

  lemma TargetIsApplied(from: Value, to: Value, cs: seq<Change>, i: nat) returns (pos: Pos)
    requires WellFormed(cs) && AllNameSafe(cs) && CurrentValuesMatch(from, cs) && i < |cs|
    requires Materialized(from, cs).Some? && PyEq(Materialized(from, cs).value, to)
    ensures Locate(from, cs[i].path) == Some(pos) && At(from, pos) == Some(Leaf(cs[i].current))
    ensures LeafAt(to, pos) && ScalarEq(At(to, pos).value.scalar, cs[i].desired)
  {
    GetIsAtLocate(from, cs[i].path);
    pos := Locate(from, cs[i].path).value;
    MaterializedChangesOnlyTargets(from, cs, pos);
    AtPyEq(Materialized(from, cs).value, to, pos);
  }

  lemma DifferenceIsTarget(from: Value, to: Value, cs: seq<Change>, pos: Pos) returns (i: nat)
    requires WellFormed(cs) && AllNameSafe(cs) && CurrentValuesMatch(from, cs)
    requires Materialized(from, cs).Some? && PyEq(Materialized(from, cs).value, to)
    requires LeafDiffers(from, to, pos)
    ensures i < |cs| && Locate(from, cs[i].path) == Some(pos) && At(from, pos) == Some(Leaf(cs[i].current))
    ensures LeafAt(to, pos) && ScalarEq(At(to, pos).value.scalar, cs[i].desired)
  {
    var w := Materialized(from, cs).value;
    AtPyEq(w, to, pos);
    MaterializedChangesOnlyTargets(from, cs, pos);
    assert exists k :: 0 <= k < |cs| && Locate(from, cs[k].path) == Some(pos);
    i :| 0 <= i < |cs| && Locate(from, cs[i].path) == Some(pos);
    GetIsAtLocate(from, cs[i].path);
  }

  /** The object that an accepted change starts from, and the one it must equal after projection. */
  function From(c: DiffChange): Value {
    if c.classification == INTENDED_CHANGE then c.before else c.oldDesired
  }

  function To(c: DiffChange): Value {
    if c.classification == INTENDED_CHANGE then c.after else c.before
  }

  lemma ScopedIsBelow(desired: Value, approved: seq<Approval>, field: string)
    requires ValidContract(approved) && DesiredHolds(desired, approved)
    requires Paths(Scoped(approved, field)) != {field}
    ensures forall i :: 0 <= i < |Scoped(approved, field)| ==> field + "." <= Scoped(approved, field)[i].fieldPath
  {
    var scoped := Scoped(approved, field);
    forall i | 0 <= i < |scoped|
      ensures field + "." <= scoped[i].fieldPath
    {
      assert scoped[i] in scoped;
      if scoped[i].fieldPath == field {
        assert field in Paths(scoped);
        var p :| p in Paths(scoped) && p != field;
        var b :| b in scoped && b.fieldPath == p;
        assert scoped[i] in approved && b in approved;
        var j :| 0 <= j < |approved| && approved[j] == scoped[i];
        var k :| 0 <= k < |approved| && approved[k] == b;
        assert ValidApproval(approved[j]) && ValidApproval(approved[k]);
        NoScalarBelowScalar(desired, field, p);
        assert false;
      }
    }
  }

  lemma ScopedIsValid(desired: Value, approved: seq<Approval>, field: string)
    requires ValidContract(approved) && DesiredHolds(desired, approved)
    ensures var scoped := Scoped(approved, field);
      && DistinctApprovals(scoped) && DesiredHolds(desired, scoped)
      && forall i :: 0 <= i < |scoped| ==> ValidApproval(scoped[i])
  {
    var scoped := Scoped(approved, field);
    forall i | 0 <= i < |scoped|
      ensures ValidApproval(scoped[i]) && Get(desired, scoped[i].path) == Some(Leaf(scoped[i].desired))
    {
      assert scoped[i] in approved;
      var k :| 0 <= k < |approved| && approved[k] == scoped[i];
    }
  }

  /** A change reported on an approved scalar itself. */
  lemma ScalarIsExact(base: Path, from: Scalar, to: Scalar, scoped: seq<Approval>)
    requires |scoped| == 1 && scoped[0].path == base && scoped[0].current == from && scoped[0].desired == to
    ensures Exact(base, Leaf(from), Leaf(to), scoped)
  {
    assert base + [] == base;
    assert AppliedAt(base, Leaf(from), Leaf(to), scoped[0], [], []);
  }

  /** Every accepted change that touches approved paths is exactly those approved changes. */
  lemma AcceptedChangeIsExact(c: DiffChange, approved: seq<Approval>, desired: Value)
    requires ValidContract(approved) && DesiredHolds(desired, approved)
    requires MatchChange(c, approved).Some? && Scoped(approved, c.fieldPath) != []
    ensures Exact(Parse(c.fieldPath), From(c), To(c), Scoped(approved, c.fieldPath))
  {
    var scoped := Scoped(approved, c.fieldPath);
    ScopedIsValid(desired, approved, c.fieldPath);
    if Paths(scoped) == {c.fieldPath} {
      SingleScoped(scoped, c.fieldPath);
      ScalarIsExact(Parse(c.fieldPath), scoped[0].current, scoped[0].desired, scoped);
    } else {
      ScopedIsBelow(desired, approved, c.fieldPath);
      BelowIsExact(desired, c.fieldPath, From(c), To(c), scoped);
    }
  }

  lemma BelowIsExact(desired: Value, field: string, from: Value, to: Value, scoped: seq<Approval>)
    requires DistinctApprovals(scoped) && DesiredHolds(desired, scoped)
    requires forall i :: 0 <= i < |scoped| ==> ValidApproval(scoped[i]) && field + "." <= scoped[i].fieldPath
    requires Project(from, field, scoped).Some? && PyEq(Project(from, field, scoped).value, to)
    ensures Exact(Parse(field), from, to, scoped)
  {
    ProjectionIsWellFormed(desired, from, field, scoped);
    ProjectionIsExact(Parse(field), from, to, scoped, Relative(scoped, field + "."));
  }

  lemma SingleScoped(scoped: seq<Approval>, field: string)
    requires DistinctApprovals(scoped) && scoped != [] && Paths(scoped) == {field}
    requires forall i :: 0 <= i < |scoped| ==> ValidApproval(scoped[i])
    ensures |scoped| == 1 && scoped[0].fieldPath == field && scoped[0].path == Parse(field)
  {
    forall i | 0 <= i < |scoped|
      ensures scoped[i].fieldPath == field
    {
      assert scoped[i] in scoped && scoped[i].fieldPath in Paths(scoped);
    }
    assert ValidApproval(scoped[0]);
    assert scoped[|scoped| - 1].fieldPath == scoped[0].fieldPath;
  }

  /**
   * An accepted diff with changes: every intended change is exactly the approved
   * changes in its scope, some change is intended, every approved path is in the
   * scope of an accepted change that applies it, and the desired manifest holds
   * all approved values.
   */
  lemma AuthorizationIsSound(diff: Diff, approved: seq<Approval>)
    requires ValidContract(approved) && InApprovedScope(diff, approved) && diff.hasChanges
    ensures forall i :: 0 <= i < |diff.changes| ==> diff.changes[i].Some?
    ensures forall i :: 0 <= i < |diff.changes| && Intended(diff.changes[i]) ==>
      var c := diff.changes[i].value;
      Scoped(approved, c.fieldPath) != [] && Exact(Parse(c.fieldPath), c.before, c.after, Scoped(approved, c.fieldPath))
    ensures exists i :: 0 <= i < |diff.changes| && Intended(diff.changes[i])
    ensures forall a :: a in approved ==>
      exists i :: 0 <= i < |diff.changes| && AppliedBy(diff.changes[i], a)
    ensures DesiredHolds(diff.desired, approved)
  {
    var vs := Verdicts(diff.changes, approved);
    forall i | 0 <= i < |diff.changes|
      ensures diff.changes[i].Some?
      ensures Intended(diff.changes[i]) ==>
        var c := diff.changes[i].value;
        Scoped(approved, c.fieldPath) != [] && Exact(Parse(c.fieldPath), c.before, c.after, Scoped(approved, c.fieldPath))
    {
      assert vs[i].Some?;
      if Intended(diff.changes[i]) {
        AcceptedChangeIsExact(diff.changes[i].value, approved, diff.desired);
      }
    }
    forall a | a in approved
      ensures exists i :: 0 <= i < |diff.changes| && AppliedBy(diff.changes[i], a)
    {
      assert a.fieldPath in Paths(approved);
      var i :| 0 <= i < |vs| && Covers(vs[i], a.fieldPath);
      CoveredIsApplied(diff.changes[i].value, approved, diff.desired, a);
    }
  }

  /** The change reports `a`, in scope of its path, as applied. */
  ghost predicate AppliedBy(entry: Option<DiffChange>, a: Approval) {
    entry.Some? && InScope(entry.value.fieldPath, a.fieldPath)
    && Applied(Parse(entry.value.fieldPath), From(entry.value), To(entry.value), a)
  }

  lemma CoveredIsApplied(c: DiffChange, approved: seq<Approval>, desired: Value, a: Approval)
    requires ValidContract(approved) && DesiredHolds(desired, approved) && a in approved
    requires MatchChange(c, approved).Some? && a.fieldPath in MatchChange(c, approved).value
    ensures AppliedBy(Some(c), a)
  {
    var scoped := Scoped(approved, c.fieldPath);
    assert a.fieldPath in Paths(scoped);
    var b :| b in scoped && b.fieldPath == a.fieldPath;
    assert a == b by {
      assert b in approved;
      var i :| 0 <= i < |approved| && approved[i] == a;
      var j :| 0 <= j < |approved| && approved[j] == b;
    }
    AcceptedChangeIsExact(c, approved, desired);
    var k :| 0 <= k < |scoped| && scoped[k] == b;
  }

  // ----- Reports of exactly the approved scalars -----

  /** The change reported on an approved scalar itself. */
  function ScalarReport(a: Approval): DiffChange {
    DiffChange(a.fieldPath, INTENDED_CHANGE, Leaf(a.current), Leaf(a.current), Leaf(a.desired))
  }

  function ScalarReports(approved: seq<Approval>): (r: seq<Option<DiffChange>>)
    ensures |r| == |approved| && forall i :: 0 <= i < |approved| ==> r[i] == Some(ScalarReport(approved[i]))
  {
    seq(|approved|, i requires 0 <= i < |approved| => Some(ScalarReport(approved[i])))
  }

  lemma OnlyItselfInScope(desired: Value, approved: seq<Approval>, a: Approval, b: Approval)
    requires ValidContract(approved) && DesiredHolds(desired, approved)
    requires a in approved && b in approved && InScope(a.fieldPath, b.fieldPath)
    ensures b == a
  {
    var i :| 0 <= i < |approved| && approved[i] == a;
    var j :| 0 <= j < |approved| && approved[j] == b;
    assert ValidApproval(approved[i]) && ValidApproval(approved[j]);
    if b.fieldPath != a.fieldPath {
      NoScalarBelowScalar(desired, a.fieldPath, b.fieldPath);
      assert false;
    }
    assert i == j;
  }

  lemma ScalarReportMatches(desired: Value, approved: seq<Approval>, a: Approval)
    requires ValidContract(approved) && DesiredHolds(desired, approved) && a in approved
    ensures MatchChange(ScalarReport(a), approved) == Some({a.fieldPath})
  {
    var scoped := Scoped(approved, a.fieldPath);
    assert a in scoped;
    forall b | b in scoped
      ensures b == a
    {
      OnlyItselfInScope(desired, approved, a, b);
    }
    assert scoped[0] in scoped;
    assert Paths(scoped) == {a.fieldPath};
  }

  /** A diff that reports exactly the approved scalars, changed as approved, is accepted. */
  lemma ApprovedScalarsAreAccepted(diff: Diff, approved: seq<Approval>)
    requires ValidContract(approved) && DesiredHolds(diff.desired, approved)
    requires diff.hasChanges && diff.changes == ScalarReports(approved)
    ensures InApprovedScope(diff, approved)
  {
    var changes := diff.changes;
    var vs := Verdicts(changes, approved);
    forall i | 0 <= i < |vs|
      ensures vs[i] == Some({approved[i].fieldPath}) && Intended(changes[i])
    {
      ScalarReportMatches(diff.desired, approved, approved[i]);
    }
    assert vs[0].value != {};
    forall p | p in Paths(approved)
      ensures exists i :: 0 <= i < |vs| && Covers(vs[i], p)
    {
      var a :| a in approved && a.fieldPath == p;
      var i :| 0 <= i < |approved| && approved[i] == a;
      assert Covers(vs[i], p);
    }
  }

  // ----- A report on a parent object -----

  lemma {:induction false} PyEqReflexive(a: Value)
    ensures PyEq(a, a)
  {
    match a
    case Leaf(_) =>
    case Opaque(_) =>
    case List(items) =>
      forall i | 0 <= i < |items| {
        PyEqReflexive(items[i]);
      }
    case Obj(fields) =>
      forall k | k in fields {
        PyEqReflexive(fields[k]);
      }
  }

  lemma {:induction false} AllScoped(approved: seq<Approval>, field: string)
    requires forall i :: 0 <= i < |approved| ==> InScope(field, approved[i].fieldPath)
    ensures Scoped(approved, field) == approved
  {
    if approved != [] {
      AllScoped(approved[1..], field);
    }
  }

  /** The approvals lie below the field, and the object there holds their current values. */
  ghost predicate ReadsCurrent(before: Value, field: string, approved: seq<Approval>) {
    forall i :: 0 <= i < |approved| ==>
      && field + "." <= approved[i].fieldPath
      && Get(before, Parse(approved[i].fieldPath[|field| + 1..])) == Some(Leaf(approved[i].current))
  }

  /** The changes relative to the field read their current values in the object there. */
  ghost predicate RelativeTo(before: Value, field: string, approved: seq<Approval>, cs: seq<Change>) {
    && |cs| == |approved|
    && forall i :: 0 <= i < |cs| ==>
         && |field| < |approved[i].fieldPath|
         && cs[i] == Change(Parse(approved[i].fieldPath[|field| + 1..]), approved[i].current, approved[i].desired)
         && cs[i].path != [] && Get(before, cs[i].path) == Some(Leaf(cs[i].current))
  }

  lemma RelativeReads(before: Value, field: string, approved: seq<Approval>)
    requires ValidContract(approved) && Parse(field) != [] && ReadsCurrent(before, field, approved)
    ensures RelativeTo(before, field, approved, Relative(approved, field + "."))
  {
    var cs := Relative(approved, field + ".");
    RelativeAll(approved, field + ".");
    forall i | 0 <= i < |cs|
      ensures |field| < |approved[i].fieldPath|
      ensures cs[i] == Change(Parse(approved[i].fieldPath[|field| + 1..]), approved[i].current, approved[i].desired)
      ensures cs[i].path != [] && Get(before, cs[i].path) == Some(Leaf(cs[i].current))
    {
      ReadsBelow(before, field, approved, i);
    }
  }

  lemma RelativeIsWellFormed(desired: Value, before: Value, field: string, base: Path, approved: seq<Approval>, cs: seq<Change>)
    requires ValidContract(approved) && DesiredHolds(desired, approved) && base == Parse(field)
    requires ReadsCurrent(before, field, approved) && RelativeTo(before, field, approved, cs)
    ensures WellFormed(cs) && AllNameSafe(cs) && CurrentValuesMatch(before, cs)
  {
    forall i | 0 <= i < |cs| && !NameSafe(cs[i].path)
      ensures cs[i].current == Str(cs[i].path[|cs[i].path| - 2].selected.value)
    {
      UnsafePathReadsItsName(before, cs[i].path);
    }
    RelativeContinues(desired, field, base, approved, cs);
    ContinuationsDiffer(base, approved, cs);
  }

  /** The approved changes project onto a parent object that holds their current values. */
  lemma ProjectionSucceeds(desired: Value, before: Value, field: string, approved: seq<Approval>)
    requires ValidContract(approved) && DesiredHolds(desired, approved)
    requires Parse(field) != [] && before.Obj? && ReadsCurrent(before, field, approved)
    ensures Project(before, field, approved).Some?
  {
    var cs := Relative(approved, field + ".");
    RelativeReads(before, field, approved);
    RelativeIsWellFormed(desired, before, field, Parse(field), approved, cs);
    SequentialIsMaterialized(before, cs);
    MaterializedExists(before, cs);
  }

  lemma ReadsBelow(before: Value, field: string, approved: seq<Approval>, i: nat)
    requires ValidContract(approved) && Parse(field) != [] && ReadsCurrent(before, field, approved) && i < |approved|
    ensures approved[i].fieldPath[|field + "."|..] == approved[i].fieldPath[|field| + 1..]
    ensures Parse(approved[i].fieldPath[|field| + 1..]) != []
  {
    var rest := approved[i].fieldPath[|field| + 1..];
    assert ValidApproval(approved[i]);
    assert approved[i].fieldPath == field + "." + rest;
    CutFallsOnBoundary(field, rest);
  }

  lemma MaterializedExists(v: Value, cs: seq<Change>)
    requires WellFormed(cs) && AllNameSafe(cs) && CurrentValuesMatch(v, cs)
    ensures Materialized(v, cs).Some?
  {
    WritesAreApplicable(v, cs);
    ApplyAllIsOverlay(v, Writes(cs));
  }

  /** The change reported on a parent object that holds the current values. */
  function ParentReport(field: string, before: Value, approved: seq<Approval>): DiffChange
    requires Project(before, field, approved).Some?
  {
    DiffChange(field, INTENDED_CHANGE, before, before, Project(before, field, approved).value)
  }

  lemma ParentReportMatches(before: Value, field: string, approved: seq<Approval>)
    requires approved != [] && Project(before, field, approved).Some? && ReadsCurrent(before, field, approved)
    ensures MatchChange(ParentReport(field, before, approved), approved) == Some(Paths(approved))
    ensures Paths(approved) != {}
  {
    AllScoped(approved, field);
    BelowIsNotItself(before, field, approved);
    ProjectedChangeMatches(ParentReport(field, before, approved), approved, Project(before, field, approved).value);
  }

  lemma BelowIsNotItself(before: Value, field: string, approved: seq<Approval>)
    requires approved != [] && ReadsCurrent(before, field, approved)
    ensures Paths(approved) != {} && Paths(approved) != {field}
  {
    assert approved[0] in approved && approved[0].fieldPath in Paths(approved);
    assert |approved[0].fieldPath| > |field|;
  }

  /** An intended change on an ancestor matches when it turns the object into its projection. */
  lemma ProjectedChangeMatches(c: DiffChange, approved: seq<Approval>, projected: Value)
    requires approved != [] && Scoped(approved, c.fieldPath) == approved && Paths(approved) != {c.fieldPath}
    requires c.classification == INTENDED_CHANGE && c.oldDesired == c.before && c.after == projected
    requires Project(c.before, c.fieldPath, approved) == Some(projected)
    ensures MatchChange(c, approved) == Some(Paths(approved))
  {
    PyEqReflexive(c.before);
    PyEqReflexive(projected);
  }

  /** A diff that reports one parent object, changed by exactly the approved changes below it, is accepted. */
  lemma ApprovedParentIsAccepted(diff: Diff, before: Value, field: string, approved: seq<Approval>)
    requires ValidContract(approved) && DesiredHolds(diff.desired, approved)
    requires Parse(field) != [] && before.Obj? && ReadsCurrent(before, field, approved)
    ensures Project(before, field, approved).Some?
    ensures diff.hasChanges && diff.changes == [Some(ParentReport(field, before, approved))] ==> InApprovedScope(diff, approved)
  {
    ProjectionSucceeds(diff.desired, before, field, approved);
    ParentReportMatches(before, field, approved);
    if diff.hasChanges && diff.changes == [Some(ParentReport(field, before, approved))] {
      var vs := Verdicts(diff.changes, approved);
      assert vs[0] == Some(Paths(approved)) && Intended(diff.changes[0]);
      assert forall p :: p in Paths(approved) ==> Covers(vs[0], p);
    }
  }

  // ----- What every entry of an accepted diff is -----

  /** The path is the field or lies below it. */
  ghost predicate AtOrBelow(field: string, path: string) {
    path == field || exists rest: string :: path == field + "." + rest
  }

  ghost predicate Touches(c: DiffChange, approved: seq<Approval>) {
    exists a :: a in approved && AtOrBelow(c.fieldPath, a.fieldPath)
  }

  lemma TouchesIffScoped(c: DiffChange, approved: seq<Approval>)
    ensures Touches(c, approved) <==> Scoped(approved, c.fieldPath) != []
  {
    var scoped := Scoped(approved, c.fieldPath);
    forall path: string
      ensures AtOrBelow(c.fieldPath, path) <==> InScope(c.fieldPath, path)
    {
      var prefix := c.fieldPath + ".";
      if prefix <= path {
        assert path == prefix + path[|prefix|..];
      }
    }
    if scoped != [] {
      assert scoped[0] in scoped;
    }
  }

  /**
   * Every entry of an accepted diff with changes is intended or converged. One that is
   * intended touches an approved path and starts from what was desired before. One that
   * touches approved paths is exactly their changes: an intended one from its state
   * before to that after, a converged one from what was desired to its unchanged state.
   */
  lemma EntriesAreAccounted(diff: Diff, approved: seq<Approval>, i: nat)
    requires ValidContract(approved) && InApprovedScope(diff, approved) && diff.hasChanges && i < |diff.changes|
    ensures diff.changes[i].Some?
    ensures var c := diff.changes[i].value; var scoped := Scoped(approved, c.fieldPath);
      && c.classification in {"intended_change", "already_converged"}
      && (c.classification == "intended_change" ==> Touches(c, approved))
      && (Touches(c, approved) && c.classification == "intended_change" ==>
            PyEq(c.oldDesired, c.before) && Exact(Parse(c.fieldPath), c.before, c.after, scoped))
      && (Touches(c, approved) && c.classification == "already_converged" ==>
            PyEq(c.before, c.after) && Exact(Parse(c.fieldPath), c.oldDesired, c.before, scoped))
  {
    var vs := Verdicts(diff.changes, approved);
    assert vs[i].Some?;
    var c := diff.changes[i].value;
    TouchesIffScoped(c, approved);
    if Touches(c, approved) {
      AcceptedChangeIsExact(c, approved, diff.desired);
    }
  }

  // ----- Entries that report what is there already -----

  /**
   * A converged entry that touches no approved path, or reports an approved scalar or a
   * projected parent as being there already.
   */
  ghost predicate IsHarmless(c: DiffChange, approved: seq<Approval>) {
    && c.classification == "already_converged"
    && (|| !Touches(c, approved)
        || (exists a :: a in approved && c == DiffChange(a.fieldPath, "already_converged", Leaf(a.current), Leaf(a.desired), Leaf(a.desired)))
        || (&& c.fieldPath !in Paths(approved) && c.after == c.before
            && Project(c.oldDesired, c.fieldPath, Scoped(approved, c.fieldPath)) == Some(c.before)))
  }

  lemma HarmlessMatches(desired: Value, approved: seq<Approval>, c: DiffChange)
    requires ValidContract(approved) && DesiredHolds(desired, approved) && IsHarmless(c, approved)
    ensures MatchChange(c, approved).Some?
  {
    var scoped := Scoped(approved, c.fieldPath);
    TouchesIffScoped(c, approved);
    if Touches(c, approved) {
      if a :| a in approved && c == DiffChange(a.fieldPath, "already_converged", Leaf(a.current), Leaf(a.desired), Leaf(a.desired)) {
        forall b | b in scoped
          ensures b == a
        {
          OnlyItselfInScope(desired, approved, a, b);
        }
        assert scoped[0] in scoped && Paths(scoped) == {a.fieldPath};
      } else {
        assert c.fieldPath !in Paths(scoped);
        PyEqReflexive(c.before);
      }
    }
  }

  function Inserted<T>(xs: seq<T>, k: nat, x: T): seq<T>
    requires k <= |xs|
  {
    xs[..k] + [x] + xs[k..]
  }

  lemma InsertedVerdicts(changes: seq<Option<DiffChange>>, approved: seq<Approval>, k: nat, entry: Option<DiffChange>)
    requires k <= |changes|
    ensures Verdicts(Inserted(changes, k, entry), approved) == Inserted(Verdicts(changes, approved), k, Verdict(entry, approved))
  {
  }

  lemma InsertedSuffices(
    changes: seq<Option<DiffChange>>, vs: seq<Option<set<string>>>, paths: set<string>,
    k: nat, entry: Option<DiffChange>, v: Option<set<string>>)
    requires |vs| == |changes| && k <= |vs| && Suffices(changes, vs, paths) && v.Some?
    ensures Suffices(Inserted(changes, k, entry), Inserted(vs, k, v), paths)
  {
    var es, ws := Inserted(changes, k, entry), Inserted(vs, k, v);
    forall i | 0 <= i < |vs|
      ensures var j := if i < k then i else i + 1; ws[j] == vs[i] && es[j] == changes[i]
    {
    }
    forall i | 0 <= i < |ws|
      ensures ws[i].Some?
    {
      assert i < k ==> ws[i] == vs[i];
      assert i > k ==> ws[i] == vs[i - 1];
    }
    var j :| 0 <= j < |vs| && vs[j].value != {} && Intended(changes[j]);
    var j' := if j < k then j else j + 1;
    assert ws[j'].value != {} && Intended(es[j']);
    forall p | p in paths
      ensures exists i :: 0 <= i < |ws| && Covers(ws[i], p)
    {
      var i :| 0 <= i < |vs| && Covers(vs[i], p);
      assert Covers(ws[if i < k then i else i + 1], p);
    }
  }

  /** Harmless entries anywhere in a diff change nothing about its acceptance. */
  lemma HarmlessEntryIsAccepted(diff: Diff, approved: seq<Approval>, c: DiffChange, k: nat)
    requires ValidContract(approved) && InApprovedScope(diff, approved) && diff.hasChanges
    requires IsHarmless(c, approved) && k <= |diff.changes|
    ensures InApprovedScope(diff.(changes := Inserted(diff.changes, k, Some(c))), approved)
  {
    var entry := Some(c);
    HarmlessMatches(diff.desired, approved, c);
    InsertedVerdicts(diff.changes, approved, k, entry);
    InsertedSuffices(diff.changes, Verdicts(diff.changes, approved), Paths(approved), k, entry, Verdict(entry, approved));
  }

  /** Python takes null, everything that equals zero, and empty texts and containers as false. */
  lemma FalsyIff(v: Value)
    ensures IsFalsy(v) <==>
      || v == Leaf(Null) || PyEq(v, Leaf(Int(0))) || v == Leaf(Str(""))
      || (v.List? && |v.items| == 0) || (v.Obj? && |v.fields| == 0)
  {
    if v.Obj? && |v.fields| == 0 {
      assert v.fields == map[];
    }
  }

  // ----- Why the differences are up to Python's equality -----

  lemma {:induction false} PyEqTransitive(a: Value, b: Value, c: Value)
    requires PyEq(a, b) && PyEq(b, c)
    ensures PyEq(a, c)
    decreases a
  {
    match a
    case Leaf(_) =>
    case Opaque(_) =>
    case List(items) =>
      forall i | 0 <= i < |items| {
        PyEqTransitive(items[i], b.items[i], c.items[i]);
      }
    case Obj(fields) =>
      forall k | k in fields {
        PyEqTransitive(fields[k], b.fields[k], c.fields[k]);
      }
  }

  /**
   * The verdict on a change reported on an ancestor does not see the types of
   * numbers and booleans: an unapproved leaf may go from 0 to False unnoticed.
   */
  lemma VerdictIgnoresNumberTypes(c: DiffChange, after: Value, approved: seq<Approval>)
    requires MatchChange(c, approved).Some? && c.classification == INTENDED_CHANGE
    requires Paths(Scoped(approved, c.fieldPath)) != {c.fieldPath}
    requires PyEq(c.after, after)
    ensures MatchChange(c.(after := after), approved) == MatchChange(c, approved)
    ensures ScalarEq(Int(0), Bool(false)) && Int(0) != Bool(false)
  {
    PyEqTransitive(Project(c.before, c.fieldPath, Scoped(approved, c.fieldPath)).value, c.after, after);
  }
}
