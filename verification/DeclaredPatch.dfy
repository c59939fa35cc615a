/**
 * Patching the scalars that a repository declares as the source of a change.
 *
 * The source may hold several documents, and a retry may find that some of the
 * scalars already hold the approved values.
 */
module DeclaredPatch {
  import opened Wrappers
  import opened FieldPath
  import opened Manifest
  import opened ObjectPatch
  import opened Splice
  import opened Materialize
  import SpanTree

  /** `loadAll` loads every document of a text. */
  datatype Loader = Loader(lib: Library, loadAll: string -> Option<seq<Value>>, identity: Value -> Option<string>)

  /** The documents of a source text, as loaded and as composed; `anchored` when the scanner finds an anchor or alias. */
  datatype Source = Source(text: string, anchored: bool, documents: seq<Value>, roots: seq<SpanTree.Node>)

  const SOURCE_TYPES := {"raw-yaml", "helm-values", "kustomize"}

  predicate Composed(s: Source) {
    |s.documents| == |s.roots| && forall k :: 0 <= k < |s.roots| ==> Parsed(s.text, s.documents[k], s.roots[k])
  }

  /** The document a patch addresses: the only one, or the only one with the identity. */
  function Addressed(ld: Loader, documents: seq<Value>, identity: Option<string>): (r: Option<nat>)
    ensures r.Some? ==> r.value < |documents|
  {
    if identity.None? then (if |documents| == 1 then Some(0) else None)
    else OnlyFlag(seq(|documents|, k requires 0 <= k < |documents| =>
      documents[k].Obj? && ld.identity(documents[k]) == identity))
  }

  ghost predicate HasIdentity(ld: Loader, document: Value, identity: Option<string>) {
    document.Obj? && ld.identity(document) == identity
  }

  /** Without an identity the source must be one document; with one, exactly one object must have it. */
  lemma AddressedIff(ld: Loader, documents: seq<Value>, identity: Option<string>, k: nat)
    ensures Addressed(ld, documents, identity) == Some(k) <==>
      if identity.None? then k == 0 && |documents| == 1
      else k < |documents| && forall j :: 0 <= j < |documents| ==> (HasIdentity(ld, documents[j], identity) <==> j == k)
  {
    var flags := seq(|documents|, j requires 0 <= j < |documents| =>
      documents[j].Obj? && ld.identity(documents[j]) == identity);
    assert forall j :: 0 <= j < |documents| ==> (flags[j] <==> HasIdentity(ld, documents[j], identity));
    if k < |documents| && forall j :: 0 <= j < |documents| ==> (HasIdentity(ld, documents[j], identity) <==> j == k) {
      OnlyFlagIsUnique(flags, k);
    }
  }

  // ----- What is left to do -----

  predicate AlreadyApplied(v: Value, c: Change) {
    Get(v, c.path) == Some(Leaf(c.desired))
  }

  /** The changes that still have to be written. */
  function Pending(v: Value, allow: bool, cs: seq<Change>): seq<Change> {
    if cs == [] then []
    else
      var n := |cs| - 1;
      Pending(v, allow, cs[..n]) + if allow && AlreadyApplied(v, cs[n]) then [] else [cs[n]]
  }

  lemma PendingOneMore(v: Value, allow: bool, cs: seq<Change>, i: int)
    requires 0 <= i < |cs|
    ensures Pending(v, allow, cs[..i + 1]) ==
            Pending(v, allow, cs[..i]) + if allow && AlreadyApplied(v, cs[i]) then [] else [cs[i]]
  {
    assert cs[..i + 1][..i] == cs[..i];
  }

  lemma {:induction false} PendingMembers(v: Value, allow: bool, cs: seq<Change>)
    ensures forall c :: c in Pending(v, allow, cs) <==> c in cs && !(allow && AlreadyApplied(v, c))
  {
    if cs != [] {
      var n := |cs| - 1;
      PendingMembers(v, allow, cs[..n]);
      assert cs == cs[..n] + [cs[n]];
    }
  }

  lemma {:induction false} PendingIsWellFormed(v: Value, allow: bool, cs: seq<Change>)
    requires WellFormed(cs)
    ensures WellFormed(Pending(v, allow, cs))
  {
    if cs != [] {
      var n := |cs| - 1;
      PendingIsWellFormed(v, allow, cs[..n]);
      PendingMembers(v, allow, cs[..n]);
      var before := Pending(v, allow, cs[..n]);
      forall i | 0 <= i < |before|
        ensures before[i].path != cs[n].path
      {
        assert before[i] in cs[..n];
      }
      WellFormedOneMore(before, cs[n]);
    }
  }

  lemma WellFormedOneMore(cs: seq<Change>, c: Change)
    requires WellFormed(cs) && ValidChange(c) && forall i :: 0 <= i < |cs| ==> cs[i].path != c.path
    ensures WellFormed(cs + [c])
  {
  }

  lemma {:induction false} NothingSkipped(v: Value, cs: seq<Change>)
    ensures Pending(v, false, cs) == cs
  {
    if cs != [] {
      NothingSkipped(v, cs[..|cs| - 1]);
      assert cs == cs[..|cs| - 1] + [cs[|cs| - 1]];
    }
  }

  lemma {:induction false} NothingPending(v: Value, cs: seq<Change>)
    requires forall i :: 0 <= i < |cs| ==> AlreadyApplied(v, cs[i])
    ensures Pending(v, true, cs) == []
  {
    if cs != [] {
      NothingPending(v, cs[..|cs| - 1]);
    }
  }

  // ----- Materializing -----

  predicate DocumentsEqual(a: seq<Value>, b: seq<Value>) {
    |a| == |b| && forall k :: 0 <= k < |a| ==> PyEq(a[k], b[k])
  }

  predicate ReloadsAll(ld: Loader, text: string, expected: seq<Value>) {
    ld.loadAll(text).Some? && DocumentsEqual(ld.loadAll(text).value, expected)
  }

  /** When the patch goes through, in terms of the pending changes and the object all changes produce. */
  predicate AcceptsDeclared(ld: Loader, s: Source, k: nat, allow: bool, cs: seq<Change>)
    requires k < |s.documents| && k < |s.roots|
  {
    var v, todo := s.documents[k], Pending(s.documents[k], allow, cs);
    && cs != []
    && v.Obj?
    && CurrentValuesMatch(v, todo)
    && HasEdits(ld.lib, s.roots[k], todo)
    && ApplyAll(v, Writes(cs)).Some?
    && Spliceable(Edits(ld.lib, s.roots[k], todo), |s.text|)
    && ReloadsAll(ld, Spliced(s.text, Edits(ld.lib, s.roots[k], todo)), s.documents[k := ApplyAll(v, Writes(cs)).value])
  }

  /** Every pending change finds its value and has an edit. */
  predicate Editable(ld: Loader, v: Value, root: SpanTree.Node, cs: seq<Change>) {
    CurrentValuesMatch(v, cs) && HasEdits(ld.lib, root, cs)
  }

  lemma EditableMembers(ld: Loader, v: Value, root: SpanTree.Node, cs: seq<Change>)
    ensures Editable(ld, v, root, cs) <==>
            forall c :: c in cs ==> Get(v, c.path) == Some(Leaf(c.current)) && EditFor(ld.lib, root, c).Some?
  {
    if Editable(ld, v, root, cs) {
      forall c | c in cs
        ensures Get(v, c.path) == Some(Leaf(c.current)) && EditFor(ld.lib, root, c).Some?
      {
        var i :| 0 <= i < |cs| && cs[i] == c;
      }
    }
    if !Editable(ld, v, root, cs) {
      var i :| 0 <= i < |cs| && !(Get(v, cs[i].path) == Some(Leaf(cs[i].current)) && EditFor(ld.lib, root, cs[i]).Some?);
      assert cs[i] in cs;
    }
  }

  lemma EditableOneMore(ld: Loader, v: Value, root: SpanTree.Node, cs: seq<Change>, c: Change)
    requires Editable(ld, v, root, cs) && Get(v, c.path) == Some(Leaf(c.current)) && EditFor(ld.lib, root, c).Some?
    ensures Editable(ld, v, root, cs + [c])
    ensures Edits(ld.lib, root, cs + [c]) == Edits(ld.lib, root, cs) + [EditFor(ld.lib, root, c).value]
  {
  }

  lemma NotEditable(ld: Loader, v: Value, root: SpanTree.Node, allow: bool, cs: seq<Change>, i: nat)
    requires i < |cs| && !(allow && AlreadyApplied(v, cs[i]))
    requires !(Get(v, cs[i].path) == Some(Leaf(cs[i].current)) && EditFor(ld.lib, root, cs[i]).Some?)
    ensures !Editable(ld, v, root, Pending(v, allow, cs))
  {
    PendingMembers(v, allow, cs);
    EditableMembers(ld, v, root, Pending(v, allow, cs));
    assert cs[i] in Pending(v, allow, cs);
  }

  /** The spans of the pending changes. */
  method PendingEdits(ld: Loader, v: Value, root: SpanTree.Node, allow: bool, cs: seq<Change>) returns (r: Option<seq<Edit>>)
    ensures r.Some? <==> Editable(ld, v, root, Pending(v, allow, cs))
    ensures r.Some? ==> r.value == Edits(ld.lib, root, Pending(v, allow, cs))
  {
    var spans: seq<Edit> := [];
    ghost var pending: seq<Change> := [];
    for i := 0 to |cs|
      invariant pending == Pending(v, allow, cs[..i])
      invariant Editable(ld, v, root, pending) && spans == Edits(ld.lib, root, pending)
    {
      PendingOneMore(v, allow, cs, i);
      var current := ObjectValueAt(v, cs[i].path);
      if !(allow && current == Some(Leaf(cs[i].desired))) {
        var e := EditOne(ld.lib, v, root, cs[i]);
        if e.None? {
          NotEditable(ld, v, root, allow, cs, i);
          return None;
        }
        EditableOneMore(ld, v, root, pending, cs[i]);
        spans, pending := spans + [e.value], pending + [cs[i]];
      }
    }
    assert cs[..|cs|] == cs;
    return Some(spans);
  }

  /** The object after every `set_object_value`. */
  method ExpectedObject(v: Value, cs: seq<Change>) returns (r: Option<Value>)
    ensures r == ApplyAll(v, Writes(cs))
  {
    var expected := v;
    ghost var ws := Writes(cs);
    assert ws[0..] == ws;
    for i := 0 to |cs|
      invariant ApplyAll(v, ws) == ApplyAll(expected, ws[i..])
    {
      ApplyFrom(expected, ws, i);
      var written := Set(expected, cs[i].path, cs[i].desired);
      if written.None? {
        return None;
      }
      expected := written.value;
    }
    return Some(expected);
  }

  /** `materialize_declared_scalar_patch` */
  method MaterializeDeclared(ld: Loader, s: Source, sourceType: string, identity: Option<string>, allow: bool, cs: seq<Change>)
    returns (r: Option<string>)
    requires Composed(s)
    ensures var k := Addressed(ld, s.documents, identity);
      && (r.Some? <==> sourceType in SOURCE_TYPES && !s.anchored && k.Some? && AcceptsDeclared(ld, s, k.value, allow, cs))
      && (r.Some? ==> r.value == Spliced(s.text, Edits(ld.lib, s.roots[k.value], Pending(s.documents[k.value], allow, cs))))
  {
    if sourceType !in SOURCE_TYPES || s.anchored {
      return None;
    }
    var found := Addressed(ld, s.documents, identity);
    if cs == [] || found.None? || !s.documents[found.value].Obj? {
      return None;
    }
    var k := found.value;
    var spans := PendingEdits(ld, s.documents[k], s.roots[k], allow, cs);
    var expected := ExpectedObject(s.documents[k], cs);
    if spans.None? || expected.None? || !DistinctSpans(spans.value) {
      return None;
    }
    EditsLieApart(ld, s, k, Pending(s.documents[k], allow, cs));
    var patched := SpliceDescending(s.text, spans.value);
    if !ReloadsAll(ld, patched, s.documents[k := expected.value]) {
      return None;
    }
    return Some(patched);
  }

  /** Different spans of changes, even of changes that name one path, do not overlap. */
  lemma EditsLieApart(ld: Loader, s: Source, k: nat, cs: seq<Change>)
    requires Composed(s) && k < |s.documents| && Editable(ld, s.documents[k], s.roots[k], cs)
    requires DistinctSpans(Edits(ld.lib, s.roots[k], cs))
    ensures Spliceable(Edits(ld.lib, s.roots[k], cs), |s.text|)
  {
    var root, es := s.roots[k], Edits(ld.lib, s.roots[k], cs);
    assert Parsed(s.text, s.documents[k], root);
    forall i | 0 <= i < |es|
      ensures InBounds(es[i], |s.text|)
    {
      SpanTree.ScalarIsInside(root, cs[i].path);
    }
    forall i, j | 0 <= i < j < |es|
      ensures es[i].end <= es[j].start || es[j].end <= es[i].start
    {
      assert !SameSpan(es[i], es[j]);
      SpanTree.PathsHaveDisjointSpans(root, cs[i].path, cs[j].path);
    }
  }

  // ----- What an accepted patch does -----

  ghost predicate IsTarget(v: Value, cs: seq<Change>, pos: Pos) {
    exists i :: 0 <= i < |cs| && Locate(v, cs[i].path) == Some(pos)
  }

  /** At a target `w` has the desired value; elsewhere it has a scalar exactly where `v` has it, and the same. */
  ghost predicate ChangedAt(v: Value, w: Value, cs: seq<Change>, pos: Pos) {
    && (LeafAt(w, pos) <==> LeafAt(v, pos))
    && (LeafAt(v, pos) && !IsTarget(v, cs, pos) ==> ScalarEq(At(w, pos).value.scalar, At(v, pos).value.scalar))
    && (forall i :: 0 <= i < |cs| && Locate(v, cs[i].path) == Some(pos) ==>
          LeafAt(w, pos) && ScalarEq(At(w, pos).value.scalar, cs[i].desired))
  }

  lemma OverlayChangesTargets(v: Value, w: Value, cs: seq<Change>, m: map<Pos, Scalar>, pos: Pos)
    requires Targets(v, cs, m) && PyEq(w, Overlay(v, [], m))
    requires IsTarget(v, cs, pos) ==> LeafAt(v, pos)
    ensures ChangedAt(v, w, cs, pos)
  {
    AtOverlay(v, [], m, pos);
    assert [] + pos == pos;
    AtPyEq(w, Overlay(v, [], m), pos);
    if pos in m {
      assert IsTarget(v, cs, pos);
    }
  }

  lemma WrittenChangesOnlyTargets(v: Value, w: Value, cs: seq<Change>, pos: Pos)
    requires Applicable(v, Writes(cs)) && WellFormed(cs)
    requires ApplyAll(v, Writes(cs)).Some? && PyEq(w, ApplyAll(v, Writes(cs)).value)
    ensures ChangedAt(v, w, cs, pos)
  {
    EffectTargets(v, cs);
    ApplyAllIsOverlay(v, Writes(cs));
    if IsTarget(v, cs, pos) {
      TargetIsLeaf(v, cs, pos);
    }
    OverlayChangesTargets(v, w, cs, Effect(v, Writes(cs)), pos);
  }

  lemma TargetIsLeaf(v: Value, cs: seq<Change>, pos: Pos)
    requires Applicable(v, Writes(cs)) && IsTarget(v, cs, pos)
    ensures LeafAt(v, pos)
  {
    var i :| 0 <= i < |cs| && Locate(v, cs[i].path) == Some(pos);
    assert Writes(cs)[i].path == cs[i].path;
    GetIsAtLocate(v, cs[i].path);
  }

  /** What the changes of an accepted patch write over is a scalar in each case. */
  lemma AcceptedIsApplicable(ld: Loader, s: Source, k: nat, allow: bool, cs: seq<Change>)
    requires Composed(s) && k < |s.documents| && WellFormed(cs) && Undisturbed(Writes(cs))
    requires AcceptsDeclared(ld, s, k, allow, cs)
    ensures Applicable(s.documents[k], Writes(cs))
  {
    var v := s.documents[k];
    PendingMembers(v, allow, cs);
    forall i | 0 <= i < |cs|
      ensures Get(v, cs[i].path).Some? && Get(v, cs[i].path).value.Leaf?
    {
      if !AlreadyApplied(v, cs[i]) {
        var todo := Pending(v, allow, cs);
        assert cs[i] in todo;
        var j :| 0 <= j < |todo| && todo[j] == cs[i];
      }
    }
  }

  /**
   * A patch is only accepted with changes, and then every document of the new text loads as
   * it was but the addressed one, in which exactly the targets hold the desired values,
   * those that were there already included.
   */
  lemma DeclaredChangesOnlyTargets(ld: Loader, s: Source, k: nat, allow: bool, cs: seq<Change>)
    requires Composed(s) && k < |s.documents| && WellFormed(cs) && Undisturbed(Writes(cs))
    requires AcceptsDeclared(ld, s, k, allow, cs)
    ensures var loaded := ld.loadAll(Spliced(s.text, Edits(ld.lib, s.roots[k], Pending(s.documents[k], allow, cs))));
      && cs != []
      && loaded.Some? && |loaded.value| == |s.documents|
      && (forall j :: 0 <= j < |s.documents| && j != k ==> PyEq(loaded.value[j], s.documents[j]))
      && (forall pos :: ChangedAt(s.documents[k], loaded.value[k], cs, pos))
  {
    var loaded := ld.loadAll(Spliced(s.text, Edits(ld.lib, s.roots[k], Pending(s.documents[k], allow, cs)))).value;
    AcceptedIsApplicable(ld, s, k, allow, cs);
    forall pos
      ensures ChangedAt(s.documents[k], loaded[k], cs, pos)
    {
      WrittenChangesOnlyTargets(s.documents[k], loaded[k], cs, pos);
    }
  }

  // ----- Retries -----

  /** Writing the values that are there already adds nothing to what the pending changes produce. */
  lemma PendingProducesTheSame(v: Value, cs: seq<Change>)
    requires WellFormed(cs) && AllNameSafe(cs) && CurrentValuesMatch(v, Pending(v, true, cs))
    ensures ApplyAll(v, Writes(cs)) == ApplyAll(v, Writes(Pending(v, true, cs))) && ApplyAll(v, Writes(cs)).Some?
  {
    var todo := Pending(v, true, cs);
    PendingIsWellFormed(v, true, cs);
    PendingMembers(v, true, cs);
    forall i | 0 <= i < |cs|
      ensures Get(v, cs[i].path).Some? && Get(v, cs[i].path).value.Leaf?
    {
      if !AlreadyApplied(v, cs[i]) {
        assert cs[i] in todo;
        var j :| 0 <= j < |todo| && todo[j] == cs[i];
      }
    }
    forall i | 0 <= i < |todo|
      ensures NameSafe(todo[i].path)
    {
      assert todo[i] in todo;
      var j :| 0 <= j < |cs| && cs[j] == todo[i];
    }
    var all, some := Writes(cs), Writes(todo);
    assert Applicable(v, all) && DistinctPaths(all) && Applicable(v, some) && DistinctPaths(some);
    ApplyAllIsOverlay(v, all);
    ApplyAllIsOverlay(v, some);
    EffectsOverlayAlike(v, cs, todo);
  }

  ghost predicate Targets(v: Value, cs: seq<Change>, m: map<Pos, Scalar>) {
    && (forall i :: 0 <= i < |cs| ==>
          Locate(v, cs[i].path).Some? && Locate(v, cs[i].path).value in m && m[Locate(v, cs[i].path).value] == cs[i].desired)
    && (forall pos :: pos in m ==> exists i :: 0 <= i < |cs| && Locate(v, cs[i].path) == Some(pos))
  }

  lemma EffectTargets(v: Value, cs: seq<Change>)
    requires Applicable(v, Writes(cs)) && WellFormed(cs)
    ensures forall i :: 0 <= i < |cs| ==> Locate(v, Writes(cs)[i].path).Some?
    ensures Targets(v, cs, Effect(v, Writes(cs)))
  {
    var ws := Writes(cs);
    ApplicableLocates(v, ws);
    EffectIsSetOfWrites(v, ws);
    var m := Effect(v, ws);
    forall i | 0 <= i < |cs|
      ensures Locate(v, cs[i].path).Some? && Locate(v, cs[i].path).value in m && m[Locate(v, cs[i].path).value] == cs[i].desired
    {
      assert ws[i] == Write(cs[i].path, cs[i].desired);
    }
    forall pos | pos in m
      ensures exists i :: 0 <= i < |cs| && Locate(v, cs[i].path) == Some(pos)
    {
      var i :| 0 <= i < |ws| && Locate(v, ws[i].path) == Some(pos);
      assert Locate(v, cs[i].path) == Some(pos);
    }
  }

  lemma TargetsExtend(v: Value, cs: seq<Change>, todo: seq<Change>, n: map<Pos, Scalar>, m: map<Pos, Scalar>)
    requires Targets(v, cs, n) && Targets(v, todo, m) && forall c :: c in todo ==> c in cs
    ensures forall pos :: pos in m ==> pos in n && n[pos] == m[pos]
  {
    forall pos | pos in m
      ensures pos in n && n[pos] == m[pos]
    {
      var i :| 0 <= i < |todo| && Locate(v, todo[i].path) == Some(pos);
      assert todo[i] in cs;
      var j :| 0 <= j < |cs| && cs[j] == todo[i];
    }
  }

  lemma OthersHold(v: Value, cs: seq<Change>, todo: seq<Change>, n: map<Pos, Scalar>, m: map<Pos, Scalar>)
    requires Targets(v, cs, n) && Targets(v, todo, m)
    requires forall c :: c in cs && !AlreadyApplied(v, c) ==> c in todo
    ensures forall pos :: pos in n && pos !in m && LeafAt(v, pos) ==> At(v, pos).value == Leaf(n[pos])
  {
    forall pos | pos in n && pos !in m && LeafAt(v, pos)
      ensures At(v, pos).value == Leaf(n[pos])
    {
      var i :| 0 <= i < |cs| && Locate(v, cs[i].path) == Some(pos);
      assert cs[i] in cs;
      assert cs[i] !in todo;
      GetIsAtLocate(v, cs[i].path);
    }
  }

  lemma EffectsOverlayAlike(v: Value, cs: seq<Change>, todo: seq<Change>)
    requires Applicable(v, Writes(cs)) && Applicable(v, Writes(todo))
    requires WellFormed(cs) && WellFormed(todo)
    requires forall c :: c in todo <==> c in cs && !AlreadyApplied(v, c)
    ensures forall i :: 0 <= i < |cs| ==> Locate(v, Writes(cs)[i].path).Some?
    ensures forall i :: 0 <= i < |todo| ==> Locate(v, Writes(todo)[i].path).Some?
    ensures Overlay(v, [], Effect(v, Writes(cs))) == Overlay(v, [], Effect(v, Writes(todo)))
  {
    EffectTargets(v, cs);
    EffectTargets(v, todo);
    var m, n := Effect(v, Writes(todo)), Effect(v, Writes(cs));
    TargetsExtend(v, cs, todo, n, m);
    OthersHold(v, cs, todo, n, m);
    OverlayAgreeing(v, m, n);
  }

  /** A substitution that extends another one by leaves that hold their values already does the same. */
  lemma OverlayAgreeing(v: Value, m: map<Pos, Scalar>, n: map<Pos, Scalar>)
    requires forall pos :: pos in m ==> pos in n && n[pos] == m[pos]
    requires forall pos :: pos in n && pos !in m && LeafAt(v, pos) ==> At(v, pos).value == Leaf(n[pos])
    ensures Overlay(v, [], n) == Overlay(v, [], m)
  {
    var extra := map pos | pos in n && pos !in m :: n[pos];
    assert extra + m == n;
    forall pos | LeafAt(v, pos) && [] + pos in extra
      ensures At(v, pos).value == Leaf(extra[[] + pos])
    {
      assert [] + pos == pos;
    }
    OverlaySame(v, [], extra);
    OverlayOverlay(v, [], extra, m);
  }

  /** Tolerating values that are there already is patching the pending changes alone. */
  lemma ToleranceIsPendingOnly(ld: Loader, s: Source, k: nat, cs: seq<Change>)
    requires Composed(s) && k < |s.documents| && WellFormed(cs) && AllNameSafe(cs)
    ensures var todo := Pending(s.documents[k], true, cs);
      todo != [] ==> (AcceptsDeclared(ld, s, k, true, cs) <==> AcceptsDeclared(ld, s, k, false, todo))
  {
    var v := s.documents[k];
    var todo := Pending(v, true, cs);
    NothingSkipped(v, todo);
    if CurrentValuesMatch(v, todo) {
      PendingProducesTheSame(v, cs);
    }
  }

  /** When every scalar holds its approved value the source comes back as it is, provided it loads to its documents. */
  lemma {:induction false} RetryIsNoOp(ld: Loader, s: Source, k: nat, cs: seq<Change>)
    requires Composed(s) && k < |s.documents| && cs != [] && s.documents[k].Obj?
    requires forall i :: 0 <= i < |cs| ==> AlreadyApplied(s.documents[k], cs[i])
    ensures AcceptsDeclared(ld, s, k, true, cs) <==> ReloadsAll(ld, s.text, s.documents)
    ensures Pending(s.documents[k], true, cs) == [] && Spliced(s.text, []) == s.text
  {
    NothingPending(s.documents[k], cs);
    WritingNothingNew(s.documents[k], cs);
    NoEdits(s.text);
    AcceptsNothing(ld, s, k, cs);
  }

  lemma AcceptsNothing(ld: Loader, s: Source, k: nat, cs: seq<Change>)
    requires k < |s.documents| && k < |s.roots| && cs != [] && s.documents[k].Obj?
    requires Pending(s.documents[k], true, cs) == [] && ApplyAll(s.documents[k], Writes(cs)) == Some(s.documents[k])
    ensures AcceptsDeclared(ld, s, k, true, cs) <==> ReloadsAll(ld, s.text, s.documents)
  {
    NoEdits(s.text);
    assert s.documents[k := s.documents[k]] == s.documents;
    assert Edits(ld.lib, s.roots[k], []) == [];
  }

  /** Writing a scalar that is there already changes nothing, even a name. */
  lemma WritingTheSame(v: Value, path: Path, x: Scalar)
    requires path != [] && Get(v, path) == Some(Leaf(x))
    ensures Set(v, path, x) == Some(v)
  {
    SetIsOverlay(v, [], path, x);
    GetIsAtLocate(v, path);
    var at := Locate(v, path).value;
    assert [] + at == at;
    forall pos | LeafAt(v, pos) && [] + pos in map[at := x]
      ensures At(v, pos).value == Leaf(x)
    {
      assert [] + pos == pos;
    }
    OverlaySame(v, [], map[at := x]);
  }

  lemma {:induction false} WritingNothingNew(v: Value, cs: seq<Change>)
    requires v.Obj? && forall i :: 0 <= i < |cs| ==> AlreadyApplied(v, cs[i])
    ensures ApplyAll(v, Writes(cs)) == Some(v)
  {
    if cs != [] {
      assert AlreadyApplied(v, cs[0]);
      WritingTheSame(v, cs[0].path, cs[0].desired);
      assert Writes(cs)[1..] == Writes(cs[1..]);
      WritingNothingNew(v, cs[1..]);
    }
  }

  lemma NoEdits(text: string)
    ensures Spliced(text, []) == text
  {
    assert Sort([]) == [];
  }

  /** A target that holds neither the current nor the desired value refuses the whole patch. */
  lemma ThirdValueConflicts(ld: Loader, s: Source, k: nat, allow: bool, cs: seq<Change>, i: nat)
    requires Composed(s) && k < |s.documents| && i < |cs|
    requires Get(s.documents[k], cs[i].path) != Some(Leaf(cs[i].current)) && !AlreadyApplied(s.documents[k], cs[i])
    ensures !AcceptsDeclared(ld, s, k, allow, cs)
  {
    var v := s.documents[k];
    PendingMembers(v, allow, cs);
    assert cs[i] in Pending(v, allow, cs);
    EditableMembers(ld, v, s.roots[k], Pending(v, allow, cs));
  }
}
