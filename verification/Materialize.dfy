/**
 * Turning a list of scalar changes into an edited source text.
 *
 * The text is never serialized again: the span of each scalar is replaced, and the
 * patched text must load to the object that the changes produce.
 */
module Materialize {
  import opened Wrappers
  import opened FieldPath
  import opened Manifest
  import opened ObjectPatch
  import opened Splice
  import ActionPolicy
  import PatchPlan
  import SpanTree

  /** The library calls: loading YAML, dumping JSON and digesting a manifest. */
  datatype Library = Library(load: string -> Option<Value>, json: Scalar -> string, digest: Value -> string)

  function DoubleApostrophes(s: string): string {
    if s == "" then ""
    else (if s[0] == '\'' then "''" else [s[0]]) + DoubleApostrophes(s[1..])
  }

  /** `encoded_scalar_value`; `None` is the refusal to write a non-string into a quoted scalar. */
  function EncodeScalar(lib: Library, style: SpanTree.Style, x: Scalar): Option<string> {
    if x.Str? then
      if style.SingleQuoted? then Some("'" + DoubleApostrophes(x.s) + "'")
      else if style.Plain? && '\n' !in x.s && lib.load(x.s) == Some(Leaf(x)) then Some(x.s)
      else Some(lib.json(x))
    else if style.Plain? then Some(lib.json(x))
    else None
  }

  /** The edit for one change; `None` when its target is not one patchable scalar. */
  function EditFor(lib: Library, root: SpanTree.Node, c: Change): Option<Edit> {
    var found := SpanTree.NodeGet(root, c.path);
    if found.None? || !found.value.ScalarNode? then None
    else
      var text := EncodeScalar(lib, found.value.style, c.desired);
      if text.None? then None else Some(Edit(found.value.start, found.value.end, text.value))
  }

  predicate HasEdits(lib: Library, root: SpanTree.Node, cs: seq<Change>) {
    forall i :: 0 <= i < |cs| ==> EditFor(lib, root, cs[i]).Some?
  }

  function Edits(lib: Library, root: SpanTree.Node, cs: seq<Change>): (es: seq<Edit>)
    requires HasEdits(lib, root, cs)
    ensures |es| == |cs|
    ensures forall i :: 0 <= i < |cs| ==> Some(es[i]) == EditFor(lib, root, cs[i])
  {
    seq(|cs|, i requires 0 <= i < |cs| => EditFor(lib, root, cs[i]).value)
  }

  /** `original` and `root` are the two views that the parser gives of `source`. */
  predicate Parsed(source: string, original: Value, root: SpanTree.Node) {
    SpanTree.WellFormed(root) && SpanTree.Spanned(root) && root.end <= |source| && SpanTree.Load(root) == original
  }

  // ----- The spans never overlap -----

  /** Edits for changes with different paths lie apart; only two empty spans can coincide. */
  lemma EditsAreDisjoint(lib: Library, source: string, original: Value, root: SpanTree.Node, cs: seq<Change>)
    requires Parsed(source, original, root) && DistinctTargets(cs)
    requires CurrentValuesMatch(original, cs) && HasEdits(lib, root, cs)
    ensures var es := Edits(lib, root, cs);
      && Disjoint(es) && (forall i :: 0 <= i < |es| ==> InBounds(es[i], |source|))
      && (forall i, j :: 0 <= i < j < |es| && SameSpan(es[i], es[j]) ==> es[i].start == es[i].end)
  {
    var es := Edits(lib, root, cs);
    forall i | 0 <= i < |es|
      ensures InBounds(es[i], |source|)
    {
      SpanTree.ScalarIsInside(root, cs[i].path);
    }
    forall i, j | 0 <= i < j < |es|
      ensures es[i].end <= es[j].start || es[j].end <= es[i].start
    {
      SpanTree.PathsHaveDisjointSpans(root, cs[i].path, cs[j].path);
    }
  }

  // ----- Materializing -----

  predicate IsDeployment(v: Value) {
    v.Obj? && Text("kind") in v.fields && v.fields[Text("kind")] == Leaf(Str("Deployment"))
  }

  predicate Reloads(lib: Library, text: string, expected: Value) {
    lib.load(text).Some? && PyEq(lib.load(text).value, expected)
  }

  /** When the changes are applied: every check of the source, with the patched text given in closed form. */
  predicate Accepts(lib: Library, source: string, original: Value, root: SpanTree.Node, digest: string, cs: seq<Change>) {
    && IsDeployment(original)
    && lib.digest(original) == digest
    && HasEdits(lib, root, cs)
    && Materialized(original, cs).Some?
    && Spliceable(Edits(lib, root, cs), |source|)
    && Reloads(lib, Spliced(source, Edits(lib, root, cs)), Materialized(original, cs).value)
  }

  /** The edit of one change, after reading it on both views; `None` when the change is refused. */
  method EditOne(lib: Library, v: Value, root: SpanTree.Node, c: Change) returns (e: Option<Edit>)
    ensures e == if Get(v, c.path) == Some(Leaf(c.current)) then EditFor(lib, root, c) else None
  {
    var current := ObjectValueAt(v, c.path);
    if current != Some(Leaf(c.current)) {
      return None;
    }
    var node := SpanTree.NodeValueAt(root, c.path);
    if node.None? || !node.value.ScalarNode? {
      return None;
    }
    var text := EncodeScalar(lib, node.value.style, c.desired);
    return if text.None? then None else Some(Edit(node.value.start, node.value.end, text.value));
  }

  lemma RefusedAt(lib: Library, original: Value, root: SpanTree.Node, cs: seq<Change>, i: nat)
    requires i < |cs| && !(Get(original, cs[i].path) == Some(Leaf(cs[i].current)) && EditFor(lib, root, cs[i]).Some?)
    ensures !(HasEdits(lib, root, cs) && Materialized(original, cs).Some?)
  {
  }

  /** The first `i` changes match and have these spans. */
  ghost predicate CollectedTo(lib: Library, original: Value, root: SpanTree.Node, cs: seq<Change>, spans: seq<Edit>, i: nat) {
    |spans| == i <= |cs| && forall k :: 0 <= k < i ==>
      Some(spans[k]) == EditFor(lib, root, cs[k]) && Get(original, cs[k].path) == Some(Leaf(cs[k].current))
  }

  lemma CollectedOneMore(
    lib: Library, original: Value, root: SpanTree.Node, cs: seq<Change>, spans: seq<Edit>, i: nat, e: Edit)
    requires CollectedTo(lib, original, root, cs, spans, i) && i < |cs|
    requires Get(original, cs[i].path) == Some(Leaf(cs[i].current)) && EditFor(lib, root, cs[i]) == Some(e)
    ensures CollectedTo(lib, original, root, cs, spans + [e], i + 1)
  {
  }

  lemma CollectedAll(lib: Library, original: Value, root: SpanTree.Node, cs: seq<Change>, spans: seq<Edit>)
    requires CollectedTo(lib, original, root, cs, spans, |cs|)
    ensures HasEdits(lib, root, cs) && spans == Edits(lib, root, cs) && Materialized(original, cs) == ApplyAll(original, Writes(cs))
  {
  }

  /** The loop over the replacements: their spans, and the object they should produce. */
  method CollectSpans(lib: Library, original: Value, root: SpanTree.Node, cs: seq<Change>)
    returns (r: Option<(seq<Edit>, Value)>)
    ensures r.Some? <==> HasEdits(lib, root, cs) && Materialized(original, cs).Some?
    ensures r.Some? ==> r.value == (Edits(lib, root, cs), Materialized(original, cs).value)
  {
    var expected := original;
    var spans: seq<Edit> := [];
    ghost var ws := Writes(cs);
    assert ws[0..] == ws;
    for i := 0 to |cs|
      invariant CollectedTo(lib, original, root, cs, spans, i)
      invariant ApplyAll(original, ws) == ApplyAll(expected, ws[i..])
    {
      var e := EditOne(lib, original, root, cs[i]);
      if e.None? {
        RefusedAt(lib, original, root, cs, i);
        return None;
      }
      CollectedOneMore(lib, original, root, cs, spans, i, e.value);
      spans := spans + [e.value];
      ApplyFrom(expected, ws, i);
      var written := Set(expected, cs[i].path, cs[i].desired);
      if written.None? {
        return None;
      }
      expected := written.value;
    }
    CollectedAll(lib, original, root, cs, spans);
    return Some((spans, expected));
  }

  method MaterializeScalarReplacements(
    lib: Library, source: string, original: Value, root: SpanTree.Node, digest: string, cs: seq<Change>)
    returns (r: Option<string>)
    requires Parsed(source, original, root) && WellFormed(cs)
    ensures r.Some? <==> Accepts(lib, source, original, root, digest, cs)
    ensures r.Some? ==> r.value == Spliced(source, Edits(lib, root, cs))
  {
    if !IsDeployment(original) || lib.digest(original) != digest {
      return None;
    }
    var collected := CollectSpans(lib, original, root, cs);
    if collected.None? {
      return None;
    }
    var (spans, expected) := collected.value;
    EditsAreDisjoint(lib, source, original, root, cs);
    if !DistinctSpans(spans) {
      return None;
    }
    var patched := SpliceDescending(source, spans);
    if !Reloads(lib, patched, expected) {
      return None;
    }
    return Some(patched);
  }

  // ----- The order of the replacements does not matter -----

  lemma SpansStayDistinct(lib: Library, root: SpanTree.Node, cs: seq<Change>, ds: seq<Change>)
    requires HasEdits(lib, root, cs) && HasEdits(lib, root, ds) && DistinctTargets(ds)
    requires DistinctSpans(Edits(lib, root, cs)) && forall d :: d in ds ==> d in cs
    ensures DistinctSpans(Edits(lib, root, ds))
  {
    var es, fs := Edits(lib, root, cs), Edits(lib, root, ds);
    forall i, j | 0 <= i < j < |fs|
      ensures !SameSpan(fs[i], fs[j])
    {
      assert ds[i] in cs && ds[j] in cs;
      var a :| 0 <= a < |cs| && cs[a] == ds[i];
      var b :| 0 <= b < |cs| && cs[b] == ds[j];
      assert a != b;
      assert es[a] == fs[i] && es[b] == fs[j];
      assert !SameSpan(es[if a < b then a else b], es[if a < b then b else a]);
    }
  }

  lemma EditsIncluded(lib: Library, root: SpanTree.Node, cs: seq<Change>, ds: seq<Change>)
    requires HasEdits(lib, root, cs) && HasEdits(lib, root, ds)
    requires forall c :: c in cs ==> c in ds
    ensures forall e :: e in Edits(lib, root, cs) ==> e in Edits(lib, root, ds)
  {
    forall i | 0 <= i < |cs|
      ensures Edits(lib, root, cs)[i] in Edits(lib, root, ds)
    {
      assert cs[i] in ds;
      var j :| 0 <= j < |ds| && ds[j] == cs[i];
      assert Edits(lib, root, ds)[j] == Edits(lib, root, cs)[i];
    }
  }

  /** Listing independent replacements in another order gives the same verdict and the same text. */
  lemma AcceptedInAnyOrder(
    lib: Library, source: string, original: Value, root: SpanTree.Node, digest: string, cs: seq<Change>, ds: seq<Change>)
    requires Parsed(source, original, root) && WellFormed(cs) && Independent(cs) && Permutes(ds, cs)
    requires Accepts(lib, source, original, root, digest, cs)
    ensures Accepts(lib, source, original, root, digest, ds)
    ensures Spliced(source, Edits(lib, root, ds)) == Spliced(source, Edits(lib, root, cs))
  {
    MaterializedInAnyOrder(original, cs, ds);
    EditsInAnyOrder(lib, root, source, cs, ds);
  }

  /** Every order of the replacements is accepted, with the same text. */
  ghost predicate AcceptsEveryOrder(
    lib: Library, source: string, original: Value, root: SpanTree.Node, digest: string, cs: seq<Change>)
    requires Accepts(lib, source, original, root, digest, cs)
  {
    forall ds :: Permutes(ds, cs) ==>
      && Accepts(lib, source, original, root, digest, ds)
      && Spliced(source, Edits(lib, root, ds)) == Spliced(source, Edits(lib, root, cs))
  }

  /** An accepted list is accepted in every order exactly when its changes are independent. */
  lemma AcceptsEveryOrderIff(
    lib: Library, source: string, original: Value, root: SpanTree.Node, digest: string, cs: seq<Change>)
    requires Parsed(source, original, root) && WellFormed(cs) && Accepts(lib, source, original, root, digest, cs)
    ensures AcceptsEveryOrder(lib, source, original, root, digest, cs) <==> Independent(cs)
  {
    if Independent(cs) {
      forall ds | Permutes(ds, cs)
        ensures Accepts(lib, source, original, root, digest, ds)
        ensures Spliced(source, Edits(lib, root, ds)) == Spliced(source, Edits(lib, root, cs))
      {
        AcceptedInAnyOrder(lib, source, original, root, digest, cs, ds);
      }
    } else {
      var ds := RefusedOrder(original, cs);
    }
  }

  // ----- What an accepted patch does -----

  /**
   * An accepted patch in which no change disturbs a later one loads (up to Python's
   * equality) to an object with the leaves of the original, the desired scalar at each
   * target and every other one as it was.
   */
  lemma AcceptedChangesOnlyTargets(
    lib: Library, source: string, original: Value, root: SpanTree.Node, digest: string, cs: seq<Change>, pos: Pos)
    requires Parsed(source, original, root) && WellFormed(cs) && Undisturbed(Writes(cs))
    requires Accepts(lib, source, original, root, digest, cs)
    ensures var loaded := lib.load(Spliced(source, Edits(lib, root, cs))).value;
      && (LeafAt(loaded, pos) <==> LeafAt(original, pos))
      && (LeafAt(loaded, pos) ==>
            && ((forall i :: 0 <= i < |cs| ==> Locate(original, cs[i].path) != Some(pos))
                  ==> ScalarEq(At(loaded, pos).value.scalar, At(original, pos).value.scalar))
            && (forall i :: 0 <= i < |cs| && Locate(original, cs[i].path) == Some(pos)
                  ==> ScalarEq(At(loaded, pos).value.scalar, cs[i].desired)))
  {
    var loaded := lib.load(Spliced(source, Edits(lib, root, cs))).value;
    var expected := Materialized(original, cs).value;
    MaterializedChangesOnlyTargets(original, cs, pos);
    AtPyEq(loaded, expected, pos);
  }

  // ----- Which manifests are patched -----

  /** A source is accepted under one digest only, whatever is changed in it. */
  lemma OneDigest(
    lib: Library, source: string, original: Value, root: SpanTree.Node, digest: string, digest': string,
    cs: seq<Change>, cs': seq<Change>)
    requires Accepts(lib, source, original, root, digest, cs) && Accepts(lib, source, original, root, digest', cs')
    ensures digest == digest'
  {
  }

  /** Different manifests have different digests. */
  ghost predicate Injective(lib: Library) {
    forall v, w :: lib.digest(v) == lib.digest(w) ==> v == w
  }

  /** Changes approved for the digest of one manifest are accepted on that manifest only, and it is a Deployment. */
  lemma OnlyTheApprovedManifest(
    lib: Library, source: string, original: Value, root: SpanTree.Node, approved: Value, cs: seq<Change>)
    requires Injective(lib) && Accepts(lib, source, original, root, lib.digest(approved), cs)
    ensures original == approved && Get(original, [Segment("kind", None)]) == Some(Leaf(Str("Deployment")))
  {
    assert [Segment("kind", None)][1..] == [];
    assert lib.digest(original) == lib.digest(approved);
  }

  // ----- What is written loads back -----

  /** The text of a single-quoted scalar, in which two apostrophes stand for one. */
  function Unquoted(inner: string): Option<string> {
    if inner == "" then Some("")
    else if inner[0] != '\'' then
      var rest := Unquoted(inner[1..]);
      if rest.None? then None else Some([inner[0]] + rest.value)
    else if |inner| >= 2 && inner[1] == '\'' then
      var rest := Unquoted(inner[2..]);
      if rest.None? then None else Some("'" + rest.value)
    else None
  }

  lemma {:induction false} UnquotedDoubled(s: string)
    ensures Unquoted(DoubleApostrophes(s)) == Some(s)
  {
    if s != "" {
      UnquotedDoubled(s[1..]);
      var rest := DoubleApostrophes(s[1..]);
      assert s == [s[0]] + s[1..];
      if s[0] == '\'' {
        assert ("''" + rest)[2..] == rest;
      } else {
        assert ([s[0]] + rest)[1..] == rest;
      }
    }
  }

  lemma {:induction false} DoubledUnquoted(inner: string)
    ensures Unquoted(inner).Some? ==> DoubleApostrophes(Unquoted(inner).value) == inner
  {
    if Unquoted(inner).Some? && inner != "" {
      var s := Unquoted(inner).value;
      if inner[0] != '\'' {
        DoubledUnquoted(inner[1..]);
        assert s[1..] == Unquoted(inner[1..]).value && inner == [inner[0]] + inner[1..];
      } else {
        DoubledUnquoted(inner[2..]);
        assert s[1..] == Unquoted(inner[2..]).value && inner == "''" + inner[2..];
      }
    }
  }

  /** A loader that reads dumps and single-quoted texts as the scalars they stand for. */
  ghost predicate ReadsBack(lib: Library) {
    && (forall x :: lib.load(lib.json(x)) == Some(Leaf(x)) && '\n' !in lib.json(x))
    && (forall inner, s :: Unquoted(inner) == Some(s) ==> lib.load("'" + inner + "'") == Some(Leaf(Str(s))))
  }

  /**
   * Every encoded scalar loads as the scalar, in whatever style it is written, and a
   * plain one stays on one line. Only a scalar that is no string has no encoding in
   * a quoted or block style.
   */
  lemma EncodedLoadsBack(lib: Library, style: SpanTree.Style, x: Scalar)
    requires ReadsBack(lib)
    ensures EncodeScalar(lib, style, x).None? <==> !x.Str? && style != SpanTree.Plain
    ensures EncodeScalar(lib, style, x).Some? ==>
      lib.load(EncodeScalar(lib, style, x).value) == Some(Leaf(x)) && (style == SpanTree.Plain ==> '\n' !in EncodeScalar(lib, style, x).value)
  {
    if x.Str? {
      UnquotedDoubled(x.s);
    }
  }

  /** In single quotes a text is written between apostrophes, with its own ones doubled. */
  lemma SingleQuotedStays(lib: Library, s: string)
    ensures exists inner :: EncodeScalar(lib, SpanTree.SingleQuoted, Str(s)) == Some("'" + inner + "'") && Unquoted(inner) == Some(s)
    ensures forall inner :: Unquoted(inner) == Some(s) ==> EncodeScalar(lib, SpanTree.SingleQuoted, Str(s)) == Some("'" + inner + "'")
  {
    UnquotedDoubled(s);
    assert EncodeScalar(lib, SpanTree.SingleQuoted, Str(s)) == Some("'" + DoubleApostrophes(s) + "'");
    forall inner | Unquoted(inner) == Some(s)
      ensures inner == DoubleApostrophes(s)
    {
      DoubledUnquoted(inner);
    }
  }

  /** A plain text that loads as itself stays as it is; every other one that is not single-quoted is dumped. */
  lemma PlainStays(lib: Library, style: SpanTree.Style, s: string)
    requires style != SpanTree.SingleQuoted
    ensures EncodeScalar(lib, style, Str(s)) ==
      if style == SpanTree.Plain && '\n' !in s && lib.load(s) == Some(Leaf(Str(s))) then Some(s) else Some(lib.json(Str(s)))
  {
  }

  /** A change has an edit exactly when its path leads to one scalar node that can hold it; the edit covers that node. */
  lemma EditForIff(lib: Library, root: SpanTree.Node, c: Change)
    requires ReadsBack(lib)
    ensures EditFor(lib, root, c).Some? <==>
      var node := SpanTree.NodeGet(root, c.path);
      node.Some? && node.value.ScalarNode? && (c.desired.Str? || node.value.style == SpanTree.Plain)
    ensures EditFor(lib, root, c).Some? ==>
      var e, node := EditFor(lib, root, c).value, SpanTree.NodeGet(root, c.path).value;
      e.start == node.start && e.end == node.end && lib.load(e.text) == Some(Leaf(c.desired))
  {
    var node := SpanTree.NodeGet(root, c.path);
    if node.Some? && node.value.ScalarNode? {
      EncodedLoadsBack(lib, node.value.style, c.desired);
    }
  }

  ghost predicate IsPlainAt(root: SpanTree.Node, at: Option<Pos>) {
    && at.Some?
    && var node := SpanTree.NodeAt(root, at.value);
       node.Some? && node.value.ScalarNode? && node.value.style == SpanTree.Plain
  }

  /**
   * A change whose current value is found has an edit exactly when no selector of its path
   * is shown by two items and the scalar there is plain or becomes a string.
   */
  lemma MatchingChangeHasEditIff(lib: Library, source: string, original: Value, root: SpanTree.Node, c: Change)
    requires ReadsBack(lib) && Parsed(source, original, root) && Get(original, c.path) == Some(Leaf(c.current))
    ensures EditFor(lib, root, c).Some? <==>
      && (forall k :: 0 <= k < |c.path| ==> SpanTree.Unrivalled(root, c.path, k))
      && (c.desired.Str? || IsPlainAt(root, Locate(original, c.path)))
  {
    EditForIff(lib, root, c);
    SpanTree.NodeGetIff(root, c.path);
    if SpanTree.NodeGet(root, c.path).Some? {
      SpanTree.NavigationsAgree(root, c.path);
    }
  }

  // ----- Byte-exact rollback -----

  /** The scalar text of each target is what the encoder writes for the current value in the node's style. */
  predicate WrittenAsEncoded(lib: Library, source: string, root: SpanTree.Node, cs: seq<Change>)
    requires HasEdits(lib, root, cs) && Spliceable(Edits(lib, root, cs), |source|)
  {
    forall i :: 0 <= i < |cs| ==>
      var e := Edits(lib, root, cs)[i];
      EncodeScalar(lib, SpanTree.NodeGet(root, cs[i].path).value.style, cs[i].current) == Some(source[e.start..e.end])
  }

  /** In the patched text each target is the scalar just written, in the same style. */
  predicate ReparsesInPlace(lib: Library, root: SpanTree.Node, cs: seq<Change>, root': SpanTree.Node)
    requires HasEdits(lib, root, cs)
  {
    forall i :: 0 <= i < |cs| ==>
      var es := Edits(lib, root, cs);
      var node := SpanTree.NodeGet(root', cs[i].path);
      && node.Some? && node.value.ScalarNode?
      && node.value.style == SpanTree.NodeGet(root, cs[i].path).value.style
      && node.value.start == es[i].start + Shift(es, es[i])
      && node.value.end == node.value.start + |es[i].text|
  }

  lemma InverseEdit(lib: Library, source: string, root: SpanTree.Node, cs: seq<Change>, root': SpanTree.Node, i: nat)
    requires HasEdits(lib, root, cs) && Spliceable(Edits(lib, root, cs), |source|)
    requires WrittenAsEncoded(lib, source, root, cs) && ReparsesInPlace(lib, root, cs, root')
    requires i < |cs|
    ensures EditFor(lib, root', Inverse(cs[i])).Some?
    ensures var es := Edits(lib, root, cs); var back := EditFor(lib, root', Inverse(cs[i])).value;
      && back.start == es[i].start + Shift(es, es[i])
      && back.end == back.start + |es[i].text|
      && back.text == source[es[i].start..es[i].end]
  {
  }

  lemma InverseEdits(lib: Library, source: string, root: SpanTree.Node, cs: seq<Change>, root': SpanTree.Node)
    requires HasEdits(lib, root, cs) && Spliceable(Edits(lib, root, cs), |source|)
    requires WrittenAsEncoded(lib, source, root, cs) && ReparsesInPlace(lib, root, cs, root')
    ensures HasEdits(lib, root', Inverses(cs))
    ensures Undoes(source, Edits(lib, root, cs), Edits(lib, root', Inverses(cs)))
  {
    forall i | 0 <= i < |cs|
      ensures EditFor(lib, root', Inverses(cs)[i]).Some?
    {
      InverseEdit(lib, source, root, cs, root', i);
    }
    var es, back := Edits(lib, root, cs), Edits(lib, root', Inverses(cs));
    forall i | 0 <= i < |es|
      ensures back[i].start == es[i].start + Shift(es, es[i])
      ensures back[i].end == back[i].start + |es[i].text| && back[i].text == source[es[i].start..es[i].end]
    {
      InverseEdit(lib, source, root, cs, root', i);
    }
  }

  /** What the libraries promise: a dump is never empty, the empty text does not load to a string, a digest is one. */
  ghost predicate Realistic(lib: Library) {
    && (forall x :: lib.json(x) != "") && lib.load("") != Some(Leaf(Str("")))
    && (forall v :: ActionPolicy.IsDigest(lib.digest(v)))
  }

  /** The encoder never writes an empty text. */
  lemma EncodedIsNotEmpty(lib: Library, style: SpanTree.Style, x: Scalar)
    requires Realistic(lib)
    ensures EncodeScalar(lib, style, x).Some? ==> EncodeScalar(lib, style, x).value != ""
  {
    if x.Str? && style.SingleQuoted? {
      assert |"'" + DoubleApostrophes(x.s) + "'"| >= 2;
    }
  }

  lemma EditsAreNotEmpty(lib: Library, root: SpanTree.Node, cs: seq<Change>)
    requires Realistic(lib) && HasEdits(lib, root, cs)
    ensures forall i :: 0 <= i < |cs| ==> Edits(lib, root, cs)[i].text != ""
  {
    forall i | 0 <= i < |cs|
      ensures Edits(lib, root, cs)[i].text != ""
    {
      EncodedIsNotEmpty(lib, SpanTree.NodeGet(root, cs[i].path).value.style, cs[i].desired);
    }
  }

  /** Splicing the inverse changes into the patched text gives the original text, character for character. */
  lemma RollbackIsByteExact(
    lib: Library, source: string, root: SpanTree.Node, cs: seq<Change>, root': SpanTree.Node)
    requires Realistic(lib)
    requires HasEdits(lib, root, cs) && Spliceable(Edits(lib, root, cs), |source|)
    requires WrittenAsEncoded(lib, source, root, cs) && ReparsesInPlace(lib, root, cs, root')
    ensures HasEdits(lib, root', Inverses(cs))
    ensures var patched := Spliced(source, Edits(lib, root, cs)); var back := Edits(lib, root', Inverses(cs));
      Spliceable(back, |patched|) && Spliced(patched, back) == source
  {
    InverseEdits(lib, source, root, cs, root');
    EditsAreNotEmpty(lib, root, cs);
    var es, back := Edits(lib, root, cs), Edits(lib, root', Inverses(cs));
    UndoingIsSpliceable(source, es, back);
    SplicedBack(source, es, back);
  }

  /** Another order of a list of changes has the same edits. */
  lemma EditsInAnyOrder(lib: Library, root: SpanTree.Node, text: string, cs: seq<Change>, ds: seq<Change>)
    requires WellFormed(cs) && Permutes(ds, cs) && HasEdits(lib, root, cs) && Spliceable(Edits(lib, root, cs), |text|)
    ensures HasEdits(lib, root, ds) && Spliceable(Edits(lib, root, ds), |text|)
    ensures Spliced(text, Edits(lib, root, ds)) == Spliced(text, Edits(lib, root, cs))
  {
    PermutedMembers(ds, cs);
    PermutedDistinct(cs, ds);
    assert forall i :: 0 <= i < |ds| ==> ds[i] in cs;
    assert forall i :: 0 <= i < |cs| ==> cs[i] in ds;
    SpansStayDistinct(lib, root, cs, ds);
    SpansStayApart(lib, root, text, cs, ds);
    EditsIncluded(lib, root, cs, ds);
    EditsIncluded(lib, root, ds, cs);
    SplicedInAnyOrder(text, Edits(lib, root, ds), Edits(lib, root, cs));
  }

  lemma SpansStayApart(lib: Library, root: SpanTree.Node, text: string, cs: seq<Change>, ds: seq<Change>)
    requires HasEdits(lib, root, cs) && HasEdits(lib, root, ds) && DistinctTargets(ds)
    requires Spliceable(Edits(lib, root, cs), |text|) && forall d :: d in ds ==> d in cs
    ensures var fs := Edits(lib, root, ds);
      Disjoint(fs) && forall i :: 0 <= i < |fs| ==> InBounds(fs[i], |text|)
  {
    var es, fs := Edits(lib, root, cs), Edits(lib, root, ds);
    forall i | 0 <= i < |fs|
      ensures InBounds(fs[i], |text|)
    {
      assert ds[i] in cs;
      var a :| 0 <= a < |cs| && cs[a] == ds[i];
      assert es[a] == fs[i];
    }
    forall i, j | 0 <= i < j < |fs|
      ensures fs[i].end <= fs[j].start || fs[j].end <= fs[i].start
    {
      assert ds[i] in cs && ds[j] in cs;
      var a :| 0 <= a < |cs| && cs[a] == ds[i];
      var b :| 0 <= b < |cs| && cs[b] == ds[j];
      assert es[a] == fs[i] && es[b] == fs[j];
      assert a != b;
    }
  }

  /** Splicing the inverses, in any order, into an accepted patch returns the approved source itself. */
  lemma RollbackRestoresSource(
    lib: Library, source: string, original: Value, root: SpanTree.Node, digest: string, cs: seq<Change>,
    root': SpanTree.Node, back: seq<Change>)
    requires Realistic(lib) && WellFormed(cs) && Accepts(lib, source, original, root, digest, cs)
    requires WrittenAsEncoded(lib, source, root, cs) && ReparsesInPlace(lib, root, cs, root')
    requires Permutes(back, Inverses(cs))
    ensures var patched := Spliced(source, Edits(lib, root, cs));
      && HasEdits(lib, root', back) && Spliceable(Edits(lib, root', back), |patched|)
      && Spliced(patched, Edits(lib, root', back)) == source
  {
    RollbackIsByteExact(lib, source, root, cs, root');
    InversesAreWellFormed(cs);
    EditsInAnyOrder(lib, root', Spliced(source, Edits(lib, root, cs)), Inverses(cs), back);
  }

  lemma InversesAreWellFormed(cs: seq<Change>)
    requires WellFormed(cs)
    ensures WellFormed(Inverses(cs))
  {
  }

  /**
   * When the patched text parses to the expected object, its rollback, in any
   * order, is accepted and returns the approved source.
   */
  lemma RollbackIsAccepted(
    lib: Library, source: string, original: Value, root: SpanTree.Node, digest: string, cs: seq<Change>,
    original': Value, root': SpanTree.Node, back: seq<Change>)
    requires Realistic(lib) && WellFormed(cs) && AllNameSafe(cs) && Accepts(lib, source, original, root, digest, cs)
    requires WrittenAsEncoded(lib, source, root, cs) && ReparsesInPlace(lib, root, cs, root')
    requires Materialized(original, cs) == Some(original') && IsDeployment(original') && Reloads(lib, source, original)
    requires Permutes(back, Inverses(cs))
    ensures var patched := Spliced(source, Edits(lib, root, cs));
      && Accepts(lib, patched, original', root', lib.digest(original'), back)
      && Spliced(patched, Edits(lib, root', back)) == source
  {
    RollbackRestoresSource(lib, source, original, root, digest, cs, root', back);
    InversesRestore(original, cs);
    MaterializedInAnyOrder(original', Inverses(cs), back);
  }

  // ----- Plans -----

  /** `materialize_scalar_patch` accepts the plan. */
  ghost predicate AcceptsPlan(lib: Library, source: string, original: Value, root: SpanTree.Node, plan: PatchPlan.Plan) {
    && PatchPlan.ValidPlan(plan) && PatchPlan.Scalars(plan.replacements)
    && Accepts(lib, source, original, root, plan.sourceManifestSha256, PatchPlan.Resolved(plan.replacements))
  }

  /** `materialize_scalar_rollback` accepts the plan with the digest of the text to roll back. */
  ghost predicate AcceptsRollback(
    lib: Library, source: string, original: Value, root: SpanTree.Node, plan: PatchPlan.Plan, digest: string)
  {
    && PatchPlan.ValidPlan(plan) && PatchPlan.Scalars(plan.rollback) && ActionPolicy.IsDigest(digest)
    && Accepts(lib, source, original, root, digest, PatchPlan.Resolved(plan.rollback))
  }

  /** A plan approved for one manifest patches that manifest only, and rolls back that manifest only. */
  lemma PlanIsForOneManifest(
    lib: Library, source: string, original: Value, root: SpanTree.Node, plan: PatchPlan.Plan, approved: Value)
    requires Injective(lib)
    ensures AcceptsPlan(lib, source, original, root, plan) && plan.sourceManifestSha256 == lib.digest(approved) ==>
      original == approved && Get(original, [Segment("kind", None)]) == Some(Leaf(Str("Deployment")))
    ensures AcceptsRollback(lib, source, original, root, plan, lib.digest(approved)) ==>
      original == approved && Get(original, [Segment("kind", None)]) == Some(Leaf(Str("Deployment")))
  {
    if AcceptsPlan(lib, source, original, root, plan) && plan.sourceManifestSha256 == lib.digest(approved) {
      OnlyTheApprovedManifest(lib, source, original, root, approved, PatchPlan.Resolved(plan.replacements));
    }
    if AcceptsRollback(lib, source, original, root, plan, lib.digest(approved)) {
      OnlyTheApprovedManifest(lib, source, original, root, approved, PatchPlan.Resolved(plan.rollback));
    }
  }

  /** The rollback list of a validated plan returns the approved source. */
  lemma PlanRollbackRestoresSource(
    lib: Library, source: string, original: Value, root: SpanTree.Node, plan: PatchPlan.Plan, root': SpanTree.Node)
    requires Realistic(lib) && AcceptsPlan(lib, source, original, root, plan)
    requires var cs := PatchPlan.Resolved(plan.replacements);
      WrittenAsEncoded(lib, source, root, cs) && ReparsesInPlace(lib, root, cs, root')
    ensures PatchPlan.Scalars(plan.rollback)
    ensures var patched := Spliced(source, Edits(lib, root, PatchPlan.Resolved(plan.replacements)));
      var back := PatchPlan.Resolved(plan.rollback);
      && HasEdits(lib, root', back) && Spliceable(Edits(lib, root', back), |patched|)
      && Spliced(patched, Edits(lib, root', back)) == source
  {
    PatchPlan.RollbackIsPermutationOfInverses(plan);
    PatchPlan.ResolvedIsWellFormed(plan.replacements);
    RollbackRestoresSource(lib, source, original, root, plan.sourceManifestSha256,
                           PatchPlan.Resolved(plan.replacements), root', PatchPlan.Resolved(plan.rollback));
  }

  /** A plan of any action but `selector_fix` leaves the kind of the manifest. */
  lemma PlanKeepsKind(plan: PatchPlan.Plan, original: Value, original': Value)
    requires PatchPlan.ValidPlan(plan) && plan.actionType != ActionPolicy.SelectorFix && PatchPlan.Scalars(plan.replacements)
    requires Materialized(original, PatchPlan.Resolved(plan.replacements)) == Some(original') && IsDeployment(original)
    ensures IsDeployment(original')
  {
    var cs, kind := PatchPlan.Resolved(plan.replacements), [Segment("kind", None)];
    PatchPlan.PlanIsNameSafe(plan);
    PatchPlan.ResolvedIsWellFormed(plan.replacements);
    var pos := [Field(Text("kind"))];
    assert pos[1..] == [] && kind[1..] == [] && pos + [] == pos;
    assert Locate(original, kind) == Some(pos) && LeafAt(original, pos) by {
      assert Locate(original.fields[Text("kind")], kind[1..]) == Some([]);
    }
    forall i | 0 <= i < |cs|
      ensures Locate(original, cs[i].path) != Some(pos)
    {
      assert plan.replacements[i] in plan.replacements;
      ActionPolicy.AllowedIsNotKind(plan.actionType, plan.replacements[i]);
      if Locate(original, cs[i].path) == Some(pos) {
        LocateIsInjective(original, cs[i].path, kind);
        assert false;
      }
    }
    MaterializedChangesOnlyTargets(original, cs, pos);
  }

  /**
   * The rollback of an accepted plan of any action but `selector_fix` is accepted
   * with the digest of the patched manifest, and returns the approved source.
   */
  lemma PlanRollbackIsAccepted(
    lib: Library, source: string, original: Value, root: SpanTree.Node, plan: PatchPlan.Plan,
    original': Value, root': SpanTree.Node)
    requires Realistic(lib) && AcceptsPlan(lib, source, original, root, plan) && plan.actionType != ActionPolicy.SelectorFix
    requires var cs := PatchPlan.Resolved(plan.replacements);
      && WrittenAsEncoded(lib, source, root, cs) && ReparsesInPlace(lib, root, cs, root')
      && Materialized(original, cs) == Some(original')
    requires Reloads(lib, source, original)
    ensures var patched := Spliced(source, Edits(lib, root, PatchPlan.Resolved(plan.replacements)));
      && AcceptsRollback(lib, patched, original', root', plan, lib.digest(original'))
      && Spliced(patched, Edits(lib, root', PatchPlan.Resolved(plan.rollback))) == source
  {
    PatchPlan.RollbackIsPermutationOfInverses(plan);
    PatchPlan.ResolvedIsWellFormed(plan.replacements);
    PatchPlan.PlanIsNameSafe(plan);
    PlanKeepsKind(plan, original, original');
    RollbackIsAccepted(lib, source, original, root, plan.sourceManifestSha256, PatchPlan.Resolved(plan.replacements),
                       original', root', PatchPlan.Resolved(plan.rollback));
  }
}
