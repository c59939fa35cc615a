/**
 * The second view of a manifest: the tree of YAML nodes with source offsets.
 *
 * Navigation here compares raw text where navigation on the object compares typed
 * values. The two are shown to lead to the same position, and different field
 * paths to disjoint spans.
 */
module SpanTree {
  import opened Wrappers
  import opened FieldPath
  import opened Manifest

  datatype Style = Plain | SingleQuoted | DoubleQuoted | Block

  /** A scalar node carries its raw text and the value the loader constructs from it. */
  datatype Node =
    | ScalarNode(start: nat, end: nat, style: Style, text: string, value: Value)
    | SeqNode(start: nat, end: nat, items: seq<Node>)
    | MapNode(start: nat, end: nat, entries: seq<Entry>)

  /** A mapping entry: the raw text of its key, the key the loader constructs, and the value node. */
  datatype Entry = Entry(keyText: string, key: Key, node: Node)

  // ----- Loading -----

  function Load(n: Node): Value
    decreases n
  {
    match n
    case ScalarNode(_, _, _, _, value) => value
    case SeqNode(_, _, items) => List(seq(|items|, i requires 0 <= i < |items| => Load(items[i])))
    case MapNode(_, _, entries) => Obj(FieldsOf(entries))
  }

  function FieldsOf(entries: seq<Entry>): map<Key, Value>
    decreases entries
  {
    if entries == [] then map[]
    else
      var n := |entries| - 1;
      FieldsOf(entries[..n])[entries[n].key := Load(entries[n].node)]
  }

  // ----- What the parser guarantees -----

  /** No two keys of a mapping have the same raw text, and none are equal once constructed. */
  predicate UniqueKeys(entries: seq<Entry>) {
    forall i, j :: 0 <= i < j < |entries| ==>
      entries[i].keyText != entries[j].keyText && entries[i].key != entries[j].key
  }

  /** String scalars are constructed as their own text, and keys are unique throughout. */
  predicate WellFormed(n: Node)
    decreases n
  {
    match n
    case ScalarNode(_, _, _, text, value) =>
      (value.Leaf? || value.Opaque?) && (value.Leaf? && value.scalar.Str? ==> value.scalar.s == text)
    case SeqNode(_, _, items) =>
      forall i :: 0 <= i < |items| ==> WellFormed(items[i])
    case MapNode(_, _, entries) =>
      && UniqueKeys(entries)
      && forall i :: 0 <= i < |entries| ==>
           WellFormed(entries[i].node) && (entries[i].key.Text? ==> entries[i].key.s == entries[i].keyText)
  }

  predicate Within(inner: Node, outer: Node) {
    outer.start <= inner.start && inner.end <= outer.end
  }

  /** Children lie inside their parent, in document order, without overlap. */
  predicate Spanned(n: Node)
    decreases n
  {
    n.start <= n.end &&
    match n
    case ScalarNode(_, _, _, _, _) => true
    case SeqNode(_, _, items) =>
      && (forall i :: 0 <= i < |items| ==> Spanned(items[i]) && Within(items[i], n))
      && (forall i, j :: 0 <= i < j < |items| ==> items[i].end <= items[j].start)
    case MapNode(_, _, entries) =>
      && (forall i :: 0 <= i < |entries| ==> Spanned(entries[i].node) && Within(entries[i].node, n))
      && (forall i, j :: 0 <= i < j < |entries| ==> entries[i].node.end <= entries[j].node.start)
  }

  // ----- Positions in the node tree -----

  function FindKey(entries: seq<Entry>, k: Key): (r: Option<nat>)
    ensures r.Some? ==> r.value < |entries| && entries[r.value].key == k
    ensures r.None? ==> forall i :: 0 <= i < |entries| ==> entries[i].key != k
  {
    if entries == [] then None
    else if entries[0].key == k then Some(0)
    else
      var rest := FindKey(entries[1..], k);
      if rest.None? then None else Some(rest.value + 1)
  }

  function NodeAt(n: Node, pos: Pos): Option<Node>
    decreases |pos|
  {
    if pos == [] then Some(n)
    else match pos[0]
      case Field(k) =>
        if !n.MapNode? || FindKey(n.entries, k).None? then None
        else NodeAt(n.entries[FindKey(n.entries, k).value].node, pos[1..])
      case Item(i) =>
        if n.SeqNode? && i < |n.items| then NodeAt(n.items[i], pos[1..]) else None
  }

  // ----- Navigation by raw text -----

  /** The index of the first entry with this raw key text, as `mapping_value` scans. */
  function FindText(entries: seq<Entry>, key: string): (r: Option<nat>)
    ensures r.Some? ==> r.value < |entries| && entries[r.value].keyText == key
    ensures r.None? ==> forall i :: 0 <= i < |entries| ==> entries[i].keyText != key
  {
    if entries == [] then None
    else if entries[0].keyText == key then Some(0)
    else
      var rest := FindText(entries[1..], key);
      if rest.None? then None else Some(rest.value + 1)
  }

  predicate NameTextIs(item: Node, name: string) {
    && item.MapNode?
    && FindText(item.entries, "name").Some?
    && var found := item.entries[FindText(item.entries, "name").value].node;
       found.ScalarNode? && found.text == name
  }

  function NameTexts(items: seq<Node>, name: string): (r: seq<bool>)
    ensures |r| == |items|
    ensures forall i :: 0 <= i < |items| ==> r[i] == NameTextIs(items[i], name)
  {
    seq(|items|, i requires 0 <= i < |items| => NameTextIs(items[i], name))
  }

  function NodeSelect(items: seq<Node>, name: string): (r: Option<nat>)
    ensures r.Some? ==> r.value < |items| && NameTextIs(items[r.value], name)
    ensures r.Some? ==> forall j :: 0 <= j < |items| && NameTextIs(items[j], name) ==> j == r.value
  {
    OnlyFlag(NameTexts(items, name))
  }

  /** One segment of `node_value_at`. */
  function NodeDescend(n: Node, g: Segment): Option<Node> {
    if !n.MapNode? || FindText(n.entries, g.key).None? then None
    else
      var child := n.entries[FindText(n.entries, g.key).value].node;
      if g.selected.None? then Some(child)
      else if !child.SeqNode? then None
      else
        var i := NodeSelect(child.items, g.selected.value);
        if i.None? then None else Some(child.items[i.value])
  }

  /** `node_value_at`; `None` is a raised `ManifestSourcePatchError`. */
  function NodeGet(n: Node, path: Path): Option<Node>
    decreases |path|
  {
    if path == [] then Some(n)
    else
      var next := NodeDescend(n, path[0]);
      if next.None? then None else NodeGet(next.value, path[1..])
  }

  method NodeValueAt(root: Node, path: Path) returns (r: Option<Node>)
    ensures r == NodeGet(root, path)
  {
    var current := root;
    assert path[0..] == path;
    for i := 0 to |path|
      invariant NodeGet(root, path) == NodeGet(current, path[i..])
    {
      assert path[i..][0] == path[i] && path[i..][1..] == path[i + 1..];
      var next := NodeDescend(current, path[i]);
      if next.None? {
        return None;
      }
      current := next.value;
    }
    return Some(current);
  }

  /** The position that navigation by raw text leads to. */
  function NodeLocate(n: Node, path: Path): Option<Pos>
    decreases |path|
  {
    if path == [] then Some([])
    else if !n.MapNode? || FindText(n.entries, path[0].key).None? then None
    else
      var entry := n.entries[FindText(n.entries, path[0].key).value];
      if path[0].selected.None? then Under([Field(entry.key)], NodeLocate(entry.node, path[1..]))
      else if !entry.node.SeqNode? then None
      else
        var i := NodeSelect(entry.node.items, path[0].selected.value);
        if i.None? then None
        else Under([Field(entry.key), Item(i.value)], NodeLocate(entry.node.items[i.value], path[1..]))
  }

  // ----- The node tree loads position by position -----

  lemma {:induction false} FieldsOfEntry(entries: seq<Entry>, i: nat)
    requires UniqueKeys(entries) && i < |entries|
    ensures entries[i].key in FieldsOf(entries) && FieldsOf(entries)[entries[i].key] == Load(entries[i].node)
  {
    var n := |entries| - 1;
    if i < n {
      FieldsOfEntry(entries[..n], i);
    }
  }

  lemma {:induction false} FieldHasEntry(entries: seq<Entry>, k: Key)
    requires k in FieldsOf(entries)
    ensures exists i :: 0 <= i < |entries| && entries[i].key == k
  {
    var n := |entries| - 1;
    if k == entries[n].key {
    } else {
      FieldHasEntry(entries[..n], k);
      var i :| 0 <= i < n && entries[..n][i].key == k;
      assert entries[i].key == k;
    }
  }

  lemma LoadField(entries: seq<Entry>, k: Key)
    requires UniqueKeys(entries)
    ensures k in FieldsOf(entries) <==> FindKey(entries, k).Some?
    ensures k in FieldsOf(entries) ==> FieldsOf(entries)[k] == Load(entries[FindKey(entries, k).value].node)
  {
    if k in FieldsOf(entries) {
      FieldHasEntry(entries, k);
    }
    if FindKey(entries, k).Some? {
      FieldsOfEntry(entries, FindKey(entries, k).value);
    }
  }

  /** In a well-formed mapping a string key is found by its text exactly where it is found as a key. */
  lemma FindTextIsFindKey(entries: seq<Entry>, key: string)
    requires UniqueKeys(entries)
    requires forall i :: 0 <= i < |entries| ==> entries[i].key.Text? ==> entries[i].key.s == entries[i].keyText
    ensures FindKey(entries, Text(key)).Some? ==> FindText(entries, key) == FindKey(entries, Text(key))
  {
    if FindKey(entries, Text(key)).Some? {
      var i := FindKey(entries, Text(key)).value;
      assert entries[i].keyText == key;
      var j := FindText(entries, key).value;
      assert i < j || j < i || i == j;
    }
  }

  /** What an object selector accepts, the node selector accepts too. */
  lemma NameIsImpliesNameTextIs(item: Node, name: string)
    requires WellFormed(item) && NameIs(Load(item), name)
    ensures NameTextIs(item, name)
  {
    LoadField(item.entries, NAME);
    FindTextIsFindKey(item.entries, "name");
  }

  /**
   * Whenever both navigations succeed they lead to the same position, and the
   * node found there loads to the value found there.
   */
  lemma {:induction false} NavigationsAgree(n: Node, path: Path)
    requires WellFormed(n)
    requires Get(Load(n), path).Some? && NodeGet(n, path).Some?
    ensures Locate(Load(n), path).Some?
    ensures NodeLocate(n, path) == Locate(Load(n), path)
    ensures NodeAt(n, NodeLocate(n, path).value) == NodeGet(n, path)
    ensures WellFormed(NodeGet(n, path).value)
    ensures Load(NodeGet(n, path).value) == Get(Load(n), path).value
    decreases |path|
  {
    if path != [] {
      var g := path[0];
      LoadField(n.entries, Text(g.key));
      FindTextIsFindKey(n.entries, g.key);
      var child := n.entries[FindText(n.entries, g.key).value].node;
      var next := NodeDescend(n, g).value;
      if g.selected.Some? {
        SelectorsAgree(child, g.selected.value);
        NavigationsAgree(next, path[1..]);
        var i := NodeSelect(child.items, g.selected.value).value;
        var rest := NodeLocate(next, path[1..]).value;
        assert ([Field(Text(g.key)), Item(i)] + rest)[1..][1..] == rest;
      } else {
        NavigationsAgree(child, path[1..]);
        var rest := NodeLocate(child, path[1..]).value;
        assert ([Field(Text(g.key))] + rest)[1..] == rest;
      }
    }
  }

  lemma SelectorsAgree(n: Node, name: string)
    requires WellFormed(n) && n.SeqNode?
    requires Select(Load(n).items, name).Some? && NodeSelect(n.items, name).Some?
    ensures Select(Load(n).items, name) == NodeSelect(n.items, name)
  {
    var i := Select(Load(n).items, name).value;
    NameIsImpliesNameTextIs(n.items[i], name);
  }

  // ----- When the node navigation succeeds -----

  /** The raw text of the name of an item, which need not be a string. */
  ghost predicate ShowsName(item: Node, name: string) {
    item.MapNode? &&
    exists i :: 0 <= i < |item.entries| && item.entries[i].keyText == "name" &&
                item.entries[i].node.ScalarNode? && item.entries[i].node.text == name
  }

  /** No two items of the list at a position show this name. */
  ghost predicate OneShows(n: Node, at: Pos, name: string) {
    var list := NodeAt(n, at);
    && list.Some? && list.value.SeqNode?
    && var items := list.value.items;
       forall i, j :: 0 <= i < j < |items| ==> !(ShowsName(items[i], name) && ShowsName(items[j], name))
  }

  /** The segment selects in a list in which its name is shown once. */
  ghost predicate Unrivalled(n: Node, path: Path, k: nat)
    requires k < |path|
  {
    path[k].selected.Some? ==>
      var at := Locate(Load(n), path[..k]);
      at.Some? && OneShows(n, at.value + [Field(Text(path[k].key))], path[k].selected.value)
  }

  lemma ShowsNameIff(item: Node, name: string)
    requires WellFormed(item)
    ensures ShowsName(item, name) <==> NameTextIs(item, name)
  {
    if ShowsName(item, name) {
      var i :| 0 <= i < |item.entries| && item.entries[i].keyText == "name" &&
               item.entries[i].node.ScalarNode? && item.entries[i].node.text == name;
      var j := FindText(item.entries, "name").value;
      assert i < j || j < i || i == j;
    }
  }

  /** Selecting by raw text finds the item that selecting by value finds, unless another item shows the same text. */
  lemma NodeSelectIff(n: Node, name: string)
    requires WellFormed(n) && n.SeqNode? && Select(Load(n).items, name).Some?
    ensures NodeSelect(n.items, name).Some? <==> OneShows(n, [], name)
  {
    var i := Select(Load(n).items, name).value;
    NameIsImpliesNameTextIs(n.items[i], name);
    forall j | 0 <= j < |n.items|
      ensures ShowsName(n.items[j], name) <==> NameTextIs(n.items[j], name)
    {
      ShowsNameIff(n.items[j], name);
    }
    if OneShows(n, [], name) {
      OnlyFlagIsUnique(NameTexts(n.items, name), i);
    }
  }

  lemma {:induction false} NodeAtAppend(n: Node, a: Pos, b: Pos)
    ensures NodeAt(n, a + b) == if NodeAt(n, a).None? then None else NodeAt(NodeAt(n, a).value, b)
    decreases |a|
  {
    if a == [] {
      assert a + b == b;
    } else {
      assert (a + b)[1..] == a[1..] + b;
      match a[0]
      case Field(k) =>
        if n.MapNode? && FindKey(n.entries, k).Some? {
          NodeAtAppend(n.entries[FindKey(n.entries, k).value].node, a[1..], b);
        }
      case Item(i) =>
        if n.SeqNode? && i < |n.items| {
          NodeAtAppend(n.items[i], a[1..], b);
        }
    }
  }

  lemma {:induction false} NodeGetAppend(n: Node, p: Path, q: Path)
    ensures NodeGet(n, p + q) == if NodeGet(n, p).None? then None else NodeGet(NodeGet(n, p).value, q)
    decreases |p|
  {
    if p == [] {
      assert p + q == q;
    } else if NodeDescend(n, p[0]).Some? {
      assert (p + q)[1..] == p[1..] + q;
      NodeGetAppend(NodeDescend(n, p[0]).value, p[1..], q);
    }
  }

  lemma NodeDescendIff(n: Node, g: Segment)
    requires WellFormed(n) && Descend(Load(n), g).Some?
    ensures NodeDescend(n, g).Some? <==> g.selected.None? || OneShows(n, [Field(Text(g.key))], g.selected.value)
  {
    LoadField(n.entries, Text(g.key));
    FindTextIsFindKey(n.entries, g.key);
    var child := n.entries[FindText(n.entries, g.key).value].node;
    assert NodeAt(n, [Field(Text(g.key))]) == Some(child) by {
      assert [Field(Text(g.key))][1..] == [];
    }
    if g.selected.Some? {
      NodeSelectIff(child, g.selected.value);
    }
  }

  lemma LastStepIff(n: Node, before: Path, g: Segment)
    requires WellFormed(n) && Get(Load(n), before + [g]).Some? && NodeGet(n, before).Some?
    ensures NodeGet(n, before + [g]).Some? <==> Unrivalled(n, before + [g], |before|)
  {
    LocateAppend(Load(n), before, [g]);
    NodeGetAppend(n, before, [g]);
    NavigationsAgree(n, before);
    assert (before + [g])[..|before|] == before && [g][1..] == [];
    NodeDescendIff(NodeGet(n, before).value, g);
    NodeAtAppend(n, Locate(Load(n), before).value, [Field(Text(g.key))]);
  }

  /**
   * A path that leads to a value in the object leads to a node exactly when, wherever it
   * selects an item, no second item shows the same name; a name that is no string does.
   */
  lemma {:induction false} NodeGetIff(n: Node, path: Path)
    requires WellFormed(n) && Get(Load(n), path).Some?
    ensures NodeGet(n, path).Some? <==> forall k :: 0 <= k < |path| ==> Unrivalled(n, path, k)
    decreases |path|
  {
    if path != [] {
      var m := |path| - 1;
      var before, g := path[..m], path[m];
      assert path == before + [g];
      LocateAppend(Load(n), before, [g]);
      NodeGetAppend(n, before, [g]);
      NodeGetIff(n, before);
      forall k | 0 <= k < m
        ensures Unrivalled(n, path, k) <==> Unrivalled(n, before, k)
      {
        assert before[..k] == path[..k];
      }
      if NodeGet(n, before).Some? {
        LastStepIff(n, before, g);
      }
    }
  }

  /** A mapping with one key. */
  function OneEntry(start: nat, end: nat, key: string, node: Node): Node {
    MapNode(start, end, [Entry(key, Text(key), node)])
  }

  lemma OneEntryLoads(start: nat, end: nat, key: string, node: Node)
    requires WellFormed(node)
    ensures WellFormed(OneEntry(start, end, key, node)) && Load(OneEntry(start, end, key, node)) == Obj(map[Text(key) := Load(node)])
    ensures NodeDescend(OneEntry(start, end, key, node), Segment(key, None)) == Some(node)
  {
    var entries := OneEntry(start, end, key, node).entries;
    assert entries[..0] == [] && FieldsOf(entries[..0]) == map[];
    assert FieldsOf(entries) == map[Text(key) := Load(node)];
  }

  lemma TwoShowTheName(list: Node, name: string)
    requires list.SeqNode? && |list.items| == 2 && NameTextIs(list.items[0], name) && NameTextIs(list.items[1], name)
    ensures NodeSelect(list.items, name) == None
  {
  }

  /** In `x: [{name: "5"}, {name: 5}]` the path `x[name=5].name` leads to a string, and to no node. */
  lemma NumberIsRival() returns (n: Node, path: Path)
    ensures WellFormed(n) && Get(Load(n), path) == Some(Leaf(Str("5"))) && NodeGet(n, path) == None
  {
    var text, number := ScalarNode(11, 14, DoubleQuoted, "5", Leaf(Str("5"))), ScalarNode(25, 26, Plain, "5", Leaf(Int(5)));
    var first, second := OneEntry(4, 15, "name", text), OneEntry(17, 27, "name", number);
    OneEntryLoads(4, 15, "name", text);
    OneEntryLoads(17, 27, "name", number);
    var list := SeqNode(3, 28, [first, second]);
    n := OneEntry(0, 28, "x", list);
    OneEntryLoads(0, 28, "x", list);
    path := [Segment("x", Some("5")), Segment("name", None)];
    SelectIsUniqueMatch(Load(list).items, "5", 0);
    assert path[1..] == [Segment("name", None)] && path[1..][1..] == [];
    assert Descend(Load(n), path[0]) == Some(Load(first));
    assert Get(Load(first), path[1..]) == Some(Leaf(Str("5")));
    TwoShowTheName(list, "5");
    assert NodeDescend(n, path[0]) == None;
  }

  /** Raw key texts must be unique: an integer key and a string key can share one. */
  lemma RawKeyClash() returns (n: Node, path: Path)
    ensures n.MapNode? && |n.entries| == 2 && n.entries[0].key != n.entries[1].key
    ensures forall i :: 0 <= i < 2 ==> WellFormed(n.entries[i].node)
    ensures Get(Load(n), path).Some? && NodeGet(n, path).Some?
    ensures Load(NodeGet(n, path).value) != Get(Load(n), path).value
  {
    var one := ScalarNode(3, 4, Plain, "a", Leaf(Str("a")));
    var two := ScalarNode(10, 11, Plain, "b", Leaf(Str("b")));
    var entries := [Entry("1", NonText(1), one), Entry("1", Text("1"), two)];
    n := MapNode(0, 11, entries);
    path := [Segment("1", None)];
    assert path[1..] == [];
    assert entries[..1] == [entries[0]] && entries[..1][..0] == [];
    assert FieldsOf(entries) == FieldsOf(entries[..1])[Text("1") := Leaf(Str("b"))];
    assert Get(Load(n), path) == Some(Leaf(Str("b")));
    assert FindText(entries, "1") == Some(0);
    assert NodeGet(n, path) == Some(one);
  }

  // ----- Different positions have disjoint spans -----

  lemma {:induction false} NodeAtIsInside(n: Node, pos: Pos)
    requires Spanned(n) && NodeAt(n, pos).Some?
    ensures Spanned(NodeAt(n, pos).value) && Within(NodeAt(n, pos).value, n)
    decreases |pos|
  {
    if pos != [] {
      match pos[0]
      case Field(k) => NodeAtIsInside(n.entries[FindKey(n.entries, k).value].node, pos[1..]);
      case Item(i) => NodeAtIsInside(n.items[i], pos[1..]);
    }
  }

  /** Two scalar leaves at different positions do not overlap. */
  lemma {:induction false} LeavesAreDisjoint(n: Node, p: Pos, q: Pos)
    requires Spanned(n) && p != q
    requires NodeAt(n, p).Some? && NodeAt(n, p).value.ScalarNode?
    requires NodeAt(n, q).Some? && NodeAt(n, q).value.ScalarNode?
    ensures NodeAt(n, p).value.end <= NodeAt(n, q).value.start || NodeAt(n, q).value.end <= NodeAt(n, p).value.start
    decreases |p|
  {
    if p != [] && q != [] {
      assert p == [p[0]] + p[1..] && q == [q[0]] + q[1..];
      if n.MapNode? {
        var i, j := FindKey(n.entries, p[0].key).value, FindKey(n.entries, q[0].key).value;
        NodeAtIsInside(n.entries[i].node, p[1..]);
        NodeAtIsInside(n.entries[j].node, q[1..]);
        if p[0] == q[0] {
          LeavesAreDisjoint(n.entries[i].node, p[1..], q[1..]);
        } else {
          assert i < j || j < i;
        }
      } else {
        var i, j := p[0].index, q[0].index;
        NodeAtIsInside(n.items[i], p[1..]);
        NodeAtIsInside(n.items[j], q[1..]);
        if p[0] == q[0] {
          LeavesAreDisjoint(n.items[i], p[1..], q[1..]);
        } else {
          assert i < j || j < i;
        }
      }
    }
  }

  /** Different field paths that reach scalars in both views reach disjoint spans. */
  lemma PathsHaveDisjointSpans(n: Node, p: Path, q: Path)
    requires WellFormed(n) && Spanned(n) && p != q
    requires Get(Load(n), p).Some? && NodeGet(n, p).Some? && NodeGet(n, p).value.ScalarNode?
    requires Get(Load(n), q).Some? && NodeGet(n, q).Some? && NodeGet(n, q).value.ScalarNode?
    ensures NodeGet(n, p).value.end <= NodeGet(n, q).value.start || NodeGet(n, q).value.end <= NodeGet(n, p).value.start
  {
    NavigationsAgree(n, p);
    NavigationsAgree(n, q);
    if Locate(Load(n), p) == Locate(Load(n), q) {
      LocateIsInjective(Load(n), p, q);
      assert false;
    }
    LeavesAreDisjoint(n, NodeLocate(n, p).value, NodeLocate(n, q).value);
  }

  lemma ScalarIsInside(n: Node, path: Path)
    requires WellFormed(n) && Spanned(n) && Get(Load(n), path).Some? && NodeGet(n, path).Some?
    ensures n.start <= NodeGet(n, path).value.start <= NodeGet(n, path).value.end <= n.end
  {
    NavigationsAgree(n, path);
    NodeAtIsInside(n, NodeLocate(n, path).value);
  }
}
