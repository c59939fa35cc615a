/**
 * Manifests as plain objects, and the lens that field paths give on them.
 *
 * A field path is resolved to a position. Positions do not depend on names, so
 * writing at positions is a simultaneous substitution (`Overlay`); all the
 * difficulty is in showing when a write leaves the resolution of paths alone.
 */
module Manifest {
  import opened Wrappers
  import opened FieldPath

  /** The values `scalar_value` accepts; floats are mathematical reals. */
  datatype Scalar = Null | Bool(b: bool) | Int(i: int) | Float(r: real) | Str(s: string)

  /** A dictionary key: a string, or any other key up to Python's key equality. */
  datatype Key = Text(s: string) | NonText(id: int)

  /** `Opaque` is a constructed value that is neither a scalar nor a container, such as a date. */
  datatype Value =
    | Leaf(scalar: Scalar)
    | Opaque(id: int)
    | List(items: seq<Value>)
    | Obj(fields: map<Key, Value>)

  const NAME := Text("name")

  // ----- Python's equality -----

  function Number(s: Scalar): Option<real> {
    match s
    case Bool(b) => Some(if b then 1.0 else 0.0)
    case Int(i) => Some(i as real)
    case Float(r) => Some(r)
    case _ => None
  }

  /** Python's `==` between scalars: numbers and booleans compare by value, not by type. */
  predicate ScalarEq(a: Scalar, b: Scalar) {
    a == b || (Number(a).Some? && Number(a) == Number(b))
  }

  /** Python's `==` between loaded values. */
  predicate PyEq(a: Value, b: Value)
    decreases a
  {
    match a
    case Leaf(x) => b.Leaf? && ScalarEq(x, b.scalar)
    case Opaque(_) => a == b
    case List(items) =>
      b.List? && |items| == |b.items| && forall i :: 0 <= i < |items| ==> PyEq(items[i], b.items[i])
    case Obj(fields) =>
      b.Obj? && fields.Keys == b.fields.Keys && forall k :: k in fields ==> PyEq(fields[k], b.fields[k])
  }

  /** Every number in the value is an integer. */
  predicate OnlyIntegers(v: Value)
    decreases v
  {
    match v
    case Leaf(x) => !x.Bool? && !x.Float?
    case Opaque(_) => true
    case List(items) => forall i :: 0 <= i < |items| ==> OnlyIntegers(items[i])
    case Obj(fields) => forall k :: k in fields ==> OnlyIntegers(fields[k])
  }

  /** Python's equality confuses nothing but booleans, integers and floats. */
  lemma {:induction false} PyEqIsEquality(a: Value, b: Value)
    requires OnlyIntegers(a) && OnlyIntegers(b)
    ensures PyEq(a, b) <==> a == b
    decreases a
  {
    match a
    case Leaf(_) =>
    case Opaque(_) =>
    case List(items) =>
      if b.List? && |items| == |b.items| {
        forall i | 0 <= i < |items|
          ensures PyEq(items[i], b.items[i]) <==> items[i] == b.items[i]
        {
          PyEqIsEquality(items[i], b.items[i]);
        }
      }
    case Obj(fields) =>
      if b.Obj? && fields.Keys == b.fields.Keys {
        forall k | k in fields
          ensures PyEq(fields[k], b.fields[k]) <==> fields[k] == b.fields[k]
        {
          PyEqIsEquality(fields[k], b.fields[k]);
        }
      }
  }

  // ----- Positions -----

  datatype Step = Field(key: Key) | Item(index: nat)

  type Pos = seq<Step>

  function At(v: Value, pos: Pos): Option<Value>
    decreases |pos|
  {
    if pos == [] then Some(v)
    else match pos[0]
      case Field(k) => if v.Obj? && k in v.fields then At(v.fields[k], pos[1..]) else None
      case Item(i) => if v.List? && i < |v.items| then At(v.items[i], pos[1..]) else None
  }

  predicate LeafAt(v: Value, pos: Pos) {
    At(v, pos).Some? && At(v, pos).value.Leaf?
  }

  /** Equal values have leaves at the same positions, and those are equal. */
  lemma {:induction false} AtPyEq(a: Value, b: Value, pos: Pos)
    requires PyEq(a, b)
    ensures LeafAt(a, pos) <==> LeafAt(b, pos)
    ensures LeafAt(a, pos) ==> ScalarEq(At(a, pos).value.scalar, At(b, pos).value.scalar)
    decreases |pos|
  {
    if pos != [] {
      match pos[0]
      case Field(k) => if a.Obj? && k in a.fields { AtPyEq(a.fields[k], b.fields[k], pos[1..]); }
      case Item(i) => if a.List? && i < |a.items| { AtPyEq(a.items[i], b.items[i], pos[1..]); }
    }
  }

  // ----- Selecting a list item by name -----

  predicate NameIs(item: Value, name: string) {
    item.Obj? && NAME in item.fields && item.fields[NAME] == Leaf(Str(name))
  }

  function Named(items: seq<Value>, name: string): (r: seq<bool>)
    ensures |r| == |items|
    ensures forall i :: 0 <= i < |items| ==> r[i] == NameIs(items[i], name)
  {
    seq(|items|, i requires 0 <= i < |items| => NameIs(items[i], name))
  }

  /** The indices of the flags that are set, in order. */
  function SetFlags(flags: seq<bool>): seq<nat> {
    if flags == [] then []
    else SetFlags(flags[..|flags| - 1]) + if flags[|flags| - 1] then [|flags| - 1] else []
  }

  lemma {:induction false} SetFlagsAre(flags: seq<bool>)
    ensures forall i :: i in SetFlags(flags) <==> 0 <= i < |flags| && flags[i]
  {
    if flags != [] {
      SetFlagsAre(flags[..|flags| - 1]);
    }
  }

  /** No index is listed twice. */
  lemma {:induction false} SetFlagsIncrease(flags: seq<bool>, j: nat, k: nat)
    requires j < k < |SetFlags(flags)|
    ensures SetFlags(flags)[j] < SetFlags(flags)[k]
  {
    var n := |flags| - 1;
    var before := SetFlags(flags[..n]);
    if k < |before| {
      SetFlagsIncrease(flags[..n], j, k);
    } else {
      SetFlagsAre(flags[..n]);
      assert before[j] in before;
    }
  }

  /** The one flag that is set; `None` when there is none or more than one. */
  function OnlyFlag(flags: seq<bool>): (r: Option<nat>)
    ensures r.Some? ==> r.value < |flags| && flags[r.value]
    ensures r.Some? ==> forall j :: 0 <= j < |flags| && flags[j] ==> j == r.value
  {
    SetFlagsAre(flags);
    var m := SetFlags(flags);
    if |m| == 1 then
      assert forall i :: i in m ==> i == m[0];
      assert m[0] in m;
      Some(m[0])
    else None
  }

  lemma OnlyFlagIsUnique(flags: seq<bool>, i: nat)
    requires i < |flags| && flags[i]
    requires forall j :: 0 <= j < |flags| && flags[j] ==> j == i
    ensures OnlyFlag(flags) == Some(i)
  {
    var m := SetFlags(flags);
    SetFlagsAre(flags);
    assert i in m;
    if |m| > 1 {
      assert m[0] in m && m[1] in m;
      SetFlagsIncrease(flags, 0, 1);
    }
  }

  lemma NoFlagIsNone(flags: seq<bool>)
    requires forall j :: 0 <= j < |flags| ==> !flags[j]
    ensures OnlyFlag(flags) == None
  {
    NoSetFlags(flags);
  }

  lemma {:induction false} NoSetFlags(flags: seq<bool>)
    requires forall j :: 0 <= j < |flags| ==> !flags[j]
    ensures SetFlags(flags) == []
  {
    if flags != [] {
      NoSetFlags(flags[..|flags| - 1]);
    }
  }

  /** The index of the one item with this name. */
  function Select(items: seq<Value>, name: string): (r: Option<nat>)
    ensures r.Some? ==> r.value < |items| && NameIs(items[r.value], name)
    ensures r.Some? ==> forall j :: 0 <= j < |items| && NameIs(items[j], name) ==> j == r.value
  {
    OnlyFlag(Named(items, name))
  }

  lemma SelectIsUniqueMatch(items: seq<Value>, name: string, i: nat)
    requires i < |items| && NameIs(items[i], name)
    requires forall j :: 0 <= j < |items| && NameIs(items[j], name) ==> j == i
    ensures Select(items, name) == Some(i)
  {
    OnlyFlagIsUnique(Named(items, name), i);
  }

  lemma SelectFindsNone(items: seq<Value>, name: string)
    requires forall j :: 0 <= j < |items| ==> !NameIs(items[j], name)
    ensures Select(items, name) == None
  {
    NoFlagIsNone(Named(items, name));
  }

  /** Selection depends only on which items carry the name. */
  lemma SelectCongruence(xs: seq<Value>, ys: seq<Value>, name: string)
    requires |xs| == |ys|
    requires forall j :: 0 <= j < |xs| ==> (NameIs(xs[j], name) <==> NameIs(ys[j], name))
    ensures Select(xs, name) == Select(ys, name)
  {
    assert Named(xs, name) == Named(ys, name);
  }

  // ----- Reading -----

  /** One segment of `object_value_at`. */
  function Descend(v: Value, g: Segment): Option<Value> {
    if !v.Obj? || Text(g.key) !in v.fields then None
    else
      var child := v.fields[Text(g.key)];
      if g.selected.None? then Some(child)
      else if !child.List? then None
      else
        var i := Select(child.items, g.selected.value);
        if i.None? then None else Some(child.items[i.value])
  }

  /** `object_value_at`; `None` is a raised `ManifestSourcePatchError`. */
  function Get(v: Value, path: Path): Option<Value>
    decreases |path|
  {
    if path == [] then Some(v)
    else
      var next := Descend(v, path[0]);
      if next.None? then None else Get(next.value, path[1..])
  }

  /** Collects the matching items and insists on exactly one. */
  method SelectByName(items: seq<Value>, name: string) returns (r: Option<nat>)
    ensures r == Select(items, name)
  {
    var matches: seq<nat> := [];
    ghost var flags := Named(items, name);
    for j := 0 to |items|
      invariant matches == SetFlags(flags[..j])
    {
      assert flags[..j + 1][..j] == flags[..j];
      if NameIs(items[j], name) {
        matches := matches + [j];
      }
    }
    assert flags[..|items|] == flags;
    return if |matches| == 1 then Some(matches[0]) else None;
  }

  method ObjectValueAt(root: Value, path: Path) returns (r: Option<Value>)
    ensures r == Get(root, path)
  {
    var current := root;
    assert path[0..] == path;
    for i := 0 to |path|
      invariant Get(root, path) == Get(current, path[i..])
    {
      assert path[i..][0] == path[i] && path[i..][1..] == path[i + 1..];
      if !current.Obj? || Text(path[i].key) !in current.fields {
        return None;
      }
      var child := current.fields[Text(path[i].key)];
      if path[i].selected.Some? {
        if !child.List? {
          return None;
        }
        var index := SelectByName(child.items, path[i].selected.value);
        if index.None? {
          return None;
        }
        current := child.items[index.value];
      } else {
        current := child;
      }
    }
    return Some(current);
  }

  // ----- Resolving a path to a position -----

  function Under(before: Pos, rest: Option<Pos>): Option<Pos> {
    if rest.None? then None else Some(before + rest.value)
  }

  function Locate(v: Value, path: Path): Option<Pos>
    decreases |path|
  {
    if path == [] then Some([])
    else if !v.Obj? || Text(path[0].key) !in v.fields then None
    else
      var step := Field(Text(path[0].key));
      var child := v.fields[step.key];
      if path[0].selected.None? then Under([step], Locate(child, path[1..]))
      else if !child.List? then None
      else
        var i := Select(child.items, path[0].selected.value);
        if i.None? then None
        else Under([step, Item(i.value)], Locate(child.items[i.value], path[1..]))
  }

  lemma {:induction false} AtAppend(v: Value, a: Pos, b: Pos)
    ensures At(v, a + b) == if At(v, a).None? then None else At(At(v, a).value, b)
    decreases |a|
  {
    if a == [] {
      assert a + b == b;
    } else {
      assert (a + b)[0] == a[0] && (a + b)[1..] == a[1..] + b;
      match a[0]
      case Field(k) => if v.Obj? && k in v.fields { AtAppend(v.fields[k], a[1..], b); }
      case Item(i) => if v.List? && i < |v.items| { AtAppend(v.items[i], a[1..], b); }
    }
  }

  /** Reading a path is reading the position it resolves to. */
  lemma {:induction false} GetIsAtLocate(v: Value, path: Path)
    ensures Get(v, path) == if Locate(v, path).None? then None else At(v, Locate(v, path).value)
    ensures Get(v, path).None? <==> Locate(v, path).None?
    decreases |path|
  {
    if path != [] && Descend(v, path[0]).Some? {
      var next := Descend(v, path[0]).value;
      GetIsAtLocate(next, path[1..]);
      if Locate(v, path).Some? {
        var rest := Locate(next, path[1..]).value;
        var before := Locate(v, path).value[..|Locate(v, path).value| - |rest|];
        assert Locate(v, path).value == before + rest;
        if path[0].selected.None? {
          assert before == [Field(Text(path[0].key))];
          assert before[1..] == [];
        } else {
          assert before == [Field(Text(path[0].key)), before[1]];
          assert before[1..] == [before[1]] && before[1..][1..] == [];
          assert At(v.fields[Text(path[0].key)], before[1..]) == Some(next);
        }
        assert At(v, before) == Some(next);
        AtAppend(v, before, rest);
      }
    }
  }

  /** Two different paths never resolve to the same position. */
  lemma {:induction false} LocateIsInjective(v: Value, p: Path, q: Path)
    requires Locate(v, p).Some? && Locate(v, p) == Locate(v, q)
    ensures p == q
    decreases |p|
  {
    var pos := Locate(v, p).value;
    if p != [] && q != [] {
      assert pos[0] == Field(Text(p[0].key)) == Field(Text(q[0].key));
      var child := v.fields[pos[0].key];
      if p[0].selected.Some? {
        assert pos[1].Item?;
        LocateStepIsField(child, q[1..]);
        assert q[0].selected.Some?;
        var next := child.items[pos[1].index];
        assert Locate(next, p[1..]).value == pos[2..] == Locate(next, q[1..]).value;
        LocateIsInjective(next, p[1..], q[1..]);
      } else {
        LocateStepIsField(child, p[1..]);
        assert q[0].selected.None?;
        assert Locate(child, p[1..]).value == pos[1..] == Locate(child, q[1..]).value;
        LocateIsInjective(child, p[1..], q[1..]);
      }
      assert p == [p[0]] + p[1..] && q == [q[0]] + q[1..];
    }
  }

  lemma LocateStepIsField(v: Value, path: Path)
    ensures Locate(v, path).Some? && Locate(v, path).value != [] ==> Locate(v, path).value[0].Field?
  {
  }

  /** Resolving a longer path continues from where its beginning leads. */
  lemma {:induction false} LocateAppend(v: Value, p: Path, q: Path)
    ensures Get(v, p + q) == if Get(v, p).None? then None else Get(Get(v, p).value, q)
    ensures Locate(v, p + q) ==
            if Get(v, p).None? || Locate(v, p).None? then None
            else Under(Locate(v, p).value, Locate(Get(v, p).value, q))
    decreases |p|
  {
    if p == [] {
      assert p + q == q;
      assert Locate(v, q).Some? ==> [] + Locate(v, q).value == Locate(v, q).value;
    } else {
      assert (p + q)[0] == p[0] && (p + q)[1..] == p[1..] + q;
      if Descend(v, p[0]).Some? {
        var next := Descend(v, p[0]).value;
        LocateAppend(next, p[1..], q);
        GetIsAtLocate(next, p[1..]);
        if Locate(v, p + q).Some? {
          var head := if p[0].selected.None? then [Field(Text(p[0].key))]
                      else [Field(Text(p[0].key)), Item(Select(v.fields[Text(p[0].key)].items, p[0].selected.value).value)];
          var mid, tail := Locate(next, p[1..]).value, Locate(Get(v, p).value, q).value;
          assert head + (mid + tail) == head + mid + tail;
        }
      }
    }
  }

  /** The steps that the last segment contributes to a position. */
  lemma LocateSnoc(v: Value, path: Path) returns (before: Pos)
    requires path != [] && Locate(v, path).Some?
    ensures var last := path[|path| - 1]; var pos := Locate(v, path).value;
      && Locate(v, path[..|path| - 1]) == Some(before)
      && (last.selected.None? ==> pos == before + [Field(Text(last.key))])
      && (last.selected.Some? ==> |pos| == |before| + 2 && pos[..|before| + 1] == before + [Field(Text(last.key))] && pos[|pos| - 1].Item?)
      && Get(v, path).Some?
      && (last.selected.Some? ==> !Get(v, path).value.Leaf?)
  {
    var init, last := path[..|path| - 1], path[|path| - 1];
    assert path == init + [last];
    LocateAppend(v, init, [last]);
    GetIsAtLocate(v, init);
    GetIsAtLocate(v, path);
    before := Locate(v, init).value;
    var parent := Get(v, init).value;
    assert [last][1..] == [];
    assert Get(parent, [last]) == Descend(parent, last);
  }

  // ----- Writing -----

  /** `set_object_value`; `None` is a raised error. */
  function Set(v: Value, path: Path, x: Scalar): Option<Value>
    decreases |path|
  {
    if path == [] || !v.Obj? then None
    else if |path| == 1 then
      if path[0].selected.Some? then None
      else Some(Obj(v.fields[Text(path[0].key) := Leaf(x)]))
    else
      var next := Descend(v, path[0]);
      if next.None? then None
      else
        var written := Set(next.value, path[1..], x);
        if written.None? then None
        else
          var k := Text(path[0].key);
          if path[0].selected.None? then Some(Obj(v.fields[k := written.value]))
          else
            var i := Select(v.fields[k].items, path[0].selected.value).value;
            Some(Obj(v.fields[k := List(v.fields[k].items[i := written.value])]))
  }

  /** Replaces, all at once, every leaf of `v` whose position (below `at`) is a key of `m`. */
  function Overlay(v: Value, at: Pos, m: map<Pos, Scalar>): Value
    decreases v
  {
    match v
    case Leaf(_) => if at in m then Leaf(m[at]) else v
    case Opaque(_) => v
    case List(items) =>
      List(seq(|items|, i requires 0 <= i < |items| => Overlay(items[i], at + [Item(i)], m)))
    case Obj(fields) =>
      Obj(map k | k in fields :: Overlay(fields[k], at + [Field(k)], m))
  }

  /** An overlay keeps every position, and what stands there is the overlay of what stood there. */
  lemma {:induction false} AtOverlay(v: Value, at: Pos, m: map<Pos, Scalar>, pos: Pos)
    ensures At(Overlay(v, at, m), pos) ==
            if At(v, pos).None? then None else Some(Overlay(At(v, pos).value, at + pos, m))
    decreases |pos|
  {
    if pos == [] {
      assert at + pos == at;
    } else {
      assert at + [pos[0]] + pos[1..] == at + pos;
      match pos[0]
      case Field(k) => if v.Obj? && k in v.fields { AtOverlay(v.fields[k], at + [pos[0]], m, pos[1..]); }
      case Item(i) => if v.List? && i < |v.items| { AtOverlay(v.items[i], at + [pos[0]], m, pos[1..]); }
    }
  }

  /** Two overlays in a row are one overlay; the later one wins. */
  lemma {:induction false} OverlayOverlay(v: Value, at: Pos, m: map<Pos, Scalar>, n: map<Pos, Scalar>)
    ensures Overlay(Overlay(v, at, m), at, n) == Overlay(v, at, m + n)
    decreases v
  {
    match v
    case Leaf(_) =>
    case Opaque(_) =>
    case List(items) =>
      forall i | 0 <= i < |items| {
        OverlayOverlay(items[i], at + [Item(i)], m, n);
      }
    case Obj(fields) =>
      forall k | k in fields {
        OverlayOverlay(fields[k], at + [Field(k)], m, n);
      }
  }

  /** An overlay that writes back what is already there changes nothing. */
  lemma {:induction false} OverlaySame(v: Value, at: Pos, m: map<Pos, Scalar>)
    requires forall pos :: LeafAt(v, pos) && at + pos in m ==> At(v, pos).value == Leaf(m[at + pos])
    ensures Overlay(v, at, m) == v
    decreases v
  {
    match v
    case Leaf(_) =>
      assert LeafAt(v, []) && at + [] == at;
    case Opaque(_) =>
    case List(items) =>
      forall i | 0 <= i < |items|
        ensures Overlay(items[i], at + [Item(i)], m) == items[i]
      {
        forall pos | LeafAt(items[i], pos) && at + [Item(i)] + pos in m
          ensures At(items[i], pos).value == Leaf(m[at + [Item(i)] + pos])
        {
          assert ([Item(i)] + pos)[1..] == pos && At(v, [Item(i)] + pos) == At(items[i], pos);
          assert LeafAt(v, [Item(i)] + pos);
          assert at + ([Item(i)] + pos) == at + [Item(i)] + pos;
        }
        OverlaySame(items[i], at + [Item(i)], m);
      }
    case Obj(fields) =>
      forall k | k in fields
        ensures Overlay(fields[k], at + [Field(k)], m) == fields[k]
      {
        forall pos | LeafAt(fields[k], pos) && at + [Field(k)] + pos in m
          ensures At(fields[k], pos).value == Leaf(m[at + [Field(k)] + pos])
        {
          assert ([Field(k)] + pos)[1..] == pos && At(v, [Field(k)] + pos) == At(fields[k], pos);
          assert LeafAt(v, [Field(k)] + pos);
          assert at + ([Field(k)] + pos) == at + [Field(k)] + pos;
        }
        OverlaySame(fields[k], at + [Field(k)], m);
      }
  }

  /** Overwriting every changed leaf with its original value restores the original. */
  lemma OverlayRestores(v: Value, m: map<Pos, Scalar>, n: map<Pos, Scalar>)
    requires m.Keys <= n.Keys
    requires forall pos :: pos in n && LeafAt(v, pos) ==> At(v, pos).value == Leaf(n[pos])
    ensures Overlay(Overlay(v, [], m), [], n) == v
  {
    OverlayOverlay(v, [], m, n);
    forall pos | LeafAt(v, pos) && [] + pos in m + n
      ensures At(v, pos).value == Leaf((m + n)[[] + pos])
    {
      assert [] + pos == pos;
    }
    OverlaySame(v, [], m + n);
  }

  /** A subtree none of whose positions is written stays as it is. */
  lemma OverlayElsewhere(v: Value, at: Pos, m: map<Pos, Scalar>)
    requires forall p :: p in m ==> !(at <= p)
    ensures Overlay(v, at, m) == v
  {
    assert forall pos: Pos :: at <= at + pos;
    OverlaySame(v, at, m);
  }

  /** Writing a scalar over a scalar is the one-point overlay at its position. */
  lemma {:induction false} SetIsOverlay(v: Value, at: Pos, path: Path, x: Scalar)
    requires path != [] && Get(v, path).Some? && Get(v, path).value.Leaf?
    ensures Locate(v, path).Some?
    ensures Set(v, path, x) == Some(Overlay(v, at, map[at + Locate(v, path).value := x]))
    decreases |path|
  {
    GetIsAtLocate(v, path);
    var step := Field(Text(path[0].key));
    var pos := Locate(v, path).value;
    var m := map[at + pos := x];
    var child := v.fields[step.key];
    forall k | k in v.fields && k != step.key
      ensures Overlay(v.fields[k], at + [Field(k)], m) == v.fields[k]
    {
      assert (at + pos)[|at|] == step;
      OverlayElsewhere(v.fields[k], at + [Field(k)], m);
    }
    if path[0].selected.None? {
      assert at + [step] + pos[1..] == at + pos;
      if |path| > 1 {
        assert Locate(child, path[1..]).value == pos[1..];
        SetIsOverlay(child, at + [step], path[1..], x);
      } else {
        assert path[1..] == [];
        assert pos == [step];
      }
    } else {
      var i := Select(child.items, path[0].selected.value).value;
      if |path| == 1 {
        assert false;
      }
      assert pos[..2] == [step, Item(i)];
      assert at + [step] + [Item(i)] + pos[2..] == at + pos;
      assert Locate(child.items[i], path[1..]).value == pos[2..];
      SetIsOverlay(child.items[i], at + [step] + [Item(i)], path[1..], x);
      forall j | 0 <= j < |child.items| && j != i
        ensures Overlay(child.items[j], at + [step] + [Item(j)], m) == child.items[j]
      {
        assert (at + pos)[|at| + 1] == Item(i);
        OverlayElsewhere(child.items[j], at + [step] + [Item(j)], m);
      }
      assert Overlay(child, at + [step], m).items ==
             child.items[i := Overlay(child.items[i], at + [step] + [Item(i)], m)];
    }
    var written := Set(v, path, x).value;
    assert written.fields == v.fields[step.key := Overlay(child, at + [step], m)];
    assert written.fields == Overlay(v, at, m).fields;
  }

  // ----- The side condition on names -----

  /** The position is not the `name` of a list item. */
  predicate SafePos(pos: Pos) {
    !(|pos| >= 2 && pos[|pos| - 2].Item? && pos[|pos| - 1] == Field(NAME))
  }

  /** The path does not write the `name` key directly inside an item chosen by `[name=...]`. */
  predicate NameSafe(path: Path) {
    !(|path| >= 2 && path[|path| - 2].selected.Some? && path[|path| - 1].key == "name")
  }

  lemma NameSafeIsSafePos(v: Value, path: Path)
    requires path != [] && Get(v, path).Some? && Get(v, path).value.Leaf?
    ensures Locate(v, path).Some?
    ensures NameSafe(path) <==> SafePos(Locate(v, path).value)
  {
    GetIsAtLocate(v, path);
    var n := |path|;
    var last := LocateSnoc(v, path);
    assert path[n - 1].selected.None?;
    if n >= 2 {
      var before := LocateSnoc(v, path[..n - 1]);
    }
  }

  /** An overlay that renames no list item leaves the resolution of every path alone. */
  lemma {:induction false} LocateOverlay(v: Value, at: Pos, m: map<Pos, Scalar>, path: Path)
    requires forall p :: p in m ==> SafePos(p)
    ensures Locate(Overlay(v, at, m), path) == Locate(v, path)
    decreases |path|
  {
    if path != [] && v.Obj? && Text(path[0].key) in v.fields {
      var step := Field(Text(path[0].key));
      var child := v.fields[step.key];
      if path[0].selected.None? {
        LocateOverlay(child, at + [step], m, path[1..]);
      } else if child.List? {
        var name := path[0].selected.value;
        forall j | 0 <= j < |child.items|
          ensures NameIs(Overlay(child.items[j], at + [step] + [Item(j)], m), name) <==> NameIs(child.items[j], name)
        {
          NameIsOverlay(child.items[j], at + [step] + [Item(j)], m, name);
        }
        SelectCongruence(Overlay(child, at + [step], m).items, child.items, name);
        var i := Select(child.items, name);
        if i.Some? {
          LocateOverlay(child.items[i.value], at + [step] + [Item(i.value)], m, path[1..]);
        }
      }
    }
  }

  lemma NameIsOverlay(item: Value, at: Pos, m: map<Pos, Scalar>, name: string)
    requires forall p :: p in m ==> SafePos(p)
    requires at != [] && at[|at| - 1].Item?
    ensures NameIs(Overlay(item, at, m), name) <==> NameIs(item, name)
  {
    assert !SafePos(at + [Field(NAME)]);
  }

  // ----- Writing several scalars -----

  datatype Write = Write(path: Path, value: Scalar)

  /** One `set_object_value` after another. */
  function ApplyAll(v: Value, writes: seq<Write>): Option<Value>
    decreases |writes|
  {
    if writes == [] then Some(v)
    else
      var w := Set(v, writes[0].path, writes[0].value);
      if w.None? then None else ApplyAll(w.value, writes[1..])
  }

  lemma ApplyFrom(v: Value, writes: seq<Write>, i: nat)
    requires i < |writes|
    ensures ApplyAll(v, writes[i..]) ==
            var w := Set(v, writes[i].path, writes[i].value);
            if w.None? then None else ApplyAll(w.value, writes[i + 1..])
  {
    assert writes[i..][0] == writes[i] && writes[i..][1..] == writes[i + 1..];
  }

  /**
   * The write renames the list item it selects, and the path selects in the same
   * list, by the name that the item loses or by the name that it takes.
   */
  predicate Disturbs(w: Write, path: Path) {
    !NameSafe(w.path) &&
    var n := |w.path| - 2;
    && n < |path| && path[..n] == w.path[..n]
    && path[n].key == w.path[n].key && path[n].selected.Some?
    && (path[n].selected == w.path[n].selected || w.value == Str(path[n].selected.value))
  }

  lemma DisturbsTail(w: Write, path: Path)
    requires |w.path| > 2 && path != [] && path[0] == w.path[0]
    ensures Disturbs(Write(w.path[1..], w.value), path[1..]) <==> Disturbs(w, path)
  {
    var n := |w.path| - 2;
    if n < |path| {
      assert path[..n] == [path[0]] + path[1..][..n - 1];
      assert w.path[..n] == [w.path[0]] + w.path[1..][..n - 1];
    }
  }

  lemma DeepSetKeepsName(item: Value, path: Path, x: Scalar, name: string)
    requires |path| >= 2 && Set(item, path, x).Some? && NameIs(item, name)
    ensures NameIs(Set(item, path, x).value, name)
  {
    if path[0].key == "name" {
      assert false;
    }
  }

  /** A write below a selected item leaves the selection by a name that it does not disturb. */
  lemma SelectAfterWrite(items: seq<Value>, i: nat, w: Write, path: Path)
    requires |w.path| >= 2 && w.path[0].selected.Some? && Select(items, w.path[0].selected.value) == Some(i)
    requires path != [] && path[0].key == w.path[0].key && path[0].selected.Some? && !Disturbs(w, path)
    requires Get(items[i], w.path[1..]).Some? && Get(items[i], w.path[1..]).value.Leaf?
    requires Set(items[i], w.path[1..], w.value).Some?
    ensures Select(items[i := Set(items[i], w.path[1..], w.value).value], path[0].selected.value) ==
            Select(items, path[0].selected.value)
  {
    var name, written := path[0].selected.value, Set(items[i], w.path[1..], w.value).value;
    if |w.path| > 2 {
      DeepSetKeepsName(items[i], w.path[1..], w.value, w.path[0].selected.value);
    }
    assert path[..0] == w.path[..0];
    SelectCongruence(items[i := written], items, name);
  }

  /** A write over a scalar leaves the position of every path that it does not disturb. */
  lemma {:induction false} UndisturbedLocate(v: Value, w: Write, path: Path)
    requires w.path != [] && Get(v, w.path).Some? && Get(v, w.path).value.Leaf? && !Disturbs(w, path)
    ensures Set(v, w.path, w.value).Some?
    ensures Locate(Set(v, w.path, w.value).value, path) == Locate(v, path)
    decreases |w.path|
  {
    SetIsOverlay(v, [], w.path, w.value);
    if path != [] && path[0].key == w.path[0].key && |w.path| > 1 {
      var child := v.fields[Text(path[0].key)];
      var rest := Write(w.path[1..], w.value);
      if w.path[0].selected.None? {
        if path[0].selected.None? {
          if |w.path| > 2 {
            DisturbsTail(w, path);
          }
          UndisturbedLocate(child, rest, path[1..]);
        }
      } else if path[0].selected.Some? {
        var i := Select(child.items, w.path[0].selected.value).value;
        SetIsOverlay(child.items[i], [], rest.path, w.value);
        SelectAfterWrite(child.items, i, w, path);
        if Select(child.items, path[0].selected.value) == Some(i) {
          assert path[0] == w.path[0];
          if |w.path| > 2 {
            DisturbsTail(w, path);
          }
          UndisturbedLocate(child.items[i], rest, path[1..]);
        }
      }
    }
  }

  /** A rename makes every path that it disturbs unreadable and unwritable. */
  lemma {:induction false} DisturbedIsLost(v: Value, w: Write, path: Path, x: Scalar)
    requires Disturbs(w, path) && w.value != Str(w.path[|w.path| - 2].selected.value)
    requires Set(v, w.path, w.value).Some? && Get(v, path).Some?
    ensures Get(Set(v, w.path, w.value).value, path) == None
    ensures Set(Set(v, w.path, w.value).value, path, x) == None
    decreases |w.path|
  {
    if |w.path| == 2 {
      RenamedIsLost(v, w, path, x);
    } else {
      assert path[0] == path[..|w.path| - 2][0] == w.path[..|w.path| - 2][0];
      var next := Descend(v, path[0]).value;
      DisturbsTail(w, path);
      DisturbedIsLost(next, Write(w.path[1..], w.value), path[1..], x);
      DeepSetDescends(v, w);
    }
  }

  /** The case of a rename in a list at the top. */
  lemma RenamedIsLost(v: Value, w: Write, path: Path, x: Scalar)
    requires |w.path| == 2 && Disturbs(w, path) && w.value != Str(w.path[0].selected.value)
    requires Set(v, w.path, w.value).Some? && Get(v, path).Some?
    ensures Get(Set(v, w.path, w.value).value, path) == None
    ensures Set(Set(v, w.path, w.value).value, path, x) == None
  {
    var items, lost := v.fields[Text(path[0].key)].items, w.path[0].selected.value;
    var i := Select(items, lost).value;
    var renamed := Set(items[i], w.path[1..], w.value).value;
    assert w.path[1..][0] == w.path[1];
    RenamedSelectsNone(items, i, lost, renamed, path[0].selected.value);
    assert Descend(Set(v, w.path, w.value).value, path[0]) == None;
  }

  /** A deep write descends to the written child. */
  lemma DeepSetDescends(v: Value, w: Write)
    requires |w.path| > 2 && Set(v, w.path, w.value).Some?
    ensures Descend(v, w.path[0]).Some? && Set(Descend(v, w.path[0]).value, w.path[1..], w.value).Some?
    ensures Descend(Set(v, w.path, w.value).value, w.path[0]) == Set(Descend(v, w.path[0]).value, w.path[1..], w.value)
  {
    if w.path[0].selected.Some? {
      var items, name := v.fields[Text(w.path[0].key)].items, w.path[0].selected.value;
      var i := Select(items, name).value;
      DeepSetKeepsName(items[i], w.path[1..], w.value, name);
      SelectIsUniqueMatch(items[i := Set(items[i], w.path[1..], w.value).value], name, i);
    }
  }

  /** After the item chosen by `lost` loses that name, `lost` chooses nothing, nor does the name it takes from another item. */
  lemma RenamedSelectsNone(items: seq<Value>, i: nat, lost: string, renamed: Value, name: string)
    requires Select(items, lost) == Some(i) && Select(items, name).Some?
    requires !NameIs(renamed, lost) && (name == lost || NameIs(renamed, name))
    ensures Select(items[i := renamed], name) == None
  {
    var items' := items[i := renamed];
    if name == lost {
      SelectFindsNone(items', name);
    } else {
      var j := Select(items, name).value;
      assert NameIs(items'[i], name) && NameIs(items'[j], name) && i != j;
    }
  }

  /** No write disturbs the path of a later one. */
  predicate Undisturbed(writes: seq<Write>) {
    forall i, j :: 0 <= i < j < |writes| ==> !Disturbs(writes[i], writes[j].path)
  }

  /** Every write goes over an existing scalar, and none disturbs the path of a later one. */
  predicate Applicable(v: Value, writes: seq<Write>) {
    && (forall i :: 0 <= i < |writes| ==>
          writes[i].path != [] && Get(v, writes[i].path).Some? && Get(v, writes[i].path).value.Leaf?)
    && Undisturbed(writes)
  }

  /** The positions written, with the value that ends up there. */
  function Effect(v: Value, writes: seq<Write>): map<Pos, Scalar>
    requires forall i :: 0 <= i < |writes| ==> Locate(v, writes[i].path).Some?
  {
    if writes == [] then map[]
    else map[Locate(v, writes[0].path).value := writes[0].value] + Effect(v, writes[1..])
  }

  lemma ApplicableLocates(v: Value, writes: seq<Write>)
    requires Applicable(v, writes)
    ensures forall i :: 0 <= i < |writes| ==>
      && Locate(v, writes[i].path).Some?
      && LeafAt(v, Locate(v, writes[i].path).value)
  {
    forall i | 0 <= i < |writes|
      ensures && Locate(v, writes[i].path).Some?
              && LeafAt(v, Locate(v, writes[i].path).value)
    {
      GetIsAtLocate(v, writes[i].path);
    }
  }

  /** A safe overlay changes which scalar a path reads, never whether it reads one. */
  lemma GetOverlay(v: Value, m: map<Pos, Scalar>, path: Path)
    requires forall p :: p in m ==> SafePos(p)
    ensures Locate(Overlay(v, [], m), path) == Locate(v, path)
    ensures Get(v, path).Some? <==> Locate(v, path).Some?
    ensures Get(Overlay(v, [], m), path) ==
            if Get(v, path).None? then None
            else Some(Overlay(Get(v, path).value, Locate(v, path).value, m))
  {
    LocateOverlay(v, [], m, path);
    GetAtSamePlace(v, m, path);
  }

  /** A path that keeps its position reads what was there, with the replaced leaves in it. */
  lemma GetAtSamePlace(v: Value, m: map<Pos, Scalar>, path: Path)
    requires Locate(Overlay(v, [], m), path) == Locate(v, path)
    ensures Get(v, path).Some? <==> Locate(v, path).Some?
    ensures Get(Overlay(v, [], m), path) ==
            if Get(v, path).None? then None
            else Some(Overlay(Get(v, path).value, Locate(v, path).value, m))
  {
    GetIsAtLocate(v, path);
    GetIsAtLocate(Overlay(v, [], m), path);
    if Locate(v, path).Some? {
      var pos := Locate(v, path).value;
      AtOverlay(v, [], m, pos);
      assert [] + pos == pos;
    }
  }

  /** Writing one after another is substituting all at once. */
  lemma {:induction false} ApplyAllIsOverlay(v: Value, writes: seq<Write>)
    requires Applicable(v, writes)
    ensures forall i :: 0 <= i < |writes| ==> Locate(v, writes[i].path).Some?
    ensures ApplyAll(v, writes) == Some(Overlay(v, [], Effect(v, writes)))
    decreases |writes|
  {
    ApplicableLocates(v, writes);
    if writes == [] {
      OverlaySame(v, [], map[]);
    } else {
      var rest := writes[1..];
      var first := map[Locate(v, writes[0].path).value := writes[0].value];
      SetIsOverlay(v, [], writes[0].path, writes[0].value);
      assert [] + Locate(v, writes[0].path).value == Locate(v, writes[0].path).value;
      var v1 := Overlay(v, [], first);
      forall i | 0 <= i < |rest|
        ensures Locate(v1, rest[i].path) == Locate(v, rest[i].path)
        ensures Get(v1, rest[i].path).Some? && Get(v1, rest[i].path).value.Leaf?
      {
        assert rest[i] == writes[i + 1];
        UndisturbedLocate(v, writes[0], rest[i].path);
        GetAtSamePlace(v, first, rest[i].path);
      }
      ApplyAllIsOverlay(v1, rest);
      EffectCongruence(v, v1, rest);
      OverlayOverlay(v, [], first, Effect(v, rest));
    }
  }

  lemma {:induction false} EffectCongruence(v: Value, w: Value, writes: seq<Write>)
    requires forall i :: 0 <= i < |writes| ==> Locate(v, writes[i].path).Some?
    requires forall i :: 0 <= i < |writes| ==> Locate(w, writes[i].path) == Locate(v, writes[i].path)
    ensures Effect(v, writes) == Effect(w, writes)
  {
    if writes != [] {
      assert Locate(w, writes[0].path) == Locate(v, writes[0].path);
      forall i | 0 <= i < |writes[1..]|
        ensures Locate(w, writes[1..][i].path) == Locate(v, writes[1..][i].path)
      {
        assert writes[1..][i] == writes[i + 1];
      }
      EffectCongruence(v, w, writes[1..]);
    }
  }

  predicate DistinctPaths(writes: seq<Write>) {
    forall i, j :: 0 <= i < j < |writes| ==> writes[i].path != writes[j].path
  }

  /** With distinct paths the effect is the unordered set of (position, value) pairs. */
  lemma {:induction false} EffectIsSetOfWrites(v: Value, writes: seq<Write>)
    requires DistinctPaths(writes)
    requires forall i :: 0 <= i < |writes| ==> Locate(v, writes[i].path).Some?
    ensures forall i :: 0 <= i < |writes| ==>
      var pos := Locate(v, writes[i].path).value;
      pos in Effect(v, writes) && Effect(v, writes)[pos] == writes[i].value
    ensures forall pos :: pos in Effect(v, writes) ==>
      exists i :: 0 <= i < |writes| && Locate(v, writes[i].path) == Some(pos)
  {
    if writes != [] {
      var rest := writes[1..];
      EffectIsSetOfWrites(v, rest);
      var m := Effect(v, writes);
      forall i | 0 <= i < |writes|
        ensures var pos := Locate(v, writes[i].path).value; pos in m && m[pos] == writes[i].value
      {
        if i > 0 {
          assert rest[i - 1] == writes[i];
        } else if Locate(v, writes[0].path).value in Effect(v, rest) {
          var j :| 0 <= j < |rest| && Locate(v, rest[j].path) == Locate(v, writes[0].path);
          assert rest[j] == writes[j + 1];
          LocateIsInjective(v, rest[j].path, writes[0].path);
          assert false;
        }
      }
      forall pos | pos in m
        ensures exists i :: 0 <= i < |writes| && Locate(v, writes[i].path) == Some(pos)
      {
        if pos in Effect(v, rest) {
          var j :| 0 <= j < |rest| && Locate(v, rest[j].path) == Some(pos);
          assert rest[j] == writes[j + 1];
        } else {
          assert Locate(v, writes[0].path) == Some(pos);
        }
      }
    }
  }

  lemma PermutedMembers<T>(xs: seq<T>, ys: seq<T>)
    requires multiset(xs) == multiset(ys)
    ensures |xs| == |ys|
    ensures forall x :: x in xs <==> x in ys
  {
    assert |multiset(xs)| == |xs| && |multiset(ys)| == |ys|;
    forall x
      ensures x in xs <==> x in ys
    {
      assert x in multiset(xs) <==> x in multiset(ys);
    }
  }

  lemma EffectIncluded(v: Value, xs: seq<Write>, ys: seq<Write>)
    requires forall i :: 0 <= i < |xs| ==> Locate(v, xs[i].path).Some?
    requires forall i :: 0 <= i < |ys| ==> Locate(v, ys[i].path).Some?
    requires DistinctPaths(xs) && DistinctPaths(ys)
    requires forall w :: w in xs ==> w in ys
    ensures forall pos :: pos in Effect(v, xs) ==>
      pos in Effect(v, ys) && Effect(v, ys)[pos] == Effect(v, xs)[pos]
  {
    EffectIsSetOfWrites(v, xs);
    EffectIsSetOfWrites(v, ys);
    forall pos | pos in Effect(v, xs)
      ensures pos in Effect(v, ys) && Effect(v, ys)[pos] == Effect(v, xs)[pos]
    {
      var i :| 0 <= i < |xs| && Locate(v, xs[i].path) == Some(pos);
      assert xs[i] in ys;
      var j :| 0 <= j < |ys| && ys[j] == xs[i];
    }
  }

  /** The order of writes with distinct paths does not matter. */
  lemma {:induction false} WritesCommute(v: Value, xs: seq<Write>, ys: seq<Write>)
    requires Applicable(v, xs) && DistinctPaths(xs) && DistinctPaths(ys)
    requires multiset(xs) == multiset(ys) && Undisturbed(ys)
    ensures Applicable(v, ys)
    ensures forall i :: 0 <= i < |xs| ==> Locate(v, xs[i].path).Some?
    ensures forall i :: 0 <= i < |ys| ==> Locate(v, ys[i].path).Some?
    ensures Effect(v, xs) == Effect(v, ys)
    ensures ApplyAll(v, xs) == ApplyAll(v, ys)
  {
    PermutedMembers(xs, ys);
    ApplicableMembers(v, xs, ys);
    ApplyAllIsOverlay(v, xs);
    ApplyAllIsOverlay(v, ys);
    EffectIncluded(v, xs, ys);
    EffectIncluded(v, ys, xs);
  }

  lemma ApplicableMembers(v: Value, xs: seq<Write>, ys: seq<Write>)
    requires Applicable(v, xs) && Undisturbed(ys) && forall w :: w in ys ==> w in xs
    ensures Applicable(v, ys)
  {
    forall i | 0 <= i < |ys|
      ensures ys[i].path != [] && Get(v, ys[i].path).Some? && Get(v, ys[i].path).value.Leaf?
    {
      assert ys[i] in xs;
      var j :| 0 <= j < |xs| && xs[j] == ys[i];
    }
  }
}
