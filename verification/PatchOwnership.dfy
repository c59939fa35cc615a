/**
 * Whether a JSON Patch may change a protected field.
 *
 * The source decides by comparing the text of pointers with the text of the field
 * path. Patches are given the meaning of section 4 of RFC 6902, with pointers
 * evaluated under section 4 of RFC 6901. The textual test is shown to protect
 * exactly the paths that use no list selector (or that no document can satisfy).
 */
module PatchOwnership {
  import opened Wrappers
  import opened FieldPath
  import opened Manifest
  import RepositoryPath

  // ----- The textual test -----

  function DotsToSlashes(s: string): (r: string)
    ensures |r| == |s|
  {
    if s == "" then "" else [if s[0] == '.' then '/' else s[0]] + DotsToSlashes(s[1..])
  }

  /** `json_pointer_overlaps_field` */
  predicate Overlaps(pointer: string, field: string) {
    var protected := "/" + DotsToSlashes(field);
    pointer == protected || protected + "/" <= pointer || pointer + "/" <= protected
  }

  /** An entry of a patch list; absent members are `""` and null. */
  datatype Operation = NotMapping | Operation(op: string, path: string, from: string, value: Value)

  const MUTATING := {"add", "copy", "move", "remove", "replace"}

  predicate OperationOwns(item: Operation, field: string) {
    && item.Operation? && item.op in MUTATING
    && (Overlaps(item.path, field) || ((item.op == "copy" || item.op == "move") && Overlaps(item.from, field)))
  }

  /** `patch_content_owns_field` for a patch list. */
  predicate Owns(items: seq<Operation>, fields: seq<string>) {
    exists i, j :: 0 <= i < |items| && 0 <= j < |fields| && OperationOwns(items[i], fields[j])
  }

  method PatchOwnsField(items: seq<Operation>, fields: seq<string>) returns (owned: bool)
    ensures owned == Owns(items, fields)
  {
    for i := 0 to |items|
      invariant !Owns(items[..i], fields)
    {
      for j := 0 to |fields|
        invariant forall k :: 0 <= k < j ==> !OperationOwns(items[i], fields[k])
      {
        if OperationOwns(items[i], fields[j]) {
          return true;
        }
      }
    }
    assert items[..|items|] == items;
    return false;
  }

  // ----- JSON Pointer -----

  /** Decodes `~1` and `~0`; `None` for any other use of `~`. */
  function Unescape(s: string): Option<string> {
    if s == "" then Some("")
    else if s[0] != '~' then
      var rest := Unescape(s[1..]);
      if rest.None? then None else Some([s[0]] + rest.value)
    else if |s| >= 2 && (s[1] == '0' || s[1] == '1') then
      var rest := Unescape(s[2..]);
      if rest.None? then None else Some([if s[1] == '0' then '~' else '/'] + rest.value)
    else None
  }

  function UnescapeAll(parts: seq<string>): (r: Option<seq<string>>)
    ensures r.Some? ==> |r.value| == |parts|
    ensures r.Some? ==> forall i :: 0 <= i < |parts| ==> Unescape(parts[i]) == Some(r.value[i])
  {
    if parts == [] then Some([])
    else
      var head, rest := Unescape(parts[0]), UnescapeAll(parts[1..]);
      if head.None? || rest.None? then None else Some([head.value] + rest.value)
  }

  /** The reference tokens of a pointer; `None` when the text is not a pointer. */
  function Tokens(pointer: string): Option<seq<string>> {
    if pointer == "" then Some([])
    else if pointer[0] != '/' then None
    else UnescapeAll(RepositoryPath.Split(pointer)[1..])
  }

  // ----- Pointers and tokens -----

  /** Writes `~` as `~0` and `/` as `~1`. */
  function Escape(s: string): string {
    if s == "" then ""
    else (if s[0] == '~' then "~0" else if s[0] == '/' then "~1" else [s[0]]) + Escape(s[1..])
  }

  function EscapeAll(tokens: seq<string>): (r: seq<string>)
    ensures |r| == |tokens| && forall i :: 0 <= i < |tokens| ==> r[i] == Escape(tokens[i])
  {
    seq(|tokens|, i requires 0 <= i < |tokens| => Escape(tokens[i]))
  }

  /** The text of a pointer: every token escaped, after a slash. */
  function Pointer(tokens: seq<string>): string {
    if tokens == [] then "" else "/" + RepositoryPath.Join(EscapeAll(tokens))
  }

  lemma {:induction false} UnescapeIff(raw: string, token: string)
    requires '/' !in raw
    ensures Unescape(raw) == Some(token) <==> raw == Escape(token)
  {
    if token == "" || raw == "" {
    } else if raw[0] != '~' {
      UnescapeIff(raw[1..], token[1..]);
      assert raw == [raw[0]] + raw[1..] && token == [token[0]] + token[1..] && raw[0] in raw;
      if token[0] != '~' && token[0] != '/' {
        assert ([token[0]] + Escape(token[1..]))[1..] == Escape(token[1..]);
      } else {
        assert Escape(token)[0] == '~';
      }
    } else if |raw| >= 2 {
      UnescapeIff(raw[2..], token[1..]);
      assert raw == [raw[0]] + [raw[1]] + raw[2..] && token == [token[0]] + token[1..];
      if token[0] == '~' {
        assert Escape(token) == "~0" + Escape(token[1..]) && Escape(token)[2..] == Escape(token[1..]) && Escape(token)[1] == '0';
      } else if token[0] == '/' {
        assert Escape(token) == "~1" + Escape(token[1..]) && Escape(token)[2..] == Escape(token[1..]) && Escape(token)[1] == '1';
      } else {
        assert Escape(token)[0] == token[0];
      }
    } else {
      assert token[0] == '~' || token[0] == '/' ==> |Escape(token)| >= 2;
    }
  }

  lemma {:induction false} EscapeHasNoSlash(s: string)
    ensures '/' !in Escape(s)
  {
    if s != "" {
      EscapeHasNoSlash(s[1..]);
    }
  }

  lemma FirstAndRest<T>(first: T, rest: seq<T>, all: seq<T>)
    ensures all == [first] + rest <==> all != [] && all[0] == first && all[1..] == rest
  {
    if all != [] {
      assert all == [all[0]] + all[1..];
    }
    assert ([first] + rest)[1..] == rest;
  }

  lemma {:induction false} UnescapeAllIff(raw: seq<string>, tokens: seq<string>)
    requires forall i :: 0 <= i < |raw| ==> '/' !in raw[i]
    ensures UnescapeAll(raw) == Some(tokens) <==> raw == EscapeAll(tokens)
  {
    if raw != [] && tokens != [] {
      UnescapeIff(raw[0], tokens[0]);
      UnescapeAllIff(raw[1..], tokens[1..]);
      FirstAndRest(Escape(tokens[0]), EscapeAll(tokens[1..]), raw);
      var head, rest := Unescape(raw[0]), UnescapeAll(raw[1..]);
      if head.Some? && rest.Some? {
        FirstAndRest(head.value, rest.value, tokens);
      }
    }
  }

  /** A text has these tokens exactly when it is their pointer. */
  lemma PointerRoundTrip(pointer: string, tokens: seq<string>)
    ensures Tokens(pointer) == Some(tokens) <==> pointer == Pointer(tokens)
  {
    if pointer != "" && pointer[0] == '/' {
      var raw := RepositoryPath.Split(pointer)[1..];
      RepositoryPath.SplitHasNoSlash(pointer);
      UnescapeAllIff(raw, tokens);
      RepositoryPath.JoinSplit(pointer);
      assert RepositoryPath.Split(pointer) == [""] + raw && raw != [];
      assert pointer == "/" + RepositoryPath.Join(raw);
      if pointer == Pointer(tokens) {
        PointerParts(tokens);
      }
    }
  }

  lemma PointerParts(tokens: seq<string>)
    requires tokens != []
    ensures RepositoryPath.Split(Pointer(tokens)) == [""] + EscapeAll(tokens)
  {
    var parts := EscapeAll(tokens);
    forall i | 0 <= i < |parts|
      ensures '/' !in parts[i]
    {
      EscapeHasNoSlash(tokens[i]);
    }
    RepositoryPath.SplitJoin(parts);
    RepositoryPath.SplitAppend("", RepositoryPath.Join(parts));
    assert "" + "/" + RepositoryPath.Join(parts) == Pointer(tokens);
  }

  /** The decimal text of a number. */
  function DecimalText(n: nat): string {
    if n < 10 then [('0' as int + n) as char] else DecimalText(n / 10) + [('0' as int + n % 10) as char]
  }

  lemma {:induction false} DecimalTextIsIndex(n: nat)
    ensures var s := DecimalText(n);
      && s != "" && (forall i :: 0 <= i < |s| ==> '0' <= s[i] <= '9') && (s[0] == '0' <==> n == 0) && (n == 0 ==> |s| == 1)
      && DecimalValue(s) == n
  {
    var s := DecimalText(n);
    if n >= 10 {
      DecimalTextIsIndex(n / 10);
      assert s[..|s| - 1] == DecimalText(n / 10) && s[0] == DecimalText(n / 10)[0];
    } else {
      assert s[..0] == "" && DecimalValue("") == 0;
    }
  }

  lemma DecimalTextOf(n: nat, digit: nat)
    requires digit < 10
    ensures DecimalText(10 * n + digit) == (if n == 0 then "" else DecimalText(n)) + [('0' as int + digit) as char]
  {
    assert (10 * n + digit) / 10 == n && (10 * n + digit) % 10 == digit;
  }

  lemma {:induction false} IndexIsDecimalText(s: string)
    requires s != "" && (forall i :: 0 <= i < |s| ==> '0' <= s[i] <= '9') && (s[0] == '0' ==> |s| == 1)
    ensures DecimalText(DecimalValue(s)) == s
    ensures s[0] != '0' ==> DecimalValue(s) > 0
  {
    var n := |s| - 1;
    var digit := s[n] as nat - '0' as nat;
    assert s == s[..n] + [s[n]] && DecimalValue("") == 0;
    if n > 0 {
      IndexIsDecimalText(s[..n]);
      DecimalTextOf(DecimalValue(s[..n]), digit);
    } else {
      assert s[..0] == "";
      DecimalTextOf(0, digit);
    }
  }

  /** A token is an index exactly when it is the decimal text of that number. */
  lemma ArrayIndexIff(token: string, n: nat)
    ensures ArrayIndex(token) == Some(n) <==> token == DecimalText(n)
  {
    DecimalTextIsIndex(n);
    if ArrayIndex(token) == Some(n) {
      IndexIsDecimalText(token);
    }
  }

  function DecimalValue(s: string): nat {
    if s == "" then 0 else 10 * DecimalValue(s[..|s| - 1]) + if '0' <= s[|s| - 1] <= '9' then s[|s| - 1] as nat - '0' as nat else 0
  }

  /** An array index without leading zeros; `None` for anything else. */
  function ArrayIndex(token: string): Option<nat> {
    if token == "" || (token[0] == '0' && |token| > 1) || exists i :: 0 <= i < |token| && !('0' <= token[i] <= '9') then None
    else Some(DecimalValue(token))
  }

  /** The child that a token selects in an object or array. */
  function Child(doc: Value, token: string): Option<Value> {
    if doc.Obj? && Text(token) in doc.fields then Some(doc.fields[Text(token)])
    else if doc.List? && ArrayIndex(token).Some? && ArrayIndex(token).value < |doc.items| then
      Some(doc.items[ArrayIndex(token).value])
    else None
  }

  function WithChild(doc: Value, token: string, child: Value): Value
    requires Child(doc, token).Some?
  {
    if doc.Obj? then Obj(doc.fields[Text(token) := child]) else List(doc.items[ArrayIndex(token).value := child])
  }

  function GetAt(doc: Value, tokens: seq<string>): Option<Value>
    decreases |tokens|
  {
    if tokens == [] then Some(doc)
    else
      var child := Child(doc, tokens[0]);
      if child.None? then None else GetAt(child.value, tokens[1..])
  }

  // ----- JSON Patch -----

  datatype Edit = Add(value: Value) | Remove | Replace(value: Value)

  /** The effect of an operation on the container that the last token selects in. */
  function EditHere(doc: Value, token: string, edit: Edit): Option<Value> {
    match edit
    case Replace(value) => if Child(doc, token).None? then None else Some(WithChild(doc, token, value))
    case Remove =>
      if Child(doc, token).None? then None
      else if doc.Obj? then Some(Obj(doc.fields - {Text(token)}))
      else
        var i := ArrayIndex(token).value;
        Some(List(doc.items[..i] + doc.items[i + 1..]))
    case Add(value) =>
      if doc.Obj? then Some(Obj(doc.fields[Text(token) := value]))
      else if !doc.List? then None
      else if token == "-" then Some(List(doc.items + [value]))
      else
        var i := ArrayIndex(token);
        if i.None? || i.value > |doc.items| then None
        else Some(List(doc.items[..i.value] + [value] + doc.items[i.value..]))
  }

  /** An operation at a location: every container on the way must exist. Removing the whole document is refused. */
  function EditAt(doc: Value, tokens: seq<string>, edit: Edit): Option<Value>
    decreases |tokens|
  {
    if tokens == [] then if edit.Remove? then None else Some(edit.value)
    else if |tokens| == 1 then EditHere(doc, tokens[0], edit)
    else
      var child := Child(doc, tokens[0]);
      if child.None? then None
      else
        var edited := EditAt(child.value, tokens[1..], edit);
        if edited.None? then None else Some(WithChild(doc, tokens[0], edited.value))
  }

  /**
   * One operation; `None` when it fails. A `test` is let pass whenever its target
   * exists, which only admits more runs.
   */
  function ApplyOperation(doc: Value, item: Operation): Option<Value> {
    if item.NotMapping? || Tokens(item.path).None? then None
    else
      var path := Tokens(item.path).value;
      if item.op == "add" then EditAt(doc, path, Add(item.value))
      else if item.op == "remove" then EditAt(doc, path, Remove)
      else if item.op == "replace" then EditAt(doc, path, Replace(item.value))
      else if item.op == "test" then if GetAt(doc, path).Some? then Some(doc) else None
      else if (item.op == "move" || item.op == "copy") && Tokens(item.from).Some? then
        var from := Tokens(item.from).value;
        var value := GetAt(doc, from);
        if value.None? || (item.op == "move" && from < path) then None
        else
          var without := if item.op == "move" then EditAt(doc, from, Remove) else Some(doc);
          if without.None? then None else EditAt(without.value, path, Add(value.value))
      else None
  }

  function ApplyPatch(doc: Value, items: seq<Operation>): Option<Value>
    decreases |items|
  {
    if items == [] then Some(doc)
    else
      var next := ApplyOperation(doc, items[0]);
      if next.None? then None else ApplyPatch(next.value, items[1..])
  }

  // ----- What operations do -----

  /** The tokens name a place: they do not end in the token for the place after the last item. */
  predicate IsPlace(tokens: seq<string>) {
    tokens == [] || tokens[|tokens| - 1] != "-"
  }

  lemma ChildOfWithChild(doc: Value, token: string, child: Value)
    requires Child(doc, token).Some?
    ensures Child(WithChild(doc, token, child), token) == Some(child)
  {
  }

  /** A value that is added at a place is read there. */
  lemma {:induction false} AddedIsRead(doc: Value, tokens: seq<string>, value: Value)
    requires IsPlace(tokens) && EditAt(doc, tokens, Add(value)).Some?
    ensures GetAt(EditAt(doc, tokens, Add(value)).value, tokens) == Some(value)
    decreases |tokens|
  {
    if |tokens| == 1 {
      assert tokens[1..] == [];
      if doc.List? {
        var i := ArrayIndex(tokens[0]).value;
        assert (doc.items[..i] + [value] + doc.items[i..])[i] == value;
      }
    } else if |tokens| > 1 {
      AddedIsRead(Child(doc, tokens[0]).value, tokens[1..], value);
    }
  }

  /** A value replaces another exactly where there is one, and is read there. */
  lemma {:induction false} ReplacedIff(doc: Value, tokens: seq<string>, value: Value)
    ensures EditAt(doc, tokens, Replace(value)).Some? <==> GetAt(doc, tokens).Some?
    ensures EditAt(doc, tokens, Replace(value)).Some? ==> GetAt(EditAt(doc, tokens, Replace(value)).value, tokens) == Some(value)
    decreases |tokens|
  {
    if tokens != [] && Child(doc, tokens[0]).Some? {
      ReplacedIff(Child(doc, tokens[0]).value, tokens[1..], value);
      if |tokens| == 1 {
        assert tokens[1..] == [];
        ChildOfWithChild(doc, tokens[0], value);
      }
    }
  }

  /** Everything below the document can be removed exactly where it is. */
  lemma {:induction false} RemovedIff(doc: Value, tokens: seq<string>)
    ensures EditAt(doc, tokens, Remove).Some? <==> tokens != [] && GetAt(doc, tokens).Some?
    decreases |tokens|
  {
    if tokens != [] && Child(doc, tokens[0]).Some? {
      RemovedIff(Child(doc, tokens[0]).value, tokens[1..]);
      if |tokens| == 1 {
        assert tokens[1..] == [];
      }
    }
  }

  /** The place is new: nothing is read there, or it is one of a list, where adding makes room. */
  predicate IsNew(doc: Value, tokens: seq<string>) {
    tokens != [] &&
    var container := GetAt(doc, tokens[..|tokens| - 1]);
    GetAt(doc, tokens).None? || (container.Some? && container.value.List?)
  }

  /** Removing what was added at a new place gives the document back. */
  lemma {:induction false} RemoveUndoesAdd(doc: Value, tokens: seq<string>, value: Value)
    requires IsPlace(tokens) && IsNew(doc, tokens) && EditAt(doc, tokens, Add(value)).Some?
    ensures EditAt(EditAt(doc, tokens, Add(value)).value, tokens, Remove) == Some(doc)
    decreases |tokens|
  {
    if |tokens| == 1 {
      assert tokens[1..] == [] && tokens[..0] == [];
      if doc.List? {
        var i := ArrayIndex(tokens[0]).value;
        var items := doc.items[..i] + [value] + doc.items[i..];
        assert items[..i] == doc.items[..i] && items[i + 1..] == doc.items[i..];
        assert doc.items[..i] + doc.items[i..] == doc.items;
      } else {
        assert GetAt(doc, tokens) == Child(doc, tokens[0]);
        assert doc.fields[Text(tokens[0]) := value] - {Text(tokens[0])} == doc.fields;
      }
    } else {
      var child := Child(doc, tokens[0]).value;
      assert tokens[1..][..|tokens| - 2] == tokens[..|tokens| - 1][1..];
      RemoveUndoesAdd(child, tokens[1..], value);
      var edited := EditAt(child, tokens[1..], Add(value)).value;
      ChildOfWithChild(doc, tokens[0], edited);
      WithChildBack(doc, tokens[0], edited);
    }
  }

  lemma WithChildTwice(doc: Value, token: string, child: Value, child': Value)
    requires Child(doc, token).Some? && Child(WithChild(doc, token, child), token).Some?
    ensures WithChild(WithChild(doc, token, child), token, child') == WithChild(doc, token, child')
  {
  }

  lemma WithChildBack(doc: Value, token: string, child: Value)
    requires Child(doc, token).Some? && Child(WithChild(doc, token, child), token).Some?
    ensures WithChild(WithChild(doc, token, child), token, Child(doc, token).value) == doc
  {
  }

  /** The container that holds a place, and the last token. */
  predicate CanAdd(doc: Value, tokens: seq<string>) {
    tokens == [] ||
    var container, last := GetAt(doc, tokens[..|tokens| - 1]), tokens[|tokens| - 1];
    container.Some? &&
    (container.value.Obj? ||
     (container.value.List? && (last == "-" || (ArrayIndex(last).Some? && ArrayIndex(last).value <= |container.value.items|))))
  }

  /** A value can be added in every object, and in a list at every index up to its end. */
  lemma {:induction false} AddedIff(doc: Value, tokens: seq<string>, value: Value)
    ensures EditAt(doc, tokens, Add(value)).Some? <==> CanAdd(doc, tokens)
    decreases |tokens|
  {
    if |tokens| == 1 {
      assert tokens[..0] == [];
    } else if |tokens| > 1 {
      assert tokens[..|tokens| - 1][0] == tokens[0] && tokens[1..][..|tokens| - 2] == tokens[..|tokens| - 1][1..];
      if Child(doc, tokens[0]).Some? {
        AddedIff(Child(doc, tokens[0]).value, tokens[1..], value);
      }
    }
  }

  /** The token `-` adds after the last item of a list. */
  lemma {:induction false} AppendedIsLast(doc: Value, tokens: seq<string>, value: Value)
    requires GetAt(doc, tokens).Some? && GetAt(doc, tokens).value.List?
    ensures EditAt(doc, tokens + ["-"], Add(value)).Some?
    ensures GetAt(EditAt(doc, tokens + ["-"], Add(value)).value, tokens) == Some(List(GetAt(doc, tokens).value.items + [value]))
    decreases |tokens|
  {
    if tokens == [] {
      assert tokens + ["-"] == ["-"];
      assert ArrayIndex("-").None? by {
        assert "-"[0] == '-';
      }
    } else {
      assert (tokens + ["-"])[0] == tokens[0] && (tokens + ["-"])[1..] == tokens[1..] + ["-"];
      AppendedIsLast(Child(doc, tokens[0]).value, tokens[1..], value);
    }
  }

  /** Replacing below the document is removing and then adding. */
  lemma {:induction false} ReplaceIsRemoveAndAdd(doc: Value, tokens: seq<string>, value: Value)
    requires tokens != [] && GetAt(doc, tokens).Some?
    ensures EditAt(doc, tokens, Remove).Some?
    ensures EditAt(doc, tokens, Replace(value)) == EditAt(EditAt(doc, tokens, Remove).value, tokens, Add(value))
    decreases |tokens|
  {
    if |tokens| == 1 {
      assert tokens[1..] == [];
      if doc.Obj? {
        assert (doc.fields - {Text(tokens[0])})[Text(tokens[0]) := value] == doc.fields[Text(tokens[0]) := value];
      } else {
        var i := ArrayIndex(tokens[0]).value;
        var without := doc.items[..i] + doc.items[i + 1..];
        assert without[..i] + [value] + without[i..] == doc.items[i := value];
        IndexIsNotDash(tokens[0]);
      }
    } else {
      var child := Child(doc, tokens[0]).value;
      ReplaceIsRemoveAndAdd(child, tokens[1..], value);
      var without, replaced := EditAt(child, tokens[1..], Remove).value, EditAt(child, tokens[1..], Replace(value));
      ChildOfWithChild(doc, tokens[0], without);
      ReplacedIff(child, tokens[1..], value);
      WithChildTwice(doc, tokens[0], without, replaced.value);
    }
  }

  lemma IndexIsNotDash(token: string)
    requires ArrayIndex(token).Some?
    ensures token != "-"
  {
    assert '0' <= token[0] <= '9';
  }

  /** The operations that are edits, and the test that a place exists. */
  lemma OperationIff(doc: Value, item: Operation, path: seq<string>)
    requires item.Operation? && item.path == Pointer(path)
    ensures item.op == "add" ==>
      && (ApplyOperation(doc, item).Some? <==> CanAdd(doc, path))
      && (ApplyOperation(doc, item).Some? && IsPlace(path) ==> GetAt(ApplyOperation(doc, item).value, path) == Some(item.value))
    ensures item.op == "replace" ==>
      && (ApplyOperation(doc, item).Some? <==> GetAt(doc, path).Some?)
      && (ApplyOperation(doc, item).Some? ==> GetAt(ApplyOperation(doc, item).value, path) == Some(item.value))
    ensures item.op == "remove" ==> (ApplyOperation(doc, item).Some? <==> path != [] && GetAt(doc, path).Some?)
    ensures item.op == "test" ==> ApplyOperation(doc, item) == if GetAt(doc, path).Some? then Some(doc) else None
    ensures item.op !in MUTATING && item.op != "test" ==> ApplyOperation(doc, item) == None
  {
    PointerRoundTrip(item.path, path);
    AddedIff(doc, path, item.value);
    if item.op == "add" && IsPlace(path) && CanAdd(doc, path) {
      AddedIsRead(doc, path, item.value);
    }
    ReplacedIff(doc, path, item.value);
    RemovedIff(doc, path);
  }

  /** Moving is removing and then adding, and is refused into the moved value itself; copying is adding. */
  lemma MoveIsRemoveAndAdd(doc: Value, item: Operation, path: seq<string>, from: seq<string>)
    requires item.Operation? && item.path == Pointer(path) && item.from == Pointer(from)
    ensures item.op == "move" ==>
      ApplyOperation(doc, item) ==
      if GetAt(doc, from).None? || from < path then None
      else ApplyPatch(doc, [Operation("remove", item.from, "", Leaf(Null)), Operation("add", item.path, "", GetAt(doc, from).value)])
    ensures item.op == "copy" ==>
      ApplyOperation(doc, item) ==
      if GetAt(doc, from).None? then None else ApplyOperation(doc, Operation("add", item.path, "", GetAt(doc, from).value))
  {
    PointerRoundTrip(item.path, path);
    PointerRoundTrip(item.from, from);
    if item.op == "move" && GetAt(doc, from).Some? {
      var remove, add := Operation("remove", item.from, "", Leaf(Null)), Operation("add", item.path, "", GetAt(doc, from).value);
      assert [remove, add][1..] == [add] && [add][1..] == [];
      TwoOperations(doc, remove, add);
    }
  }

  lemma TwoOperations(doc: Value, first: Operation, second: Operation)
    ensures ApplyPatch(doc, [first, second]) ==
      var next := ApplyOperation(doc, first);
      if next.None? then None else ApplyOperation(next.value, second)
  {
    assert [first, second][1..] == [second] && [second][1..] == [];
    var next := ApplyOperation(doc, first);
    if next.Some? {
      var last := ApplyOperation(next.value, second);
      assert ApplyPatch(next.value, [second]) == if last.None? then None else ApplyPatch(last.value, []);
    }
  }

  /** A moved or copied value is read at its new place, and copying is adding it there. */
  lemma MovedIsRead(doc: Value, item: Operation)
    requires item.Operation? && item.op in {"move", "copy"} && ApplyOperation(doc, item).Some?
    requires Tokens(item.path).Some? && IsPlace(Tokens(item.path).value)
    ensures Tokens(item.from).Some? && GetAt(doc, Tokens(item.from).value).Some?
    ensures GetAt(ApplyOperation(doc, item).value, Tokens(item.path).value) == GetAt(doc, Tokens(item.from).value)
    ensures item.op == "copy" ==> ApplyOperation(doc, item) == ApplyOperation(doc, Operation("add", item.path, "", GetAt(doc, Tokens(item.from).value).value))
  {
    var path, from := Tokens(item.path).value, Tokens(item.from).value;
    var value := GetAt(doc, from).value;
    var without := if item.op == "move" then EditAt(doc, from, Remove).value else doc;
    AddedIsRead(without, path, value);
  }

  // ----- Operations elsewhere leave a field alone -----

  /** The value reached through objects by plain keys. */
  function Lookup(doc: Value, keys: seq<string>): Option<Value>
    decreases |keys|
  {
    if keys == [] then Some(doc)
    else if doc.Obj? && Text(keys[0]) in doc.fields then Lookup(doc.fields[Text(keys[0])], keys[1..])
    else None
  }

  /** The two paths part ways before either ends. */
  predicate Diverge(tokens: seq<string>, keys: seq<string>)
    decreases |tokens|
  {
    tokens != [] && keys != [] && (tokens[0] != keys[0] || Diverge(tokens[1..], keys[1..]))
  }

  lemma {:induction false} EditElsewhere(doc: Value, tokens: seq<string>, edit: Edit, keys: seq<string>)
    requires Diverge(tokens, keys) && EditAt(doc, tokens, edit).Some?
    ensures Lookup(EditAt(doc, tokens, edit).value, keys) == Lookup(doc, keys)
    decreases |tokens|
  {
    if tokens[0] == keys[0] {
      EditElsewhere(Child(doc, tokens[0]).value, tokens[1..], edit, keys[1..]);
    }
  }

  lemma OperationElsewhere(doc: Value, item: Operation, keys: seq<string>)
    requires ApplyOperation(doc, item).Some?
    requires item.op in MUTATING ==> Diverge(Tokens(item.path).value, keys)
    requires item.op == "move" ==> Tokens(item.from).Some? && Diverge(Tokens(item.from).value, keys)
    ensures Lookup(ApplyOperation(doc, item).value, keys) == Lookup(doc, keys)
  {
    var path := Tokens(item.path).value;
    if item.op == "add" {
      EditElsewhere(doc, path, Add(item.value), keys);
    } else if item.op == "remove" {
      EditElsewhere(doc, path, Remove, keys);
    } else if item.op == "replace" {
      EditElsewhere(doc, path, Replace(item.value), keys);
    } else if item.op == "move" {
      var from := Tokens(item.from).value;
      EditElsewhere(doc, from, Remove, keys);
      EditElsewhere(EditAt(doc, from, Remove).value, path, Add(GetAt(doc, from).value), keys);
    } else if item.op == "copy" {
      EditElsewhere(doc, path, Add(GetAt(doc, Tokens(item.from).value).value), keys);
    }
  }

  // ----- The textual test compares components -----

  predicate PlainKey(key: string) {
    key != "" && forall i :: 0 <= i < |key| ==> IsKeyChar(key[i])
  }

  predicate PlainKeys(keys: seq<string>) {
    keys != [] && forall i :: 0 <= i < |keys| ==> PlainKey(keys[i])
  }

  lemma {:induction false} DotsToSlashesAppend(a: string, b: string)
    ensures DotsToSlashes(a + b) == DotsToSlashes(a) + DotsToSlashes(b)
  {
    if a == "" {
      assert a + b == b;
    } else {
      assert (a + b)[1..] == a[1..] + b;
      DotsToSlashesAppend(a[1..], b);
    }
  }

  lemma {:induction false} DotsToSlashesPlain(s: string)
    requires '.' !in s
    ensures DotsToSlashes(s) == s
  {
    if s != "" {
      DotsToSlashesPlain(s[1..]);
    }
  }

  lemma {:induction false} DotsToSlashesOfKeys(keys: seq<string>)
    requires PlainKeys(keys)
    ensures DotsToSlashes(JoinDots(keys)) == RepositoryPath.Join(keys)
  {
    DotsToSlashesPlain(keys[0]);
    if |keys| > 1 {
      DotsToSlashesOfKeys(keys[1..]);
      DotsToSlashesAppend(keys[0] + ".", JoinDots(keys[1..]));
      DotsToSlashesAppend(keys[0], ".");
      assert DotsToSlashes(".") == "/";
    }
  }

  lemma SplitOfProtected(keys: seq<string>)
    requires PlainKeys(keys)
    ensures RepositoryPath.Split("/" + DotsToSlashes(JoinDots(keys))) == [""] + keys
  {
    DotsToSlashesOfKeys(keys);
    RepositoryPath.SplitJoin(keys);
    RepositoryPath.SplitAppend("", RepositoryPath.Join(keys));
    assert "" + "/" + RepositoryPath.Join(keys) == "/" + RepositoryPath.Join(keys);
  }

  /** Decoding does not turn an escaped token into a plain key. */
  lemma {:induction false} UnescapePlain(raw: string, key: string)
    requires PlainKey(key) || key == ""
    ensures Unescape(raw) == Some(key) <==> raw == key
  {
    if raw == "" {
    } else if raw[0] != '~' {
      if key != "" {
        UnescapePlain(raw[1..], key[1..]);
        assert raw == [raw[0]] + raw[1..] && key == [key[0]] + key[1..];
      }
    } else {
      assert !IsKeyChar('~');
    }
  }

  lemma {:induction false} DivergeFromComponents(raw: seq<string>, tokens: seq<string>, keys: seq<string>)
    requires |tokens| == |raw| && forall i :: 0 <= i < |raw| ==> Unescape(raw[i]) == Some(tokens[i])
    requires forall i :: 0 <= i < |keys| ==> PlainKey(keys[i])
    requires !(raw <= keys) && !(keys <= raw)
    ensures Diverge(tokens, keys)
    decreases |raw|
  {
    UnescapePlain(raw[0], keys[0]);
    if raw[0] == keys[0] {
      assert raw == [raw[0]] + raw[1..] && keys == [keys[0]] + keys[1..];
      DivergeFromComponents(raw[1..], tokens[1..], keys[1..]);
    }
  }

  /** A pointer that does not overlap a plain field leads elsewhere. */
  lemma NoOverlapDiverges(pointer: string, keys: seq<string>)
    requires PlainKeys(keys) && !Overlaps(pointer, JoinDots(keys)) && Tokens(pointer).Some?
    ensures Diverge(Tokens(pointer).value, keys)
  {
    var protected := "/" + DotsToSlashes(JoinDots(keys));
    SplitOfProtected(keys);
    assert pointer != "" by {
      assert "" + "/" <= protected;
    }
    var parts := RepositoryPath.Split(pointer);
    assert parts[0] == "";
    var raw := parts[1..];
    assert parts == [""] + raw;
    if raw <= keys {
      assert parts <= [""] + keys;
      RepositoryPath.ComponentPrefixIsTextual(pointer, protected);
      assert false;
    }
    if keys <= raw {
      assert [""] + keys <= parts;
      RepositoryPath.ComponentPrefixIsTextual(protected, pointer);
      assert false;
    }
    DivergeFromComponents(raw, Tokens(pointer).value, keys);
  }

  // ----- Which operations are owned -----

  /** One place is at, above or below the other. */
  predicate Related(tokens: seq<string>, keys: seq<string>) {
    tokens <= keys || keys <= tokens
  }

  lemma {:induction false} DivergeIsUnrelated(tokens: seq<string>, keys: seq<string>)
    ensures Diverge(tokens, keys) <==> !Related(tokens, keys)
    decreases |tokens|
  {
    if tokens != [] && keys != [] {
      assert tokens == [tokens[0]] + tokens[1..] && keys == [keys[0]] + keys[1..];
      DivergeIsUnrelated(tokens[1..], keys[1..]);
    }
  }

  lemma OverlapIsPrefix(pointer: string, keys: seq<string>)
    requires PlainKeys(keys) && Overlaps(pointer, JoinDots(keys))
    ensures var parts := RepositoryPath.Split(pointer); pointer == "" || parts <= [""] + keys || [""] + keys <= parts
  {
    var protected := "/" + DotsToSlashes(JoinDots(keys));
    SplitOfProtected(keys);
    if protected + "/" <= pointer {
      var rest := pointer[|protected| + 1..];
      assert pointer == protected + "/" + rest;
      RepositoryPath.SplitAppend(protected, rest);
    } else if pointer + "/" <= protected {
      var rest := protected[|pointer| + 1..];
      assert protected == pointer + "/" + rest;
      RepositoryPath.SplitAppend(pointer, rest);
    }
  }

  /** Decoding keeps the relation of components to plain keys. */
  lemma RawIsRelated(raw: seq<string>, tokens: seq<string>, keys: seq<string>)
    requires |tokens| == |raw| && forall i :: 0 <= i < |raw| ==> Unescape(raw[i]) == Some(tokens[i])
    requires forall i :: 0 <= i < |keys| ==> PlainKey(keys[i])
    requires Related(raw, keys)
    ensures Related(tokens, keys)
  {
    forall i | 0 <= i < |raw| && i < |keys|
      ensures tokens[i] == keys[i]
    {
      UnescapePlain(raw[i], keys[i]);
    }
  }

  /** A pointer overlaps a plain field exactly when it leads to the field, above it or below it. */
  lemma OverlapIff(pointer: string, keys: seq<string>)
    requires PlainKeys(keys) && Tokens(pointer).Some?
    ensures Overlaps(pointer, JoinDots(keys)) <==> Related(Tokens(pointer).value, keys)
  {
    var tokens := Tokens(pointer).value;
    DivergeIsUnrelated(tokens, keys);
    if !Overlaps(pointer, JoinDots(keys)) {
      NoOverlapDiverges(pointer, keys);
    } else if pointer != "" {
      OverlapIsPrefix(pointer, keys);
      var parts := RepositoryPath.Split(pointer);
      var raw := parts[1..];
      assert parts == [""] + raw;
      assert Related(raw, keys) by {
        assert ([""] + keys)[1..] == keys;
        assert parts <= [""] + keys ==> raw <= keys;
        assert [""] + keys <= parts ==> keys <= raw;
      }
      RawIsRelated(raw, tokens, keys);
    }
  }

  /**
   * An operation owns a plain field exactly when it changes the document and writes a
   * place at, above or below the field, or copies or moves from such a place.
   */
  lemma OwnedIff(item: Operation, keys: seq<string>)
    requires PlainKeys(keys) && item.Operation? && Tokens(item.path).Some? && Tokens(item.from).Some?
    ensures OperationOwns(item, JoinDots(keys)) <==>
      && item.op in {"add", "copy", "move", "remove", "replace"}
      && (Related(Tokens(item.path).value, keys) || (item.op in {"copy", "move"} && Related(Tokens(item.from).value, keys)))
  {
    OverlapIff(item.path, keys);
    OverlapIff(item.from, keys);
  }

  /** A patch that does not own a plain field leaves its value, or its absence, as it was. */
  lemma {:induction false} UnownedFieldUnchanged(doc: Value, items: seq<Operation>, keys: seq<string>)
    requires PlainKeys(keys) && !Owns(items, [JoinDots(keys)])
    requires ApplyPatch(doc, items).Some?
    ensures Lookup(ApplyPatch(doc, items).value, keys) == Lookup(doc, keys)
    decreases |items|
  {
    if items != [] {
      var item := items[0];
      assert !OperationOwns(items[0], [JoinDots(keys)][0]);
      if item.op in MUTATING {
        NoOverlapDiverges(item.path, keys);
        if item.op == "move" {
          NoOverlapDiverges(item.from, keys);
        }
      }
      OperationElsewhere(doc, item, keys);
      UnownedFieldUnchanged(ApplyOperation(doc, item).value, items[1..], keys);
    }
  }

  // ----- Exactly which fields the test protects -----

  /** No unowned patch changes what the field reads, in any document. */
  ghost predicate Protected(field: string) {
    forall doc, items :: !Owns(items, [field]) && ApplyPatch(doc, items).Some? ==>
      Get(ApplyPatch(doc, items).value, Parse(field)) == Get(doc, Parse(field))
  }

  predicate HasSelector(path: Path) {
    exists i :: 0 <= i < |path| && path[i].selected.Some?
  }

  /** Some document satisfies the path: below a selected item, `name` can only be the last key. */
  predicate Readable(path: Path) {
    forall i :: 0 <= i < |path| - 1 && path[i].selected.Some? && path[i + 1].key == "name" ==>
      i + 2 == |path| && path[i + 1].selected.None?
  }

  function Keys(path: Path): (keys: seq<string>)
    ensures |keys| == |path|
    ensures forall i :: 0 <= i < |path| ==> keys[i] == path[i].key
  {
    seq(|path|, i requires 0 <= i < |path| => path[i].key)
  }

  lemma {:induction false} GetIsLookup(doc: Value, path: Path)
    requires !HasSelector(path)
    ensures Get(doc, path) == Lookup(doc, Keys(path))
    decreases |path|
  {
    if path != [] {
      assert !HasSelector(path[1..]) by {
        forall i | 0 <= i < |path[1..]|
          ensures path[1..][i].selected.None?
        {
          assert path[1..][i] == path[i + 1];
        }
      }
      assert Keys(path)[1..] == Keys(path[1..]);
      assert path[0].selected.None?;
      if Descend(doc, path[0]).Some? {
        GetIsLookup(Descend(doc, path[0]).value, path[1..]);
      }
    }
  }

  lemma {:induction false} PrintOfPlain(path: Path)
    requires !HasSelector(path)
    ensures PrintAll(path) == Keys(path)
  {
    if path != [] {
      assert !HasSelector(path[1..]) by {
        forall i | 0 <= i < |path[1..]|
          ensures path[1..][i].selected.None?
        {
          assert path[1..][i] == path[i + 1];
        }
      }
      assert path[0].selected.None?;
      assert path[0].key + "" == path[0].key;
      PrintOfPlain(path[1..]);
    }
  }

  lemma PlainFieldIsProtected(field: string)
    requires Parse(field) != [] && !HasSelector(Parse(field))
    ensures Protected(field)
  {
    var path := Parse(field);
    PrintOfParse(field);
    PrintOfPlain(path);
    var keys := Keys(path);
    assert PlainKeys(keys) && JoinDots(keys) == field;
    forall doc, items | !Owns(items, [field]) && ApplyPatch(doc, items).Some?
      ensures Get(ApplyPatch(doc, items).value, path) == Get(doc, path)
    {
      UnownedFieldUnchanged(doc, items, keys);
      GetIsLookup(doc, path);
      GetIsLookup(ApplyPatch(doc, items).value, path);
    }
  }

  /** Below an item selected by name, `name` is a scalar: nothing can be selected in it or read below it. */
  lemma NothingBelowName(doc: Value, path: Path)
    requires |path| >= 2 && path[0].selected.Some? && path[1].key == "name"
    requires |path| > 2 || path[1].selected.Some?
    ensures Get(doc, path) == None
  {
    if Descend(doc, path[0]).Some? {
      var item := Descend(doc, path[0]).value;
      assert path[1..][0] == path[1];
      if Descend(item, path[1]).Some? {
        var name := Descend(item, path[1]).value;
        assert name.Leaf? && path[2..] != [] && path[1..][1..] == path[2..];
        assert Get(name, path[2..]) == None;
      }
    }
  }

  lemma UnreadableReadsNothing(doc: Value, path: Path)
    requires !Readable(path)
    ensures Get(doc, path) == None
  {
    var i :| 0 <= i < |path| - 1 && path[i].selected.Some? && path[i + 1].key == "name"
             && !(i + 2 == |path| && path[i + 1].selected.None?);
    assert path == path[..i] + path[i..];
    LocateAppend(doc, path[..i], path[i..]);
    if Get(doc, path[..i]).Some? {
      NothingBelowName(Get(doc, path[..i]).value, path[i..]);
    }
  }

  /** A smallest document that satisfies a readable path. */
  function Realize(path: Path): Value
    decreases |path|
  {
    if path == [] then Leaf(Null)
    else
      var child := Realize(path[1..]);
      Obj(map[Text(path[0].key) := if path[0].selected.None? then child else List([Naming(child, path[0].selected.value)])])
  }

  function Naming(v: Value, name: string): Value {
    Obj((if v.Obj? then v.fields else map[])[NAME := Leaf(Str(name))])
  }

  lemma {:induction false} RealizeSatisfies(path: Path)
    requires Readable(path)
    ensures Get(Realize(path), path).Some?
    decreases |path|
  {
    if path != [] {
      var rest := path[1..];
      assert Readable(rest) by {
        forall i | 0 <= i < |rest| - 1 && rest[i].selected.Some? && rest[i + 1].key == "name"
          ensures i + 2 == |rest| && rest[i + 1].selected.None?
        {
          assert rest[i] == path[i + 1] && rest[i + 1] == path[i + 2];
        }
      }
      RealizeSatisfies(rest);
      if path[0].selected.Some? {
        var name := path[0].selected.value;
        var item := Naming(Realize(rest), name);
        SelectIsUniqueMatch([item], name, 0);
        assert Descend(Realize(path), path[0]) == Some(item);
        if rest != [] && rest[0].key == "name" {
          assert path[0 + 1].key == "name";
          assert rest[1..] == [];
          assert Get(item, rest) == Some(Leaf(Str(name)));
        } else if rest != [] {
          assert Descend(item, rest[0]) == Descend(Realize(rest), rest[0]);
        }
      }
    }
  }

  /** The tokens that lead to the item under the first selector. */
  function ItemTokens(path: Path): seq<string>
    requires HasSelector(path)
    decreases |path|
  {
    if path[0].selected.Some? then [path[0].key, "0"]
    else
      assert HasSelector(path[1..]) by {
        var i :| 0 <= i < |path| && path[i].selected.Some?;
        assert path[1..][i - 1] == path[i];
      }
      [path[0].key] + ItemTokens(path[1..])
  }

  lemma SelectorInTail(path: Path)
    requires HasSelector(path) && path[0].selected.None?
    ensures HasSelector(path[1..])
  {
    var i :| 0 <= i < |path| && path[i].selected.Some?;
    assert path[1..][i - 1] == path[i];
  }

  /** Removing the selected item succeeds on the smallest document and makes the path unreadable. */
  lemma {:induction false} RemovingItemLosesPath(path: Path)
    requires HasSelector(path)
    ensures EditAt(Realize(path), ItemTokens(path), Remove).Some?
    ensures Get(EditAt(Realize(path), ItemTokens(path), Remove).value, path) == None
    decreases |path|
  {
    var k := Text(path[0].key);
    if path[0].selected.Some? {
      var list := Realize(path).fields[k];
      assert DecimalValue("0") == 0 by {
        assert "0"[..0] == "";
      }
      assert ArrayIndex("0") == Some(0);
      assert ItemTokens(path)[1..] == ["0"];
      assert list.items[..0] + list.items[1..] == [];
      assert EditHere(list, "0", Remove) == Some(List([]));
      SelectFindsNone([], path[0].selected.value);
    } else {
      SelectorInTail(path);
      RemovingItemLosesPath(path[1..]);
      assert ItemTokens(path)[1..] == ItemTokens(path[1..]);
    }
  }

  lemma {:induction false} ItemTokensArePlain(path: Path)
    requires HasSelector(path) && forall i :: 0 <= i < |path| ==> ValidSegment(path[i])
    ensures PlainKeys(ItemTokens(path)) && |ItemTokens(path)| >= 2
    decreases |path|
  {
    if path[0].selected.None? {
      SelectorInTail(path);
      ItemTokensArePlain(path[1..]);
    }
  }

  lemma {:induction false} UnescapeAllPlain(keys: seq<string>)
    requires forall i :: 0 <= i < |keys| ==> PlainKey(keys[i])
    ensures UnescapeAll(keys) == Some(keys)
  {
    if keys != [] {
      UnescapePlain(keys[0], keys[0]);
      UnescapeAllPlain(keys[1..]);
      assert keys == [keys[0]] + keys[1..];
    }
  }

  lemma TokensOfPlain(keys: seq<string>)
    requires PlainKeys(keys)
    ensures var pointer := "/" + RepositoryPath.Join(keys);
      RepositoryPath.Split(pointer) == [""] + keys && Tokens(pointer) == Some(keys)
  {
    SplitOfProtected(keys);
    DotsToSlashesOfKeys(keys);
    UnescapeAllPlain(keys);
    assert ([""] + keys)[1..] == keys;
  }

  /** The first component of a text that goes on with an opening bracket contains that bracket. */
  lemma {:induction false} BracketInComponent(key: string, rest: string)
    requires '/' !in key
    ensures '[' in RepositoryPath.Split(key + "[" + rest)[0]
  {
    var s := key + "[" + rest;
    if key == "" {
      assert s[0] == '[';
    } else {
      assert s[0] == key[0] && s[1..] == key[1..] + "[" + rest;
      BracketInComponent(key[1..], rest);
    }
  }

  lemma PrintHead(path: Path) returns (tail: string)
    requires path != []
    ensures Print(path) == PrintSegment(path[0]) + tail
    ensures |path| > 1 ==> tail == "." + Print(path[1..])
  {
    assert PrintAll(path)[1..] == PrintAll(path[1..]);
    tail := if |path| == 1 then "" else "." + Print(path[1..]);
    assert |path| > 1 ==> PrintSegment(path[0]) + "." + Print(path[1..]) == PrintSegment(path[0]) + tail;
  }

  lemma SelectedHeadHasBracket(path: Path)
    requires ValidPath(path) && path[0].selected.Some?
    ensures '[' in RepositoryPath.Split(DotsToSlashes(Print(path)))[0]
  {
    var tail := PrintHead(path);
    var key := path[0].key;
    var inner := "name=" + path[0].selected.value + "]" + tail;
    SelectedHeadText(path[0], tail, inner);
    BracketIsKept(key, inner);
    BracketInComponent(key, DotsToSlashes(inner));
  }

  lemma SelectedHeadText(g: Segment, tail: string, inner: string)
    requires g.selected.Some? && inner == "name=" + g.selected.value + "]" + tail
    ensures PrintSegment(g) + tail == g.key + ("[" + inner)
  {
    assert "[name=" == "[" + "name=";
  }

  lemma BracketIsKept(key: string, inner: string)
    requires key != "" && forall i :: 0 <= i < |key| ==> IsKeyChar(key[i])
    ensures DotsToSlashes(key + ("[" + inner)) == key + "[" + DotsToSlashes(inner)
  {
    DotsToSlashesPlain(key);
    DotsToSlashesAppend(key, "[" + inner);
    DotsToSlashesAppend("[", inner);
    DotsToSlashesPlain("[");
  }

  lemma PlainHeadIsComponent(path: Path)
    requires ValidPath(path) && |path| > 1 && path[0].selected.None?
    ensures RepositoryPath.Split(DotsToSlashes(Print(path))) ==
            [path[0].key] + RepositoryPath.Split(DotsToSlashes(Print(path[1..])))
  {
    var tail := PrintHead(path);
    var key, rest := path[0].key, Print(path[1..]);
    assert Print(path) == key + ("." + rest);
    DotsToSlashesPlain(key);
    DotsToSlashesAppend(key, "." + rest);
    DotsToSlashesAppend(".", rest);
    assert DotsToSlashes(".") == "/";
    assert DotsToSlashes(Print(path)) == key + "/" + DotsToSlashes(rest);
    RepositoryPath.SplitAppend(key, DotsToSlashes(rest));
    RepositoryPath.SplitOne(key);
  }

  /** The text of a path with a selector has other components than the pointer to the selected item. */
  lemma {:induction false} SelectorTextDiffers(path: Path)
    requires ValidPath(path) && HasSelector(path)
    ensures var parts := RepositoryPath.Split(DotsToSlashes(Print(path)));
      !(parts <= ItemTokens(path)) && !(ItemTokens(path) <= parts)
    decreases |path|
  {
    var parts := RepositoryPath.Split(DotsToSlashes(Print(path)));
    if path[0].selected.Some? {
      SelectedHeadHasBracket(path);
      assert '[' !in path[0].key;
    } else {
      SelectorInTail(path);
      SelectorTextDiffers(path[1..]);
      PlainHeadIsComponent(path);
      var rest, tokens := RepositoryPath.Split(DotsToSlashes(Print(path[1..]))), ItemTokens(path[1..]);
      assert parts == [path[0].key] + rest && ItemTokens(path) == [path[0].key] + tokens;
      assert parts[1..] == rest && ItemTokens(path)[1..] == tokens;
    }
  }

  /** Texts whose components are not nested do not overlap. */
  lemma DifferentComponentsDoNotOverlap(pointer: string, field: string, keys: seq<string>)
    requires RepositoryPath.Split(pointer) == [""] + keys
    requires var parts := RepositoryPath.Split(DotsToSlashes(field)); !(parts <= keys) && !(keys <= parts)
    ensures !Overlaps(pointer, field)
  {
    var protected := "/" + DotsToSlashes(field);
    var parts := RepositoryPath.Split(DotsToSlashes(field));
    RepositoryPath.SplitAppend("", DotsToSlashes(field));
    assert "" + "/" + DotsToSlashes(field) == protected;
    assert RepositoryPath.Split(protected) == [""] + parts;
    assert ([""] + parts)[1..] == parts && ([""] + keys)[1..] == keys;
    if protected + "/" <= pointer {
      NestedComponents(protected, pointer, parts, keys);
    }
    if pointer + "/" <= protected {
      NestedComponents(pointer, protected, keys, parts);
    }
  }

  /** A text nested in another one begins its components. */
  lemma NestedComponents(outer: string, inner: string, xs: seq<string>, ys: seq<string>)
    requires outer + "/" <= inner
    requires RepositoryPath.Split(outer) == [""] + xs && RepositoryPath.Split(inner) == [""] + ys
    ensures xs <= ys
  {
    var rest := inner[|outer| + 1..];
    assert inner == outer + "/" + rest;
    RepositoryPath.SplitAppend(outer, rest);
    assert ([""] + ys)[1..] == ys && ([""] + xs + RepositoryPath.Split(rest))[1..] == xs + RepositoryPath.Split(rest);
  }

  /** A pointer to the selected item that the textual test does not notice. */
  lemma UnnoticedPointer(field: string) returns (pointer: string)
    requires Parse(field) != [] && HasSelector(Parse(field))
    ensures !Overlaps(pointer, field) && Tokens(pointer) == Some(ItemTokens(Parse(field)))
  {
    var path := Parse(field);
    PrintOfParse(field);
    var keys := ItemTokens(path);
    ItemTokensArePlain(path);
    TokensOfPlain(keys);
    SelectorTextDiffers(path);
    pointer := "/" + RepositoryPath.Join(keys);
    DifferentComponentsDoNotOverlap(pointer, field, keys);
  }

  /** A readable field with a selector can be changed by a patch that does not own it. */
  lemma SelectorIsNotProtected(field: string)
    requires Parse(field) != [] && HasSelector(Parse(field)) && Readable(Parse(field))
    ensures !Protected(field)
  {
    var pointer := UnnoticedPointer(field);
    RealizeSatisfies(Parse(field));
    RemovingItemLosesPath(Parse(field));
    RemovalIsUnowned(pointer, field);
    ApplyRemoval(Realize(Parse(field)), pointer, ItemTokens(Parse(field)));
  }

  lemma RemovalIsUnowned(pointer: string, field: string)
    requires !Overlaps(pointer, field)
    ensures !Owns([Operation("remove", pointer, "", Leaf(Null))], [field])
  {
    var items := [Operation("remove", pointer, "", Leaf(Null))];
    assert !OperationOwns(items[0], field);
  }

  lemma ApplyRemoval(doc: Value, pointer: string, tokens: seq<string>)
    requires Tokens(pointer) == Some(tokens)
    ensures ApplyPatch(doc, [Operation("remove", pointer, "", Leaf(Null))]) == EditAt(doc, tokens, Remove)
  {
    var items := [Operation("remove", pointer, "", Leaf(Null))];
    assert items[1..] == [];
  }

  /** The textual test protects a field path exactly when it uses no selector or can never be read. */
  lemma ProtectedIffNoSelector(field: string)
    requires Parse(field) != []
    ensures Protected(field) <==> !HasSelector(Parse(field)) || !Readable(Parse(field))
  {
    if !HasSelector(Parse(field)) {
      PlainFieldIsProtected(field);
    } else if Readable(Parse(field)) {
      SelectorIsNotProtected(field);
    } else {
      forall doc, items | !Owns(items, [field]) && ApplyPatch(doc, items).Some?
        ensures Get(ApplyPatch(doc, items).value, Parse(field)) == Get(doc, Parse(field))
      {
        UnreadableReadsNothing(doc, Parse(field));
        UnreadableReadsNothing(ApplyPatch(doc, items).value, Parse(field));
      }
    }
  }
}
