/**
 * Field contracts: what a payload declares about its fields, and how two
 * contracts differ.
 */
module SchemaContract {
  import opened Wrappers
  import Collections

  /** A JSON payload. Objects keep the order of their keys. */
  datatype Json =
    | JNull | JBool(b: bool) | JInt(i: int) | JFloat(r: real) | JString(s: string)
    | JArray(items: seq<Json>)
    | JObject(entries: seq<Member>)

  datatype Member = Member(key: string, value: Json)

  /** The type name of a field; `None` means that it could not be determined. */
  type FieldType = Option<string>

  datatype FieldEntry = FieldEntry(path: string, fieldType: FieldType)

  type Contract = map<string, FieldType>

  /** `json_type_name` */
  function TypeName(v: Json): FieldType {
    match v
    case JNull => None
    case JBool(_) => Some("boolean")
    case JInt(_) => Some("integer")
    case JFloat(_) => Some("number")
    case JString(_) => Some("string")
    case JArray(_) => Some("array")
    case JObject(_) => Some("object")
  }

  // ----- Flattening -----

  function ChildPath(prefix: string, key: string): string {
    if prefix == "" then key else prefix + "." + key
  }

  /** What one member of an object yields. */
  function FlattenMember(m: Member, prefix: string): seq<FieldEntry>
    decreases m, 0
  {
    var path := ChildPath(prefix, m.key);
    match m.value
    case JObject(_) => Flatten(m.value, path)
    case JArray(items) =>
      [FieldEntry(path, Some("array"))] + if items == [] then [] else Flatten(items[0], path + "[]")
    case _ => [FieldEntry(path, TypeName(m.value))]
  }

  function FlattenMembers(ms: seq<Member>, prefix: string): seq<FieldEntry>
    decreases ms, 0
  {
    if ms == [] then [] else FlattenMember(ms[0], prefix) + FlattenMembers(ms[1..], prefix)
  }

  /** `flatten_fields` */
  function Flatten(payload: Json, prefix: string): seq<FieldEntry>
    decreases payload, 1
  {
    match payload
    case JObject(entries) => FlattenMembers(entries, prefix)
    case JArray(items) => if items == [] then [] else Flatten(items[0], prefix)
    case _ => []
  }

  // ----- Paths -----

  /** Nested objects with one key each, around a value. */
  function Nest(keys: seq<string>, v: Json): Json {
    if keys == [] then v else JObject([Member(keys[0], Nest(keys[1..], v))])
  }

  function Dotted(keys: seq<string>): string {
    if keys == [] then "" else if |keys| == 1 then keys[0] else keys[0] + "." + Dotted(keys[1..])
  }

  predicate IsScalar(v: Json) {
    !v.JArray? && !v.JObject?
  }

  lemma {:induction false} NestedBelow(keys: seq<string>, v: Json, prefix: string)
    requires keys != [] && prefix != "" && IsScalar(v)
    ensures Flatten(Nest(keys, v), prefix) == [FieldEntry(prefix + "." + Dotted(keys), TypeName(v))]
  {
    var m := Member(keys[0], Nest(keys[1..], v));
    assert Flatten(Nest(keys, v), prefix) == FlattenMember(m, prefix) + FlattenMembers([], prefix) by {
      assert [m][1..] == [];
    }
    if |keys| > 1 {
      NestedBelow(keys[1..], v, prefix + "." + keys[0]);
      assert prefix + "." + keys[0] + "." + Dotted(keys[1..]) == prefix + "." + (keys[0] + "." + Dotted(keys[1..]));
    } else {
      assert keys[1..] == [];
    }
  }

  /** A scalar below nested keys is flattened to the keys joined by dots, with its type. */
  lemma NestedField(keys: seq<string>, v: Json)
    requires keys != [] && keys[0] != "" && IsScalar(v)
    ensures Flatten(Nest(keys, v), "") == [FieldEntry(Dotted(keys), TypeName(v))]
  {
    var m := Member(keys[0], Nest(keys[1..], v));
    assert Flatten(Nest(keys, v), "") == FlattenMember(m, "") + FlattenMembers([], "") by {
      assert [m][1..] == [];
    }
    if |keys| > 1 {
      NestedBelow(keys[1..], v, keys[0]);
    } else {
      assert keys[1..] == [];
    }
  }

  /** An array is a field of its own, followed by the fields of its first item below `[]`. */
  lemma ArrayField(key: string, items: seq<Json>)
    ensures Flatten(JObject([Member(key, JArray(items))]), "") ==
            [FieldEntry(key, Some("array"))] + if items == [] then [] else Flatten(items[0], key + "[]")
  {
    var m := Member(key, JArray(items));
    assert [m][1..] == [];
    assert Flatten(JObject([m]), "") == FlattenMember(m, "") + FlattenMembers([], "");
  }

  /** A list of payloads is flattened like its first one, and objects member by member. */
  lemma FlattenParts(first: Json, rest: seq<Json>, ms: seq<Member>, ns: seq<Member>, prefix: string)
    ensures Flatten(JArray([first] + rest), prefix) == Flatten(first, prefix)
    ensures Flatten(JObject(ms + ns), prefix) == Flatten(JObject(ms), prefix) + Flatten(JObject(ns), prefix)
  {
    FlattenAppend(ms, ns, prefix);
  }

  lemma {:induction false} FlattenAppend(ms: seq<Member>, ns: seq<Member>, prefix: string)
    ensures FlattenMembers(ms + ns, prefix) == FlattenMembers(ms, prefix) + FlattenMembers(ns, prefix)
  {
    if ms == [] {
      assert ms + ns == ns;
    } else {
      assert (ms + ns)[1..] == ms[1..] + ns;
      FlattenAppend(ms[1..], ns, prefix);
    }
  }

  // ----- The contract of a payload -----

  /** An entry is recorded when its path is new or so far without a type. */
  function Note(seen: Contract, e: FieldEntry): Contract {
    if e.path !in seen || seen[e.path].None? then seen[e.path := e.fieldType] else seen
  }

  function NoteAll(seen: Contract, entries: seq<FieldEntry>): Contract {
    if entries == [] then seen
    else Note(NoteAll(seen, entries[..|entries| - 1]), entries[|entries| - 1])
  }

  function ContractOf(payload: Json): Contract {
    NoteAll(map[], Flatten(payload, ""))
  }

  /** `contract_from_payload`, as a mapping; the source returns its items sorted by path. */
  method ContractFromPayload(payload: Json) returns (seen: Contract)
    ensures seen == ContractOf(payload)
  {
    seen := map[];
    var entries := Flatten(payload, "");
    for i := 0 to |entries|
      invariant seen == NoteAll(map[], entries[..i])
    {
      assert entries[..i + 1][..i] == entries[..i];
      if entries[i].path !in seen || seen[entries[i].path].None? {
        seen := seen[entries[i].path := entries[i].fieldType];
      }
    }
    assert entries[..|entries|] == entries;
  }

  ghost function Entries(xs: seq<FieldEntry>): set<FieldEntry> {
    set e | e in xs
  }

  /** The noted type is one of the entries, and is unknown only if all entries of the path are. */
  lemma {:induction false} NotedType(xs: seq<FieldEntry>)
    ensures forall p :: p in NoteAll(map[], xs) ==> FieldEntry(p, NoteAll(map[], xs)[p]) in Entries(xs)
    ensures forall e :: e in xs ==> e.path in NoteAll(map[], xs)
    ensures forall e :: e in xs && e.fieldType.Some? ==> NoteAll(map[], xs)[e.path].Some?
  {
    if xs != [] {
      var n := |xs| - 1;
      NotedType(xs[..n]);
      assert xs == xs[..n] + [xs[n]];
      assert Entries(xs) == Entries(xs[..n]) + {xs[n]};
    }
  }

  /** No path has two different determined types. */
  ghost predicate OneTypePerPath(entries: set<FieldEntry>) {
    forall e, f :: e in entries && f in entries && e.path == f.path && e.fieldType.Some? && f.fieldType.Some?
      ==> e.fieldType == f.fieldType
  }

  ghost predicate OrderIndependent(entries: set<FieldEntry>) {
    forall xs, ys :: Entries(xs) == entries && Entries(ys) == entries ==> NoteAll(map[], xs) == NoteAll(map[], ys)
  }

  lemma SameContract(xs: seq<FieldEntry>, ys: seq<FieldEntry>)
    requires Entries(xs) == Entries(ys) && OneTypePerPath(Entries(xs))
    ensures NoteAll(map[], xs) == NoteAll(map[], ys)
  {
    NotedType(xs);
    NotedType(ys);
    var a, b := NoteAll(map[], xs), NoteAll(map[], ys);
    forall p | p in a
      ensures p in b && b[p] == a[p]
    {
      assert FieldEntry(p, a[p]) in Entries(ys);
      assert FieldEntry(p, b[p]) in Entries(xs);
    }
    forall p | p in b
      ensures p in a
    {
      assert FieldEntry(p, b[p]) in Entries(xs);
    }
  }

  lemma {:induction false} FirstTypeStays(e: FieldEntry, xs: seq<FieldEntry>)
    requires e.fieldType.Some?
    ensures e.path in NoteAll(map[], [e] + xs) && NoteAll(map[], [e] + xs)[e.path] == e.fieldType
  {
    var all := [e] + xs;
    if xs == [] {
      assert all[..0] == [];
      assert NoteAll(map[], all[..0]) == map[];
    } else {
      assert all[..|all| - 1] == [e] + xs[..|xs| - 1];
      FirstTypeStays(e, xs[..|xs| - 1]);
    }
  }

  /** Flattened entries decide the contract, in any order and repetition, exactly when no path has two types. */
  lemma DecidedIffOneTypePerPath(entries: set<FieldEntry>)
    ensures OrderIndependent(entries) <==> OneTypePerPath(entries)
  {
    if OneTypePerPath(entries) {
      forall xs, ys | Entries(xs) == entries && Entries(ys) == entries
        ensures NoteAll(map[], xs) == NoteAll(map[], ys)
      {
        SameContract(xs, ys);
      }
    } else {
      var e, f :| e in entries && f in entries && e.path == f.path && e.fieldType.Some? && f.fieldType.Some?
                  && e.fieldType != f.fieldType;
      var rest := Collections.Enumerate(entries);
      assert Entries([e] + rest) == entries && Entries([f] + rest) == entries;
      FirstTypeStays(e, rest);
      FirstTypeStays(f, rest);
    }
  }

  // ----- Permuting keys -----

  /** The payloads differ only in the order of object keys, at any depth. */
  ghost predicate Reordered(p: Json, q: Json)
    decreases p
  {
    match p
    case JObject(ms) => q.JObject? && exists f, g :: ReorderedBy(ms, q.entries, f, g)
    case JArray(items) =>
      q.JArray? && |items| == |q.items| && forall i :: 0 <= i < |items| ==> Reordered(items[i], q.items[i])
    case _ => p == q
  }

  /** `f` and `g` are a permutation of the first `n` numbers and its inverse. */
  predicate Permutation(f: seq<nat>, g: seq<nat>, n: nat) {
    && |f| == |g| == n
    && (forall i :: 0 <= i < n ==> f[i] < n && g[f[i]] == i)
    && (forall j :: 0 <= j < n ==> g[j] < n && f[g[j]] == j)
  }

  /** The i-th member on the left is the f[i]-th on the right. */
  ghost predicate ReorderedBy(ms: seq<Member>, ns: seq<Member>, f: seq<nat>, g: seq<nat>)
    decreases ms, 1
  {
    |ns| == |ms| && Permutation(f, g, |ms|) && forall i :: 0 <= i < |ms| ==> ReorderedMember(ms[i], ns[f[i]])
  }

  ghost predicate ReorderedMember(m: Member, n: Member)
    decreases m
  {
    m.key == n.key && Reordered(m.value, n.value)
  }

  lemma {:induction false} FlattenMembersEntries(ms: seq<Member>, prefix: string, e: FieldEntry)
    ensures e in FlattenMembers(ms, prefix) <==> exists i :: 0 <= i < |ms| && e in FlattenMember(ms[i], prefix)
  {
    if ms != [] {
      FlattenMembersEntries(ms[1..], prefix, e);
      if e in FlattenMembers(ms[1..], prefix) {
        var i :| 0 <= i < |ms[1..]| && e in FlattenMember(ms[1..][i], prefix);
        assert ms[i + 1] == ms[1..][i];
      }
      if i :| 0 <= i < |ms| && e in FlattenMember(ms[i], prefix) {
        assert i > 0 ==> ms[1..][i - 1] == ms[i];
      }
    }
  }

  /** Reordering keys does not change which entries a payload flattens to. */
  lemma {:induction false} ReorderedFlattens(p: Json, q: Json, prefix: string, e: FieldEntry)
    requires Reordered(p, q)
    ensures e in Flatten(p, prefix) <==> e in Flatten(q, prefix)
    decreases p, 2
  {
    match p
    case JObject(ms) =>
      var f, g :| ReorderedBy(ms, q.entries, f, g);
      ReorderedMembersFlatten(ms, q.entries, f, g, prefix, e);
    case JArray(items) =>
      if items != [] {
        ReorderedFlattens(items[0], q.items[0], prefix, e);
      }
    case _ =>
  }

  lemma ReorderedMembersFlatten(ms: seq<Member>, ns: seq<Member>, f: seq<nat>, g: seq<nat>, prefix: string, e: FieldEntry)
    requires ReorderedBy(ms, ns, f, g)
    ensures e in FlattenMembers(ms, prefix) <==> e in FlattenMembers(ns, prefix)
    decreases ms, 1
  {
    FlattenMembersEntries(ms, prefix, e);
    FlattenMembersEntries(ns, prefix, e);
    if i :| 0 <= i < |ms| && e in FlattenMember(ms[i], prefix) {
      ReorderedMemberFlattens(ms[i], ns[f[i]], prefix, e);
    }
    if j :| 0 <= j < |ns| && e in FlattenMember(ns[j], prefix) {
      ReorderedMemberFlattens(ms[g[j]], ns[f[g[j]]], prefix, e);
    }
  }

  lemma ReorderedMemberFlattens(m: Member, n: Member, prefix: string, e: FieldEntry)
    requires ReorderedMember(m, n)
    ensures e in FlattenMember(m, prefix) <==> e in FlattenMember(n, prefix)
    decreases m, 0
  {
    var path := ChildPath(prefix, m.key);
    match m.value
    case JObject(_) => ReorderedFlattens(m.value, n.value, path, e);
    case JArray(items) =>
      if items != [] {
        ReorderedFlattens(items[0], n.value.items[0], path + "[]", e);
      }
    case _ =>
  }

  lemma ReorderedEntries(p: Json, q: Json, prefix: string)
    requires Reordered(p, q)
    ensures Entries(Flatten(p, prefix)) == Entries(Flatten(q, prefix))
  {
    var xs, ys := Flatten(p, prefix), Flatten(q, prefix);
    forall e
      ensures e in xs <==> e in ys
    {
      ReorderedFlattens(p, q, prefix, e);
    }
  }

  /** Permuting object keys at any depth leaves the contract alone when no flattened path has two types. */
  lemma ContractIgnoresKeyOrder(p: Json, q: Json)
    requires Reordered(p, q) && OneTypePerPath(Entries(Flatten(p, "")))
    ensures ContractOf(p) == ContractOf(q)
  {
    ReorderedEntries(p, q, "");
    SameContract(Flatten(p, ""), Flatten(q, ""));
  }

  // ----- Two types of one path -----

  /** The first determined type of a path. */
  function KnownType(xs: seq<FieldEntry>, path: string): FieldType {
    if xs == [] then None
    else if xs[0].path == path && xs[0].fieldType.Some? then xs[0].fieldType
    else KnownType(xs[1..], path)
  }

  lemma {:induction false} KnownTypeAppend(xs: seq<FieldEntry>, ys: seq<FieldEntry>, path: string)
    ensures KnownType(xs + ys, path) == if KnownType(xs, path).Some? then KnownType(xs, path) else KnownType(ys, path)
  {
    if xs == [] {
      assert xs + ys == ys;
    } else {
      assert (xs + ys)[1..] == xs[1..] + ys;
      KnownTypeAppend(xs[1..], ys, path);
    }
  }

  /** The contract gives every path its first determined type. */
  lemma {:induction false} NotedIsFirstKnown(xs: seq<FieldEntry>, path: string)
    ensures path in NoteAll(map[], xs) ==> NoteAll(map[], xs)[path] == KnownType(xs, path)
    ensures path !in NoteAll(map[], xs) ==> KnownType(xs, path) == None
  {
    if xs != [] {
      var n := |xs| - 1;
      NotedIsFirstKnown(xs[..n], path);
      KnownTypeAppend(xs[..n], [xs[n]], path);
      assert xs == xs[..n] + [xs[n]] && [xs[n]][1..] == [];
    }
  }

  /** Below a prefix all paths are longer than it. */
  lemma {:induction false} PathsAreLonger(payload: Json, prefix: string, e: FieldEntry)
    requires e in Flatten(payload, prefix) && prefix != ""
    ensures |e.path| > |prefix|
    decreases payload, 1
  {
    match payload
    case JObject(ms) =>
      FlattenMembersEntries(ms, prefix, e);
      var i :| 0 <= i < |ms| && e in FlattenMember(ms[i], prefix);
      MemberPathsAreLonger(ms[i], prefix, e);
    case JArray(items) => PathsAreLonger(items[0], prefix, e);
    case _ =>
  }

  lemma MemberPathsAreLonger(m: Member, prefix: string, e: FieldEntry)
    requires e in FlattenMember(m, prefix) && prefix != ""
    ensures |e.path| > |prefix|
    decreases m, 0
  {
    var path := ChildPath(prefix, m.key);
    match m.value
    case JObject(_) => PathsAreLonger(m.value, path, e);
    case JArray(items) =>
      if e != FieldEntry(path, Some("array")) {
        PathsAreLonger(items[0], path + "[]", e);
      }
    case _ =>
  }

  lemma {:induction false} ReorderedSelf(p: Json)
    ensures Reordered(p, p)
    decreases p, 2
  {
    match p
    case JObject(ms) => MembersSelf(ms);
    case JArray(items) =>
      forall i | 0 <= i < |items|
        ensures Reordered(items[i], items[i])
      {
        ReorderedSelf(items[i]);
      }
    case _ =>
  }

  lemma MembersSelf(ms: seq<Member>)
    ensures var same := seq(|ms|, i requires 0 <= i < |ms| => i); ReorderedBy(ms, ms, same, same)
    decreases ms, 1
  {
    forall i | 0 <= i < |ms|
      ensures ReorderedMember(ms[i], ms[i])
    {
      MemberSelf(ms[i]);
    }
  }

  lemma MemberSelf(m: Member)
    ensures ReorderedMember(m, m)
    decreases m, 0
  {
    ReorderedSelf(m.value);
  }

  /** Reordering the first item reorders the array. */
  lemma FirstReordered(items: seq<Json>, first: Json)
    requires items != [] && Reordered(items[0], first)
    ensures Reordered(JArray(items), JArray(items[0 := first]))
  {
    forall i | 0 < i < |items|
      ensures Reordered(items[i], items[i])
    {
      ReorderedSelf(items[i]);
    }
  }

  /** Some order of the keys lets a determined entry decide the type of its path. */
  lemma {:induction false} BroughtFirst(p: Json, prefix: string, e: FieldEntry) returns (q: Json)
    requires e in Flatten(p, prefix) && e.fieldType.Some?
    ensures Reordered(p, q) && KnownType(Flatten(q, prefix), e.path) == e.fieldType
    decreases p, 1
  {
    match p
    case JObject(ms) =>
      FlattenMembersEntries(ms, prefix, e);
      var i :| 0 <= i < |ms| && e in FlattenMember(ms[i], prefix);
      var m := MemberBroughtFirst(ms[i], prefix, e);
      var ns := [m] + ms[..i] + ms[i + 1..];
      q := JObject(ns);
      MovedToFront(ms, i, m, ns);
      FirstMemberDecides(ns, prefix, e);
    case JArray(items) =>
      var first := BroughtFirst(items[0], prefix, e);
      q := JArray(items[0 := first]);
      FirstReordered(items, first);
    case _ =>
  }

  lemma FirstMemberDecides(ns: seq<Member>, prefix: string, e: FieldEntry)
    requires ns != [] && e.fieldType.Some? && KnownType(FlattenMember(ns[0], prefix), e.path) == e.fieldType
    ensures KnownType(Flatten(JObject(ns), prefix), e.path) == e.fieldType
  {
    KnownTypeAppend(FlattenMember(ns[0], prefix), FlattenMembers(ns[1..], prefix), e.path);
  }

  lemma MemberBroughtFirst(m: Member, prefix: string, e: FieldEntry) returns (n: Member)
    requires e in FlattenMember(m, prefix) && e.fieldType.Some?
    ensures ReorderedMember(m, n) && KnownType(FlattenMember(n, prefix), e.path) == e.fieldType
    decreases m, 0
  {
    var path := ChildPath(prefix, m.key);
    n := m;
    MemberSelf(m);
    match m.value
    case JObject(_) =>
      var value := BroughtFirst(m.value, path, e);
      n := Member(m.key, value);
    case JArray(items) =>
      if e != FieldEntry(path, Some("array")) {
        var first := BroughtFirst(items[0], path + "[]", e);
        n := Member(m.key, JArray(items[0 := first]));
        FirstReordered(items, first);
        PathsAreLonger(items[0], path + "[]", e);
        BelowArray(n, items[0 := first], prefix, e);
      }
    case _ =>
  }

  /** The entry of an array itself does not decide a longer path. */
  lemma BelowArray(n: Member, items: seq<Json>, prefix: string, e: FieldEntry)
    requires n.value == JArray(items) && items != [] && |e.path| > |ChildPath(prefix, n.key)|
    ensures KnownType(FlattenMember(n, prefix), e.path) == KnownType(Flatten(items[0], ChildPath(prefix, n.key) + "[]"), e.path)
  {
    var path := ChildPath(prefix, n.key);
    var all, below := FlattenMember(n, prefix), Flatten(items[0], path + "[]");
    assert all == [FieldEntry(path, Some("array"))] + below;
    assert all[1..] == below;
  }

  lemma MovedToFront(ms: seq<Member>, i: nat, m: Member, ns: seq<Member>)
    requires i < |ms| && ReorderedMember(ms[i], m) && ns == [m] + ms[..i] + ms[i + 1..]
    ensures Reordered(JObject(ms), JObject(ns))
  {
    var n := |ms|;
    var f := seq(n, k requires 0 <= k < n => if k == i then 0 else if k < i then k + 1 else k);
    var g := seq(n, j requires 0 <= j < n => if j == 0 then i else if j <= i then j - 1 else j);
    forall k | 0 <= k < n
      ensures ReorderedMember(ms[k], ns[f[k]])
    {
      MemberSelf(ms[k]);
      assert ns[f[k]] == if k == i then m else ms[k];
    }
    assert ReorderedBy(ms, ns, f, g);
  }

  /** Every order of the keys, at any depth, gives the same contract. */
  ghost predicate KeyOrderIsIrrelevant(p: Json) {
    forall q :: Reordered(p, q) ==> ContractOf(q) == ContractOf(p)
  }

  /** The order of keys is irrelevant for exactly the payloads that flatten no path to two types. */
  lemma KeyOrderIsIrrelevantIff(p: Json)
    ensures KeyOrderIsIrrelevant(p) <==> OneTypePerPath(Entries(Flatten(p, "")))
  {
    if OneTypePerPath(Entries(Flatten(p, ""))) {
      forall q | Reordered(p, q)
        ensures ContractOf(q) == ContractOf(p)
      {
        ContractIgnoresKeyOrder(p, q);
      }
    } else {
      var entries := Entries(Flatten(p, ""));
      var e, f :| e in entries && f in entries && e.path == f.path && e.fieldType.Some? && f.fieldType.Some?
                  && e.fieldType != f.fieldType;
      var q := BroughtFirst(p, "", e);
      var r := BroughtFirst(p, "", f);
      NotedIsFirstKnown(Flatten(q, ""), e.path);
      NotedIsFirstKnown(Flatten(r, ""), e.path);
    }
  }

  // ----- Comparing contracts -----

  datatype Finding =
    | MissingField(path: string, declared: FieldType)
    | UndeclaredField(path: string, observed: FieldType)
    | TypeChanged(path: string, declared: FieldType, observed: FieldType)

  /** Python's order on strings. */
  predicate Less(a: string, b: string) {
    b != "" && (a == "" || a[0] < b[0] || (a[0] == b[0] && Less(a[1..], b[1..])))
  }

  lemma {:induction false} LessIsTotal(a: string, b: string)
    ensures Less(a, b) || Less(b, a) || a == b
    ensures !(Less(a, b) && Less(b, a)) && !Less(a, a)
    decreases |a|
  {
    if a != "" && b != "" {
      LessIsTotal(a[1..], b[1..]);
      assert a == [a[0]] + a[1..] && b == [b[0]] + b[1..];
    }
    if a != "" {
      LessIsTotal(a[1..], a[1..]);
    }
  }

  lemma {:induction false} LessIsTransitive(a: string, b: string, c: string)
    requires Less(a, b) && Less(b, c)
    ensures Less(a, c)
    decreases |a|
  {
    if a != "" && a[0] == b[0] == c[0] {
      LessIsTransitive(a[1..], b[1..], c[1..]);
    }
  }

  predicate Increasing(paths: seq<string>) {
    forall i, j :: 0 <= i < j < |paths| ==> Less(paths[i], paths[j])
  }

  method InsertPath(path: string, sorted: seq<string>) returns (r: seq<string>)
    requires Increasing(sorted) && path !in sorted
    ensures Increasing(r) && |r| == |sorted| + 1
    ensures forall p :: p in r <==> p == path || p in sorted
  {
    var i := 0;
    while i < |sorted| && Less(sorted[i], path)
      invariant 0 <= i <= |sorted|
      invariant forall k :: 0 <= k < i ==> Less(sorted[k], path)
    {
      i := i + 1;
    }
    forall k | i <= k < |sorted|
      ensures Less(path, sorted[k])
    {
      LessIsTotal(path, sorted[i]);
      assert sorted[i] in sorted;
      if k > i {
        LessIsTransitive(path, sorted[i], sorted[k]);
      }
    }
    r := sorted[..i] + [path] + sorted[i..];
    assert sorted == sorted[..i] + sorted[i..];
  }

  method SortedPaths(paths: set<string>) returns (r: seq<string>)
    ensures Increasing(r) && forall p :: p in r <==> p in paths
    ensures forall i, j :: 0 <= i < j < |r| ==> r[i] != r[j]
  {
    r := [];
    var rest := paths;
    while rest != {}
      invariant rest <= paths && Increasing(r)
      invariant forall p :: p in r <==> p in paths - rest
      decreases |rest|
    {
      var p :| p in rest;
      r := InsertPath(p, r);
      rest := rest - {p};
    }
    forall i, j | 0 <= i < j < |r|
      ensures r[i] != r[j]
    {
      LessIsTotal(r[i], r[j]);
    }
  }

  /** The part of a contract that the first paths of a list name. */
  ghost function Part(c: Contract, paths: seq<string>): Contract {
    map p | p in c && p in paths :: c[p]
  }

  lemma PartOneMore(c: Contract, paths: seq<string>, i: nat)
    requires i < |paths| && paths[i] in c && forall j, k :: 0 <= j < k < |paths| ==> paths[j] != paths[k]
    ensures paths[i] !in Part(c, paths[..i])
    ensures Part(c, paths[..i + 1]) == Part(c, paths[..i])[paths[i] := c[paths[i]]]
  {
    assert paths[..i + 1] == paths[..i] + [paths[i]];
  }

  lemma PartIsWhole(c: Contract, paths: seq<string>)
    requires forall p :: p in c ==> p in paths
    ensures Part(c, paths[..|paths|]) == c
  {
    assert paths[..|paths|] == paths;
  }

  /** The finding at a path where the contracts differ. */
  function FindingAt(declared: Contract, observed: Contract, path: string): Finding
    requires path in declared || path in observed
  {
    if path !in observed then MissingField(path, declared[path])
    else if path !in declared then UndeclaredField(path, observed[path])
    else TypeChanged(path, declared[path], observed[path])
  }

  /** The contracts say different things about the path. */
  predicate Differ(declared: Contract, observed: Contract, path: string) {
    if path in declared && path in observed then declared[path] != observed[path]
    else path in declared || path in observed
  }

  predicate Ordered(findings: seq<Finding>) {
    forall i, j :: 0 <= i < j < |findings| ==> Less(findings[i].path, findings[j].path)
  }

  /** Exactly one finding per differing path, with paths strictly increasing. */
  ghost predicate IsDiff(declared: Contract, observed: Contract, findings: seq<Finding>) {
    && Ordered(findings)
    && (forall i :: 0 <= i < |findings| ==>
          Differ(declared, observed, findings[i].path) && findings[i] == FindingAt(declared, observed, findings[i].path))
    && (forall p :: Differ(declared, observed, p) ==> FindingAt(declared, observed, p) in findings)
  }

  function FindingsOver(declared: Contract, observed: Contract, paths: seq<string>): seq<Finding> {
    if paths == [] then []
    else
      var path := paths[|paths| - 1];
      FindingsOver(declared, observed, paths[..|paths| - 1])
      + if Differ(declared, observed, path) then [FindingAt(declared, observed, path)] else []
  }

  lemma {:induction false} FindingsOverMembers(declared: Contract, observed: Contract, paths: seq<string>)
    ensures var fs := FindingsOver(declared, observed, paths);
      && (forall f :: f in fs ==>
            f.path in paths && Differ(declared, observed, f.path) && f == FindingAt(declared, observed, f.path))
      && (forall p :: p in paths && Differ(declared, observed, p) ==> FindingAt(declared, observed, p) in fs)
  {
    if paths != [] {
      var n := |paths| - 1;
      FindingsOverMembers(declared, observed, paths[..n]);
      assert paths == paths[..n] + [paths[n]];
    }
  }

  lemma {:induction false} FindingsOverIncrease(declared: Contract, observed: Contract, paths: seq<string>)
    requires Increasing(paths)
    ensures Ordered(FindingsOver(declared, observed, paths))
  {
    if paths != [] {
      var n := |paths| - 1;
      FindingsOverIncrease(declared, observed, paths[..n]);
      FindingsOverMembers(declared, observed, paths[..n]);
      assert forall p :: p in paths[..n] ==> Less(p, paths[n]);
      var before, all := FindingsOver(declared, observed, paths[..n]), FindingsOver(declared, observed, paths);
      assert forall i :: 0 <= i < |before| ==> before[i] in before && all[i] == before[i];
    }
  }

  lemma FindingsOverAll(declared: Contract, observed: Contract, paths: seq<string>)
    requires Increasing(paths) && forall p :: p in paths <==> p in declared || p in observed
    ensures IsDiff(declared, observed, FindingsOver(declared, observed, paths))
  {
    var fs := FindingsOver(declared, observed, paths);
    FindingsOverMembers(declared, observed, paths);
    FindingsOverIncrease(declared, observed, paths);
    assert forall i :: 0 <= i < |fs| ==> fs[i] in fs;
  }

  /** `contract_diff` */
  method ContractDiff(declared: Contract, observed: Contract) returns (findings: seq<Finding>)
    ensures IsDiff(declared, observed, findings)
  {
    var paths := SortedPaths(declared.Keys + observed.Keys);
    findings := [];
    for i := 0 to |paths|
      invariant findings == FindingsOver(declared, observed, paths[..i])
    {
      var path := paths[i];
      assert path in paths;
      assert paths[..i + 1][..i] == paths[..i];
      if path !in observed {
        findings := findings + [MissingField(path, declared[path])];
      } else if path !in declared {
        findings := findings + [UndeclaredField(path, observed[path])];
      } else if declared[path] != observed[path] {
        findings := findings + [TypeChanged(path, declared[path], observed[path])];
      }
    }
    assert paths[..|paths|] == paths;
    FindingsOverAll(declared, observed, paths);
  }

  // ----- The diff is a patch -----

  function Patch(c: Contract, f: Finding): Contract {
    match f
    case MissingField(path, _) => c - {path}
    case UndeclaredField(path, observed) => c[path := observed]
    case TypeChanged(path, _, observed) => c[path := observed]
  }

  function PatchAll(c: Contract, findings: seq<Finding>): Contract {
    if findings == [] then c
    else Patch(PatchAll(c, findings[..|findings| - 1]), findings[|findings| - 1])
  }

  /** What a patched contract says about a path: the observed side if a finding names it, else the old side. */
  lemma {:induction false} PatchedPath(declared: Contract, observed: Contract, findings: seq<Finding>, p: string)
    requires forall i :: 0 <= i < |findings| ==>
      Differ(declared, observed, findings[i].path) && findings[i] == FindingAt(declared, observed, findings[i].path)
    ensures var r := PatchAll(declared, findings);
      if exists i :: 0 <= i < |findings| && findings[i].path == p
      then (p in r <==> p in observed) && (p in r ==> r[p] == observed[p])
      else (p in r <==> p in declared) && (p in r ==> r[p] == declared[p])
  {
    if findings != [] {
      var n := |findings| - 1;
      PatchedPath(declared, observed, findings[..n], p);
      if i :| 0 <= i < |findings[..n]| && findings[..n][i].path == p {
        assert findings[i].path == p;
      }
    }
  }

  /** Applying the findings to the declared contract yields the observed one. */
  lemma DiffIsPatch(declared: Contract, observed: Contract, findings: seq<Finding>)
    requires IsDiff(declared, observed, findings)
    ensures PatchAll(declared, findings) == observed
  {
    var r := PatchAll(declared, findings);
    forall p
      ensures (p in r <==> p in observed) && (p in r ==> r[p] == observed[p])
    {
      PatchedPath(declared, observed, findings, p);
      if Differ(declared, observed, p) {
        assert FindingAt(declared, observed, p) in findings;
      }
    }
  }

  /** There is nothing to find exactly when the contracts are equal. */
  lemma DiffIsEmptyIffEqual(declared: Contract, observed: Contract, findings: seq<Finding>)
    requires IsDiff(declared, observed, findings)
    ensures findings == [] <==> declared == observed
  {
    DiffIsPatch(declared, observed, findings);
  }

  function Mirror(f: Finding): Finding {
    match f
    case MissingField(path, declared) => UndeclaredField(path, declared)
    case UndeclaredField(path, observed) => MissingField(path, observed)
    case TypeChanged(path, declared, observed) => TypeChanged(path, observed, declared)
  }

  function MirrorAll(findings: seq<Finding>): (r: seq<Finding>)
    ensures |r| == |findings| && forall i :: 0 <= i < |findings| ==> r[i] == Mirror(findings[i])
  {
    seq(|findings|, i requires 0 <= i < |findings| => Mirror(findings[i]))
  }

  /** Swapping the contracts mirrors the kinds of the findings and keeps their order. */
  lemma DiffMirrors(declared: Contract, observed: Contract, findings: seq<Finding>)
    requires IsDiff(declared, observed, findings)
    ensures IsDiff(observed, declared, MirrorAll(findings))
  {
    var mirrored := MirrorAll(findings);
    forall p | Differ(observed, declared, p)
      ensures FindingAt(observed, declared, p) in mirrored
    {
      assert FindingAt(declared, observed, p) in findings;
      var i :| 0 <= i < |findings| && findings[i] == FindingAt(declared, observed, p);
      assert mirrored[i] == FindingAt(observed, declared, p);
    }
  }

  /** Ordered findings that agree up to `n` and have the same members agree at `n`. */
  lemma SameNext(xs: seq<Finding>, ys: seq<Finding>, n: nat)
    requires Ordered(xs) && Ordered(ys) && n < |xs| && n <= |ys| && xs[..n] == ys[..n]
    requires forall f :: f in xs <==> f in ys
    ensures n < |ys| && xs[n] == ys[n]
  {
    assert forall k :: 0 <= k < n ==> xs[k] == xs[..n][k] == ys[k];
    var x := xs[n];
    assert x in ys;
    var j :| 0 <= j < |ys| && ys[j] == x;
    LessIsTotal(x.path, x.path);
    assert n <= j;
    var y := ys[n];
    assert y in xs;
    var i :| 0 <= i < |xs| && xs[i] == y;
    LessIsTotal(y.path, y.path);
    LessIsTotal(x.path, y.path);
  }

  lemma {:induction false} SameFindings(xs: seq<Finding>, ys: seq<Finding>, n: nat)
    requires Ordered(xs) && Ordered(ys) && n <= |xs| && forall f :: f in xs <==> f in ys
    ensures n <= |ys| && xs[..n] == ys[..n]
  {
    if n > 0 {
      SameFindings(xs, ys, n - 1);
      SameNext(xs, ys, n - 1);
      assert xs[..n] == xs[..n - 1] + [xs[n - 1]] && ys[..n] == ys[..n - 1] + [ys[n - 1]];
    }
  }

  /** The contracts determine their findings. */
  lemma DiffIsUnique(declared: Contract, observed: Contract, xs: seq<Finding>, ys: seq<Finding>)
    requires IsDiff(declared, observed, xs) && IsDiff(declared, observed, ys)
    ensures xs == ys
  {
    SameFindings(xs, ys, |xs|);
    SameFindings(ys, xs, |ys|);
    assert xs[..|xs|] == xs && ys[..|ys|] == ys;
  }
}
