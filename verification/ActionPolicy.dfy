/**
 * Which replacements an action may carry, and the checks on a plan's metadata.
 *
 * Only `selector_fix` leaves the end of a field path open. Every other action
 * fixes the last key of the path, so it can never write the name of a list item.
 */
module ActionPolicy {
  import opened Wrappers
  import opened FieldPath
  import opened Manifest
  import opened Text
  import RepositoryPath

  datatype Replacement = Replacement(fieldPath: string, current: Value, desired: Value)

  /** The action types a plan may have; `OtherAction` is any other text. */
  datatype ActionType =
    | OomMemory | ImageRollback | ImageTagFix | ReplicaScale | ProbeFix | SelectorFix | OtherAction(text: string)

  // ----- Texts -----

  predicate EndsWith(s: string, suffix: string) {
    |suffix| <= |s| && s[|s| - |suffix|..] == suffix
  }

  predicate StartsWith(s: string, prefix: string) {
    prefix <= s
  }

  /** A non-blank string. */
  predicate IsWord(v: Value) {
    v.Leaf? && v.scalar.Str? && !IsBlank(v.scalar.s)
  }

  predicate IsInt(v: Value) {
    v.Leaf? && v.scalar.Int?
  }

  // ----- Memory quantities -----

  const MEMORY_CAP := 4 * 1024 * 1024 * 1024

  predicate IsDigit(c: char) {
    '0' <= c <= '9'
  }

  function Decimal(digits: string): nat
    requires forall i :: 0 <= i < |digits| ==> IsDigit(digits[i])
  {
    if digits == "" then 0
    else
      var last := digits[|digits| - 1];
      assert IsDigit(last);
      10 * Decimal(digits[..|digits| - 1]) + (last as int - '0' as int)
  }

  function UnitFactor(unit: string): Option<nat> {
    if unit == "Ki" then Some(1024)
    else if unit == "Mi" then Some(1024 * 1024)
    else if unit == "Gi" then Some(1024 * 1024 * 1024)
    else None
  }

  /** `memory_quantity_bytes` */
  function MemoryBytes(v: Value): Option<nat> {
    if !(v.Leaf? && v.scalar.Str? && |v.scalar.s| >= 3) then None
    else
      var digits, unit := v.scalar.s[..|v.scalar.s| - 2], v.scalar.s[|v.scalar.s| - 2..];
      if UnitFactor(unit).None? || exists i :: 0 <= i < |digits| && !IsDigit(digits[i]) then None
      else Some(Decimal(digits) * UnitFactor(unit).value)
  }

  predicate MemoryIncreasesWithinCap(current: Value, desired: Value) {
    var c, d := MemoryBytes(current), MemoryBytes(desired);
    c.Some? && d.Some? && c.value < d.value <= MEMORY_CAP
  }

  // ----- The allowlist -----

  /** `action_allows_replacement` */
  predicate Allows(action: ActionType, r: Replacement) {
    var path := r.fieldPath;
    match action
    case ImageRollback => AllowsImage(r)
    case ImageTagFix => AllowsImage(r)
    case ReplicaScale =>
      && path == "spec.replicas" && IsInt(r.current) && IsInt(r.desired)
      && 1 <= r.current.scalar.i < r.desired.scalar.i <= 10
    case OomMemory =>
      && (EndsWith(path, ".resources.requests.memory") || EndsWith(path, ".resources.limits.memory"))
      && MemoryIncreasesWithinCap(r.current, r.desired)
    case ProbeFix => AllowsProbe(r)
    case SelectorFix =>
      && (StartsWith(path, "spec.selector.matchLabels.") || StartsWith(path, "spec.template.metadata.labels."))
      && IsWord(r.current) && IsWord(r.desired)
    case OtherAction(_) => false
  }

  predicate AllowsImage(r: Replacement) {
    EndsWith(r.fieldPath, ".image") && IsWord(r.current) && IsWord(r.desired)
  }

  predicate AllowsProbe(r: Replacement) {
    if EndsWith(r.fieldPath, ".timeoutSeconds") then
      IsInt(r.current) && IsInt(r.desired) && 1 <= r.current.scalar.i < r.desired.scalar.i <= 30
    else if EndsWith(r.fieldPath, ".httpGet.port") then IsInt(r.desired) && 1 <= r.desired.scalar.i <= 65535
    else if EndsWith(r.fieldPath, ".httpGet.path") then
      r.desired.Leaf? && r.desired.scalar.Str? && StartsWith(r.desired.scalar.s, "/")
    else false
  }

  // ----- What each action allows -----

  function PowerOfTen(n: nat): nat {
    if n == 0 then 1 else 10 * PowerOfTen(n - 1)
  }

  predicate AllDigits(digits: string) {
    forall i :: 0 <= i < |digits| ==> '0' <= digits[i] <= '9'
  }

  /** The value of a row of digits by their places. */
  function Places(digits: string): nat
    requires AllDigits(digits)
  {
    if digits == "" then 0
    else (digits[0] as int - '0' as int) * PowerOfTen(|digits| - 1) + Places(digits[1..])
  }

  lemma TimesTen(a: int, b: int)
    ensures a * (10 * b) == 10 * (a * b)
  {
  }

  lemma {:induction false} PlacesOfLast(digits: string)
    requires AllDigits(digits) && digits != ""
    ensures var n := |digits| - 1; Places(digits) == 10 * Places(digits[..n]) + (digits[n] as int - '0' as int)
  {
    var n := |digits| - 1;
    if n > 0 {
      var first, middle := digits[0] as int - '0' as int, digits[..n][1..];
      PlacesOfLast(digits[1..]);
      assert digits[1..][..n - 1] == middle && digits[1..][n - 1] == digits[n];
      assert Places(digits[..n]) == first * PowerOfTen(n - 1) + Places(middle);
      TimesTen(first, PowerOfTen(n - 1));
    } else {
      assert digits[1..] == "" && digits[..0] == "" && PowerOfTen(0) == 1;
    }
  }

  lemma {:induction false} DecimalIsPlaces(digits: string)
    requires AllDigits(digits)
    ensures Decimal(digits) == Places(digits)
  {
    if digits != "" {
      DecimalIsPlaces(digits[..|digits| - 1]);
      PlacesOfLast(digits);
    }
  }

  /** How many bytes a unit stands for. */
  predicate IsUnit(unit: string, bytes: nat) {
    (unit == "Ki" && bytes == 1024) || (unit == "Mi" && bytes == 1048576) || (unit == "Gi" && bytes == 1073741824)
  }

  /** The value is a row of digits with a unit, in all `bytes`. */
  ghost predicate IsMemoryText(v: Value, digits: string, unit: string, bytes: nat) {
    v == Leaf(Str(digits + unit)) && digits != "" && AllDigits(digits) && exists each :: IsUnit(unit, each) && bytes == Places(digits) * each
  }

  ghost predicate IsMemory(v: Value, bytes: nat) {
    exists digits, unit :: IsMemoryText(v, digits, unit, bytes)
  }

  lemma UnitFactorIff(unit: string, bytes: nat)
    ensures UnitFactor(unit) == Some(bytes) <==> IsUnit(unit, bytes)
    ensures UnitFactor(unit).Some? ==> |unit| == 2
  {
  }

  /** A memory quantity is read as the bytes it stands for, and nothing else is one. */
  lemma MemoryBytesIff(v: Value, bytes: nat)
    ensures MemoryBytes(v) == Some(bytes) <==> IsMemory(v, bytes)
  {
    if MemoryBytes(v) == Some(bytes) {
      var s := v.scalar.s;
      var digits, unit := s[..|s| - 2], s[|s| - 2..];
      MemoryIsRead(v, digits, unit, bytes);
    }
    if IsMemory(v, bytes) {
      var digits, unit :| IsMemoryText(v, digits, unit, bytes);
      MemoryIsRead(v, digits, unit, bytes);
    }
  }

  lemma MemoryIsRead(v: Value, digits: string, unit: string, bytes: nat)
    requires v.Leaf? && v.scalar.Str? && v.scalar.s == digits + unit && |unit| == 2
    ensures MemoryBytes(v) == Some(bytes) <==> IsMemoryText(v, digits, unit, bytes)
  {
    var s := digits + unit;
    assert s[..|s| - 2] == digits && s[|s| - 2..] == unit;
    if AllDigits(digits) {
      DecimalIsPlaces(digits);
    }
    if UnitFactor(unit).Some? {
      UnitFactorIff(unit, UnitFactor(unit).value);
    }
    if each :| IsUnit(unit, each) {
      UnitFactorIff(unit, each);
    }
  }

  lemma EndsWithIff(s: string, suffix: string)
    ensures EndsWith(s, suffix) <==> exists prefix: string :: s == prefix + suffix
  {
    if EndsWith(s, suffix) {
      assert s == s[..|s| - |suffix|] + suffix;
    }
  }

  lemma StartsWithIff(s: string, prefix: string)
    ensures StartsWith(s, prefix) <==> exists rest: string :: s == prefix + rest
  {
    if StartsWith(s, prefix) {
      assert s == prefix + s[|prefix|..];
    }
  }

  /** Scaling raises the number of replicas, to at most ten. */
  lemma ReplicaScaleIff(r: Replacement)
    ensures Allows(ReplicaScale, r) <==>
      exists n, m :: 1 <= n < m <= 10 && r == Replacement("spec.replicas", Leaf(Int(n)), Leaf(Int(m)))
  {
    if Allows(ReplicaScale, r) {
      assert r == Replacement("spec.replicas", Leaf(Int(r.current.scalar.i)), Leaf(Int(r.desired.scalar.i)));
    }
  }

  /** A memory fix raises a memory request or limit, to at most four gibibytes. */
  lemma OomMemoryIff(r: Replacement)
    ensures Allows(OomMemory, r) <==>
      && (exists prefix: string ::
            r.fieldPath == prefix + ".resources.requests.memory" || r.fieldPath == prefix + ".resources.limits.memory")
      && (exists n: nat, m: nat :: IsMemory(r.current, n) && IsMemory(r.desired, m) && n < m <= 4294967296)
  {
    EndsWithIff(r.fieldPath, ".resources.requests.memory");
    EndsWithIff(r.fieldPath, ".resources.limits.memory");
    forall n: nat
      ensures (MemoryBytes(r.current) == Some(n) <==> IsMemory(r.current, n)) && (MemoryBytes(r.desired) == Some(n) <==> IsMemory(r.desired, n))
    {
      MemoryBytesIff(r.current, n);
      MemoryBytesIff(r.desired, n);
    }
  }

  /** The value is a string with a character that is not white space. */
  ghost predicate HasText(v: Value) {
    exists s, i :: v == Leaf(Str(s)) && 0 <= i < |s| && !IsSpace(s[i])
  }

  lemma WordIff(v: Value)
    ensures IsWord(v) <==> HasText(v)
  {
    if IsWord(v) {
      var i :| 0 <= i < |v.scalar.s| && !IsSpace(v.scalar.s[i]);
    }
  }

  /** An image action replaces one image by another. */
  lemma ImageIff(action: ActionType, r: Replacement)
    requires action == ImageRollback || action == ImageTagFix
    ensures Allows(action, r) <==>
      (exists prefix: string :: r.fieldPath == prefix + ".image") && HasText(r.current) && HasText(r.desired)
  {
    EndsWithIff(r.fieldPath, ".image");
    WordIff(r.current);
    WordIff(r.desired);
  }

  /** A selector action replaces one label of the selector or of the pod template by another. */
  lemma SelectorFixIff(r: Replacement)
    ensures Allows(SelectorFix, r) <==>
      && (exists rest: string ::
            r.fieldPath == "spec.selector.matchLabels." + rest || r.fieldPath == "spec.template.metadata.labels." + rest)
      && HasText(r.current) && HasText(r.desired)
  {
    StartsWithIff(r.fieldPath, "spec.selector.matchLabels.");
    StartsWithIff(r.fieldPath, "spec.template.metadata.labels.");
    WordIff(r.current);
    WordIff(r.desired);
  }

  /** Two texts of which neither ends the other do not end the same text. */
  lemma OneSuffix(s: string, a: string, b: string)
    requires |a| <= |b| && b[|b| - |a|..] != a
    ensures !(EndsWith(s, a) && EndsWith(s, b))
  {
    if EndsWith(s, b) {
      ShorterSuffix(s, b, |b| - |a|);
    }
  }

  /** A probe action raises a timeout to at most thirty seconds, or sets a port or a path that can be one. */
  lemma ProbeFixIff(r: Replacement)
    ensures Allows(ProbeFix, r) <==>
      || ((exists prefix: string :: r.fieldPath == prefix + ".timeoutSeconds")
          && exists n, m :: 1 <= n < m <= 30 && r.current == Leaf(Int(n)) && r.desired == Leaf(Int(m)))
      || ((exists prefix: string :: r.fieldPath == prefix + ".httpGet.port")
          && exists m :: 1 <= m <= 65535 && r.desired == Leaf(Int(m)))
      || ((exists prefix: string :: r.fieldPath == prefix + ".httpGet.path") && exists rest :: r.desired == Leaf(Str("/" + rest)))
  {
    EndsWithIff(r.fieldPath, ".timeoutSeconds");
    EndsWithIff(r.fieldPath, ".httpGet.port");
    EndsWithIff(r.fieldPath, ".httpGet.path");
    assert ".timeoutSeconds"[14] == 's' && ".httpGet.port"[12] == 't' && ".httpGet.path"[12] == 'h';
    OneSuffix(r.fieldPath, ".httpGet.port", ".timeoutSeconds");
    OneSuffix(r.fieldPath, ".httpGet.path", ".timeoutSeconds");
    OneSuffix(r.fieldPath, ".httpGet.port", ".httpGet.path");
    if r.desired.Leaf? && r.desired.scalar.Str? {
      StartsWithIff(r.desired.scalar.s, "/");
    }
    IntIff(r.current);
    IntIff(r.desired);
  }

  lemma IntIff(v: Value)
    ensures IsInt(v) <==> exists n :: v == Leaf(Int(n))
  {
    if IsInt(v) {
      assert v == Leaf(Int(v.scalar.i));
    }
  }

  lemma ShorterSuffix(s: string, suffix: string, n: nat)
    requires EndsWith(s, suffix) && n <= |suffix|
    ensures EndsWith(s, suffix[n..])
  {
    assert suffix[n..] == s[|s| - |suffix|..][n..];
  }

  /** A key that can end a path but is neither `name` nor `kind`. */
  predicate PlainKey(key: string) {
    key != "" && key[0] != 'n' && key[0] != 'k' && forall i :: 0 <= i < |key| ==> IsKeyChar(key[i])
  }

  predicate EndsInPlainKey(path: string, key: string) {
    PlainKey(key) && EndsWith(path, "." + key)
  }

  lemma ImageKey(path: string)
    requires EndsWith(path, ".image")
    ensures EndsInPlainKey(path, "image")
  {
    assert "." + "image" == ".image";
  }

  lemma MemoryKey(path: string)
    requires EndsWith(path, ".resources.requests.memory") || EndsWith(path, ".resources.limits.memory")
    ensures EndsInPlainKey(path, "memory")
  {
    assert ".resources.requests.memory"[19..] == "." + "memory";
    assert ".resources.limits.memory"[17..] == "." + "memory";
    if EndsWith(path, ".resources.requests.memory") {
      ShorterSuffix(path, ".resources.requests.memory", 19);
    } else {
      ShorterSuffix(path, ".resources.limits.memory", 17);
    }
  }

  lemma TimeoutKey(path: string)
    requires EndsWith(path, ".timeoutSeconds")
    ensures EndsInPlainKey(path, "timeoutSeconds")
  {
    assert "." + "timeoutSeconds" == ".timeoutSeconds";
  }

  lemma PortKey(path: string)
    requires EndsWith(path, ".httpGet.port")
    ensures EndsInPlainKey(path, "port")
  {
    assert ".httpGet.port"[8..] == "." + "port";
    ShorterSuffix(path, ".httpGet.port", 8);
  }

  lemma PathKey(path: string)
    requires EndsWith(path, ".httpGet.path")
    ensures EndsInPlainKey(path, "path")
  {
    assert ".httpGet.path"[8..] == "." + "path";
    ShorterSuffix(path, ".httpGet.path", 8);
  }

  lemma ReplicasKey()
    ensures EndsInPlainKey("spec.replicas", "replicas")
  {
    assert "spec.replicas"[4..] == "." + "replicas";
  }

  lemma ProbeEndsInKey(r: Replacement)
    requires AllowsProbe(r)
    ensures exists key :: EndsInPlainKey(r.fieldPath, key)
  {
    if EndsWith(r.fieldPath, ".timeoutSeconds") {
      TimeoutKey(r.fieldPath);
    } else if EndsWith(r.fieldPath, ".httpGet.port") {
      PortKey(r.fieldPath);
    } else {
      PathKey(r.fieldPath);
    }
  }

  /** Every action but `selector_fix` fixes the last key of the path. */
  lemma AllowedEndsInKey(action: ActionType, r: Replacement)
    requires Allows(action, r) && action != SelectorFix
    ensures exists key :: EndsInPlainKey(r.fieldPath, key)
  {
    if action.ReplicaScale? {
      ReplicasKey();
    } else if action.OomMemory? {
      MemoryKey(r.fieldPath);
    } else if action.ProbeFix? {
      ProbeEndsInKey(r);
    } else {
      ImageKey(r.fieldPath);
    }
  }

  /** A field path that ends in a plain key has that key as its last segment. */
  lemma EndsInKey(path: string, key: string)
    requires Parse(path) != [] && EndsWith(path, "." + key)
    requires key != "" && forall i :: 0 <= i < |key| ==> IsKeyChar(key[i])
    ensures Parse(path)[|Parse(path)| - 1] == Segment(key, None)
  {
    var parent := path[..|path| - |key| - 1];
    assert path == parent + "." + key;
    var last := [Segment(key, None)];
    assert Print(last) == key;
    ParseOfPrint(last);
    CutFallsOnBoundary(parent, key);
  }

  /** No action but `selector_fix` can write the name of an item that its path selects. */
  lemma AllowedIsNameSafe(action: ActionType, r: Replacement)
    requires Allows(action, r) && action != SelectorFix && Parse(r.fieldPath) != []
    ensures NameSafe(Parse(r.fieldPath))
  {
    AllowedEndsInKey(action, r);
    var key :| EndsInPlainKey(r.fieldPath, key);
    EndsInKey(r.fieldPath, key);
    assert "name"[0] == 'n';
  }

  /** No action but `selector_fix` can write the kind of the manifest. */
  lemma AllowedIsNotKind(action: ActionType, r: Replacement)
    requires Allows(action, r) && action != SelectorFix && Parse(r.fieldPath) != []
    ensures Parse(r.fieldPath) != [Segment("kind", None)]
  {
    AllowedEndsInKey(action, r);
    var key :| EndsInPlainKey(r.fieldPath, key);
    EndsInKey(r.fieldPath, key);
    assert "kind"[0] == 'k';
  }

  // ----- Metadata -----

  predicate IsHex(s: string) {
    forall i :: 0 <= i < |s| ==> '0' <= s[i] <= '9' || 'a' <= s[i] <= 'f'
  }

  predicate IsDigest(s: string) {
    |s| == 71 && StartsWith(s, "sha256:") && IsHex(s[7..])
  }

  predicate IsCommit(s: string) {
    40 <= |s| <= 64 && IsHex(s)
  }

  /** `safe_manifest_path` */
  predicate IsSafePath(s: string) {
    s != "" && s[0] != '/' && '\\' !in s && ".." !in RepositoryPath.Split(s)
  }

  /** A row of lower-case hexadecimal digits. */
  predicate HexDigits(s: string) {
    forall c :: c in s ==> c in "0123456789abcdef"
  }

  lemma HexIff(s: string)
    ensures IsHex(s) <==> HexDigits(s)
  {
    var digits := "0123456789abcdef";
    forall c: char
      ensures c in digits <==> '0' <= c <= '9' || 'a' <= c <= 'f'
    {
      if '0' <= c <= '9' {
        assert digits[c as int - '0' as int] == c;
      } else if 'a' <= c <= 'f' {
        assert digits[c as int - 'a' as int + 10] == c;
      }
    }
    if HexDigits(s) {
      forall i | 0 <= i < |s|
        ensures s[i] in digits
      {
        assert s[i] in s;
      }
    }
  }

  /** A digest is the name of the algorithm and sixty-four hexadecimal digits. */
  lemma DigestIff(s: string)
    ensures IsDigest(s) <==> exists hex :: s == "sha256:" + hex && |hex| == 64 && HexDigits(hex)
  {
    if IsDigest(s) {
      HexIff(s[7..]);
      assert s == "sha256:" + s[7..];
    }
    if hex :| s == "sha256:" + hex && |hex| == 64 && HexDigits(hex) {
      HexIff(hex);
      assert s[7..] == hex;
    }
  }

  /** A commit is forty to sixty-four hexadecimal digits. */
  lemma CommitIff(s: string)
    ensures IsCommit(s) <==> 40 <= |s| <= 64 && HexDigits(s)
  {
    HexIff(s);
  }

  lemma {:induction false} WalkOnlyDown(parts: seq<string>, at: seq<string>)
    requires ".." !in parts
    ensures RepositoryPath.Walk(parts, at).Some? && at <= RepositoryPath.Walk(parts, at).value
    decreases |parts|
  {
    if parts != [] {
      assert parts[0] != "..";
      if parts[0] == "" || parts[0] == "." {
        WalkOnlyDown(parts[1..], at);
      } else {
        WalkOnlyDown(parts[1..], at + [parts[0]]);
      }
    }
  }

  /** A safe path is relative, and following it from any directory of the repository only leads further down. */
  lemma SafePathStaysInside(s: string, at: seq<string>)
    requires IsSafePath(s)
    ensures s != "" && !StartsWith(s, "/") && '\\' !in s
    ensures RepositoryPath.Walk(RepositoryPath.Split(s), at).Some? && at <= RepositoryPath.Walk(RepositoryPath.Split(s), at).value
  {
    WalkOnlyDown(RepositoryPath.Split(s), at);
  }

  /** Every text of plain components without backslashes is a safe path. */
  lemma PlainPathIsSafe(s: string)
    requires RepositoryPath.Inside(s) && '\\' !in s
    ensures IsSafePath(s)
  {
    var parts := RepositoryPath.Split(s);
    forall i | 0 <= i < |parts|
      ensures parts[i] != ".."
    {
      assert RepositoryPath.PlainPart(parts[i]);
    }
    assert RepositoryPath.PlainPart(parts[0]);
    if s[0] == '/' {
      assert false;
    }
  }
}
