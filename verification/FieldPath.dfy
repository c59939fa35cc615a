/**
 * Field paths such as `spec.template.spec.containers[name=api].image`.
 *
 * The source cuts a path at the dots that stand outside brackets, matches every
 * part against one pattern and reports every failure as the empty tuple. The
 * results here say that the accepted strings are exactly the printed forms of
 * valid segment sequences, and that a textual parent prefix always falls on a
 * segment boundary.
 */
module FieldPath {
  import opened Wrappers
  import opened Text

  datatype Segment = Segment(key: string, selected: Option<string>)

  type Path = seq<Segment>

  // ----- Splitting -----

  /** The parts of `current + rest`, read from bracket depth `depth`; `[]` when the brackets are unbalanced. */
  function SplitFrom(rest: string, depth: nat, current: string): seq<string>
    decreases |rest|
  {
    if rest == "" then
      if depth == 0 then [current] else []
    else if rest[0] == '[' then
      SplitFrom(rest[1..], depth + 1, current + [rest[0]])
    else if rest[0] == ']' then
      if depth == 0 then [] else SplitFrom(rest[1..], depth - 1, current + [rest[0]])
    else if rest[0] == '.' && depth == 0 then
      Prepend([current], SplitFrom(rest[1..], 0, ""))
    else
      SplitFrom(rest[1..], depth, current + [rest[0]])
  }

  /** Puts `before` in front of a successful result and keeps a failure a failure. */
  function Prepend<T>(before: seq<T>, after: seq<T>): seq<T> {
    if after == [] then [] else before + after
  }

  /** The scanning loop: one pass with a part start and a bracket depth. */
  method FieldPathParts(value: string) returns (parts: seq<string>)
    ensures parts == SplitFrom(value, 0, "")
  {
    parts := [];
    var start, depth: int, index := 0, 0, 0;
    assert value[0..] == value;
    while index < |value|
      invariant 0 <= start <= index <= |value| && 0 <= depth
      invariant SplitFrom(value, 0, "") == Prepend(parts, SplitFrom(value[index..], depth, value[start..index]))
    {
      assert value[index..][1..] == value[index + 1..];
      assert value[start..index] + [value[index]] == value[start..index + 1];
      if value[index] == '[' {
        depth := depth + 1;
      } else if value[index] == ']' {
        depth := depth - 1;
        if depth < 0 {
          return [];
        }
      } else if value[index] == '.' && depth == 0 {
        parts := parts + [value[start..index]];
        start := index + 1;
        assert value[start..index + 1] == "";
      }
      index := index + 1;
    }
    assert value[index..] == "";
    if depth != 0 {
      return [];
    }
    assert value[start..index] == value[start..];
    parts := parts + [value[start..]];
  }

  // ----- Matching one part -----

  predicate IsKeyChar(c: char) {
    'A' <= c <= 'Z' || 'a' <= c <= 'z' || '0' <= c <= '9' || c == '_' || c == '-'
  }

  const LETTERS := "abcdefghijklmnopqrstuvwxyz"
  const CAPITALS := "ABCDEFGHIJKLMNOPQRSTUVWXYZ"
  const DIGITS := "0123456789"

  lemma LetterIff(c: char)
    ensures c in LETTERS <==> 'a' <= c <= 'z'
  {
    if 'a' <= c <= 'z' {
      assert LETTERS[c as int - 'a' as int] == c;
    }
  }

  lemma CapitalIff(c: char)
    ensures c in CAPITALS <==> 'A' <= c <= 'Z'
  {
    if 'A' <= c <= 'Z' {
      assert CAPITALS[c as int - 'A' as int] == c;
    }
  }

  /** A key is made of letters, digits, underscores and hyphens. */
  lemma KeyCharIff(c: char)
    ensures IsKeyChar(c) <==> c in LETTERS || c in CAPITALS || c in DIGITS || c in "_-"
  {
    LetterIff(c);
    CapitalIff(c);
    if '0' <= c <= '9' {
      assert DIGITS[c as int - '0' as int] == c;
    }
  }

  /** Length of the longest prefix of key characters. */
  function KeyRun(s: string): (n: nat)
    ensures n <= |s|
    ensures forall i :: 0 <= i < n ==> IsKeyChar(s[i])
    ensures n < |s| ==> !IsKeyChar(s[n])
  {
    if s == "" || !IsKeyChar(s[0]) then 0 else 1 + KeyRun(s[1..])
  }

  const SELECTOR_OPEN := "[name="

  /** The segment pattern, together with the rejection of a blank selected name. */
  function MatchSegment(raw: string): Option<Segment> {
    var n := KeyRun(raw);
    var rest := raw[n..];
    if n == 0 then None
    else if rest == "" then Some(Segment(raw, None))
    else if && |rest| >= 8
            && rest[..6] == SELECTOR_OPEN
            && rest[|rest| - 1] == ']'
            && ']' !in rest[6..|rest| - 1]
            && !IsBlank(rest[6..|rest| - 1])
    then Some(Segment(raw[..n], Some(rest[6..|rest| - 1])))
    else None
  }

  function MatchAll(parts: seq<string>): Option<Path> {
    if parts == [] then Some([])
    else
      var head := MatchSegment(parts[0]);
      var tail := MatchAll(parts[1..]);
      if head.None? || tail.None? then None else Some([head.value] + tail.value)
  }

  /** `field_path_segments`: the segments of a path, `[]` when it is not a path. */
  function Parse(value: string): Path {
    var all := MatchAll(SplitFrom(value, 0, ""));
    if all.None? then [] else all.value
  }

  method FieldPathSegments(value: string) returns (segments: Path)
    ensures segments == Parse(value)
  {
    var parts := FieldPathParts(value);
    segments := [];
    var i := 0;
    assert parts[0..] == parts;
    assert MatchAll(parts).Some? ==> [] + MatchAll(parts).value == MatchAll(parts).value;
    while i < |parts|
      invariant 0 <= i <= |parts|
      invariant MatchAll(parts) ==
                var rest := MatchAll(parts[i..]); if rest.None? then None else Some(segments + rest.value)
    {
      assert parts[i..][1..] == parts[i + 1..];
      var matched := MatchSegment(parts[i]);
      if matched.None? {
        return [];
      }
      ghost var rest := MatchAll(parts[i + 1..]);
      if rest.Some? {
        assert segments + ([matched.value] + rest.value) == segments + [matched.value] + rest.value;
      }
      segments := segments + [matched.value];
      i := i + 1;
    }
  }

  // ----- Printing -----

  function PrintSegment(g: Segment): string {
    g.key + if g.selected.None? then "" else SELECTOR_OPEN + g.selected.value + "]"
  }

  function JoinDots(parts: seq<string>): string {
    if parts == [] then ""
    else if |parts| == 1 then parts[0]
    else parts[0] + "." + JoinDots(parts[1..])
  }

  function PrintAll(path: Path): (parts: seq<string>)
    ensures |parts| == |path|
  {
    if path == [] then [] else [PrintSegment(path[0])] + PrintAll(path[1..])
  }

  function Print(path: Path): string {
    JoinDots(PrintAll(path))
  }

  predicate ValidSegment(g: Segment) {
    && g.key != ""
    && (forall i :: 0 <= i < |g.key| ==> IsKeyChar(g.key[i]))
    && (g.selected.Some? ==>
          !IsBlank(g.selected.value) && '[' !in g.selected.value && ']' !in g.selected.value)
  }

  predicate ValidPath(path: Path) {
    path != [] && forall i :: 0 <= i < |path| ==> ValidSegment(path[i])
  }

  // ----- Parsing undoes printing -----

  lemma {:induction false} SkipRun(w: string, rest: string, depth: nat, current: string)
    requires '[' !in w && ']' !in w && (depth == 0 ==> '.' !in w)
    ensures SplitFrom(w + rest, depth, current) == SplitFrom(rest, depth, current + w)
  {
    if w == "" {
      assert w + rest == rest && current + w == current;
    } else {
      assert (w + rest)[0] == w[0] && (w + rest)[1..] == w[1..] + rest;
      assert current + [w[0]] + w[1..] == current + w;
      SkipRun(w[1..], rest, depth, current + [w[0]]);
    }
  }

  lemma SplitPrinted(g: Segment, rest: string)
    requires ValidSegment(g)
    ensures SplitFrom(PrintSegment(g) + rest, 0, "") == SplitFrom(rest, 0, PrintSegment(g))
  {
    if g.selected.None? {
      assert PrintSegment(g) == g.key;
      SkipRun(g.key, rest, 0, "");
      assert "" + g.key == g.key;
    } else {
      var inner := "name=" + g.selected.value;
      var tail := "]" + rest;
      assert PrintSegment(g) + rest == g.key + ("[" + (inner + tail));
      SkipRun(g.key, "[" + (inner + tail), 0, "");
      assert "" + g.key == g.key;
      assert ("[" + (inner + tail))[1..] == inner + tail;
      SkipRun(inner, tail, 1, g.key + "[");
      assert tail[1..] == rest;
      assert g.key + "[" + inner + "]" == PrintSegment(g);
    }
  }

  lemma {:induction false} KeyRunOfPrinted(key: string, rest: string)
    requires forall i :: 0 <= i < |key| ==> IsKeyChar(key[i])
    requires rest == "" || !IsKeyChar(rest[0])
    ensures KeyRun(key + rest) == |key|
  {
    if key == "" {
      assert key + rest == rest;
    } else {
      assert (key + rest)[1..] == key[1..] + rest;
      KeyRunOfPrinted(key[1..], rest);
    }
  }

  lemma MatchPrinted(g: Segment)
    requires ValidSegment(g)
    ensures MatchSegment(PrintSegment(g)) == Some(g)
  {
    if g.selected.None? {
      KeyRunOfPrinted(g.key, "");
      assert PrintSegment(g) == g.key + "" == g.key;
    } else {
      var rest := SELECTOR_OPEN + g.selected.value + "]";
      KeyRunOfPrinted(g.key, rest);
      assert PrintSegment(g)[|g.key|..] == rest && PrintSegment(g)[..|g.key|] == g.key;
      assert rest[6..|rest| - 1] == g.selected.value;
    }
  }

  lemma {:induction false} SplitOfPrint(path: Path)
    requires ValidPath(path)
    ensures SplitFrom(Print(path), 0, "") == PrintAll(path)
  {
    var head := PrintSegment(path[0]);
    if |path| == 1 {
      SplitPrinted(path[0], "");
      assert Print(path) == head == head + "";
    } else {
      var tail := Print(path[1..]);
      assert PrintAll(path)[1..] == PrintAll(path[1..]);
      assert Print(path) == head + ("." + tail);
      SplitPrinted(path[0], "." + tail);
      assert ("." + tail)[1..] == tail;
      SplitOfPrint(path[1..]);
    }
  }

  lemma {:induction false} MatchAllPrinted(path: Path)
    requires forall i :: 0 <= i < |path| ==> ValidSegment(path[i])
    ensures MatchAll(PrintAll(path)) == Some(path)
  {
    if path != [] {
      MatchPrinted(path[0]);
      MatchAllPrinted(path[1..]);
      assert PrintAll(path)[1..] == PrintAll(path[1..]);
      assert [path[0]] + path[1..] == path;
    }
  }

  /** Parsing the printed form of valid segments gives the segments back. */
  lemma ParseOfPrint(path: Path)
    requires ValidPath(path)
    ensures Parse(Print(path)) == path
  {
    SplitOfPrint(path);
    MatchAllPrinted(path);
  }

  // ----- Printing undoes parsing -----

  /** Opening minus closing brackets. */
  function Balance(s: string): int {
    if s == "" then 0
    else Balance(s[..|s| - 1]) + (if s[|s| - 1] == '[' then 1 else if s[|s| - 1] == ']' then -1 else 0)
  }

  lemma BalanceSnoc(s: string, c: char)
    ensures Balance(s + [c]) == Balance(s) + (if c == '[' then 1 else if c == ']' then -1 else 0)
  {
    assert (s + [c])[..|s|] == s;
  }

  lemma {:induction false} BalanceAppend(s: string, t: string)
    ensures Balance(s + t) == Balance(s) + Balance(t)
  {
    if t == "" {
      assert s + t == s;
    } else {
      assert s + t == (s + t[..|t| - 1]) + [t[|t| - 1]];
      BalanceSnoc(s + t[..|t| - 1], t[|t| - 1]);
      BalanceAppend(s, t[..|t| - 1]);
    }
  }

  /** A word without closing brackets has balance zero only when it has no opening bracket either. */
  lemma {:induction false} BalanceWithoutClosing(s: string)
    requires ']' !in s
    ensures Balance(s) >= 0 && (Balance(s) == 0 ==> '[' !in s)
  {
    if s != "" {
      BalanceWithoutClosing(s[..|s| - 1]);
      assert s == s[..|s| - 1] + [s[|s| - 1]];
    }
  }

  /** Splitting loses nothing. */
  lemma {:induction false} SplitIsJoin(rest: string, depth: nat, current: string)
    requires SplitFrom(rest, depth, current) != []
    ensures JoinDots(SplitFrom(rest, depth, current)) == current + rest
    decreases |rest|
  {
    if rest == "" {
      assert current + rest == current;
    } else if rest[0] == '.' && depth == 0 {
      SplitIsJoin(rest[1..], 0, "");
      var tail := SplitFrom(rest[1..], 0, "");
      assert ([current] + tail)[1..] == tail;
      assert current + "." + rest[1..] == current + rest;
    } else {
      var depth' := if rest[0] == '[' then depth + 1 else if rest[0] == ']' then depth - 1 else depth;
      SplitIsJoin(rest[1..], depth', current + [rest[0]]);
      assert current + [rest[0]] + rest[1..] == current + rest;
    }
  }

  predicate AllBalanced(parts: seq<string>) {
    forall i :: 0 <= i < |parts| ==> Balance(parts[i]) == 0
  }

  /** Every part is balanced on its own. */
  lemma {:induction false} SplitIsBalanced(rest: string, depth: nat, current: string)
    requires Balance(current) == depth
    ensures AllBalanced(SplitFrom(rest, depth, current))
    decreases |rest|
  {
    if rest != "" {
      BalanceSnoc(current, rest[0]);
      if rest[0] == '.' && depth == 0 {
        SplitIsBalanced(rest[1..], 0, "");
      } else if rest[0] != ']' || depth > 0 {
        var depth' := if rest[0] == '[' then depth + 1 else if rest[0] == ']' then depth - 1 else depth;
        SplitIsBalanced(rest[1..], depth', current + [rest[0]]);
      }
    }
  }

  lemma {:induction false} KeyHasNoBrackets(key: string)
    requires forall i :: 0 <= i < |key| ==> IsKeyChar(key[i])
    ensures Balance(key) == 0
  {
    if key != "" {
      KeyHasNoBrackets(key[..|key| - 1]);
    }
  }

  lemma PrintMatched(raw: string)
    requires MatchSegment(raw).Some? && Balance(raw) == 0
    ensures ValidSegment(MatchSegment(raw).value)
    ensures PrintSegment(MatchSegment(raw).value) == raw
  {
    var n := KeyRun(raw);
    var g := MatchSegment(raw).value;
    if g.selected.Some? {
      SelectorText(raw[n..]);
      assert raw == raw[..n] + raw[n..];
      SelectedNameIsPlain(g.key, g.selected.value);
    }
  }

  /** A matched selector is its opening, its name and its closing bracket. */
  lemma SelectorText(rest: string)
    requires |rest| >= 8 && rest[..6] == SELECTOR_OPEN && rest[|rest| - 1] == ']'
    ensures rest == SELECTOR_OPEN + rest[6..|rest| - 1] + "]"
  {
    assert rest == rest[..6] + rest[6..|rest| - 1] + [rest[|rest| - 1]];
  }

  /** In a balanced segment the selected name has no brackets. */
  lemma SelectedNameIsPlain(key: string, name: string)
    requires forall i :: 0 <= i < |key| ==> IsKeyChar(key[i])
    requires ']' !in name && Balance(key + (SELECTOR_OPEN + name + "]")) == 0
    ensures '[' !in name
  {
    KeyHasNoBrackets(key);
    BalanceAppend(key, SELECTOR_OPEN + name + "]");
    BalanceSnoc(SELECTOR_OPEN + name, ']');
    BalanceAppend(SELECTOR_OPEN, name);
    SelectorOpenBalance();
    BalanceWithoutClosing(name);
  }

  lemma SelectorOpenBalance()
    ensures Balance(SELECTOR_OPEN) == 1
  {
    KeyHasNoBrackets("name");
    BalanceAppend("[", "name");
    BalanceSnoc("", '[');
    assert "" + ['['] == "[";
    assert SELECTOR_OPEN == ("[" + "name") + ['='];
    BalanceSnoc("[" + "name", '=');
  }

  lemma {:induction false} PrintMatchedAll(parts: seq<string>)
    requires MatchAll(parts).Some?
    requires forall i :: 0 <= i < |parts| ==> Balance(parts[i]) == 0
    ensures |MatchAll(parts).value| == |parts|
    ensures forall i :: 0 <= i < |parts| ==> ValidSegment(MatchAll(parts).value[i])
    ensures PrintAll(MatchAll(parts).value) == parts
  {
    if parts != [] {
      PrintMatched(parts[0]);
      PrintMatchedAll(parts[1..]);
      assert MatchAll(parts).value[1..] == MatchAll(parts[1..]).value;
    }
  }

  /** Printing the segments of an accepted string gives the string back, and the segments are valid. */
  lemma PrintOfParse(value: string)
    requires Parse(value) != []
    ensures ValidPath(Parse(value))
    ensures Print(Parse(value)) == value
  {
    SplitIsJoin(value, 0, "");
    SplitIsBalanced(value, 0, "");
    PrintMatchedAll(SplitFrom(value, 0, ""));
    assert "" + value == value;
  }

  /** The parser accepts exactly the printed forms of valid paths. */
  lemma ParseIsInverseOfPrint(value: string, path: Path)
    requires path != []
    ensures Parse(value) == path <==> ValidPath(path) && Print(path) == value
  {
    if Parse(value) == path {
      PrintOfParse(value);
    }
    if ValidPath(path) && Print(path) == value {
      ParseOfPrint(path);
    }
  }

  /** Different accepted strings have different segments. */
  lemma ParseIsInjective(a: string, b: string)
    requires Parse(a) != [] && Parse(a) == Parse(b)
    ensures a == b
  {
    PrintOfParse(a);
    PrintOfParse(b);
  }

  // ----- Cutting at a textual parent prefix -----

  lemma {:induction false} SplitBalance(rest: string, depth: nat, current: string)
    requires SplitFrom(rest, depth, current) != []
    ensures depth + Balance(rest) == 0
    decreases |rest|
  {
    if rest != "" {
      assert rest == [rest[0]] + rest[1..];
      BalanceAppend([rest[0]], rest[1..]);
      BalanceSnoc("", rest[0]);
      assert "" + [rest[0]] == [rest[0]];
      if rest[0] == '.' && depth == 0 {
        SplitBalance(rest[1..], 0, "");
      } else {
        var depth' := if rest[0] == '[' then depth + 1 else if rest[0] == ']' then depth - 1 else depth;
        SplitBalance(rest[1..], depth', current + [rest[0]]);
      }
    }
  }

  /** When either side of a dot is balanced the splitter cuts there. */
  lemma {:induction false} SplitAtDot(a: string, b: string, depth: nat, current: string)
    requires SplitFrom(a + "." + b, depth, current) != []
    requires SplitFrom(b, 0, "") != [] || SplitFrom(a, depth, current) != []
    ensures SplitFrom(a, depth, current) != [] && SplitFrom(b, 0, "") != []
    ensures SplitFrom(a + "." + b, depth, current) == SplitFrom(a, depth, current) + SplitFrom(b, 0, "")
    decreases |a|
  {
    var whole := a + "." + b;
    if a == "" {
      assert whole == "." + b && whole[1..] == b;
      if depth > 0 {
        SplitBalance(b, depth, current + ".");
        SplitBalance(b, 0, "");
        assert false;
      }
    } else {
      assert whole[0] == a[0] && whole[1..] == a[1..] + "." + b;
      if a[0] == '.' && depth == 0 {
        SplitAtDot(a[1..], b, 0, "");
      } else {
        var depth' := if a[0] == '[' then depth + 1 else if a[0] == ']' then depth - 1 else depth;
        SplitAtDot(a[1..], b, depth', current + [a[0]]);
      }
    }
  }

  lemma {:induction false} MatchAllAppend(xs: seq<string>, ys: seq<string>)
    ensures MatchAll(xs + ys) ==
            if MatchAll(xs).None? || MatchAll(ys).None? then None
            else Some(MatchAll(xs).value + MatchAll(ys).value)
  {
    if xs == [] {
      assert xs + ys == ys;
      assert MatchAll(ys).Some? ==> [] + MatchAll(ys).value == MatchAll(ys).value;
    } else {
      assert (xs + ys)[0] == xs[0] && (xs + ys)[1..] == xs[1..] + ys;
      MatchAllAppend(xs[1..], ys);
      MatchedConcat(MatchSegment(xs[0]), MatchAll(xs[1..]), MatchAll(ys));
    }
  }

  lemma MatchedConcat(head: Option<Segment>, tail: Option<Path>, rest: Option<Path>)
    ensures head.Some? && tail.Some? && rest.Some? ==>
      [head.value] + (tail.value + rest.value) == [head.value] + tail.value + rest.value
  {
  }

  lemma MatchAllLength(parts: seq<string>)
    ensures MatchAll(parts).Some? ==> |MatchAll(parts).value| == |parts|
  {
  }

  /**
   * If a path parses, and either the text before or the text after one of its
   * dots parses, then that dot is a segment boundary.
   */
  lemma CutFallsOnBoundary(parent: string, remainder: string)
    requires Parse(parent + "." + remainder) != []
    requires Parse(remainder) != [] || Parse(parent) != []
    ensures Parse(parent) != [] && Parse(remainder) != []
    ensures Parse(parent + "." + remainder) == Parse(parent) + Parse(remainder)
  {
    SplitAtDot(parent, remainder, 0, "");
    MatchAllAppend(SplitFrom(parent, 0, ""), SplitFrom(remainder, 0, ""));
    MatchAllLength(SplitFrom(parent, 0, ""));
    MatchAllLength(SplitFrom(remainder, 0, ""));
  }
}
