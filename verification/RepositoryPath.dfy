/**
 * Repository paths: splitting at slashes, parent directories, and the
 * normalization of a reference against the directory it occurs in.
 */
module RepositoryPath {
  import opened Wrappers
  import opened Text

  const ROOT := "."

  // ----- Components -----

  /** The pieces between slashes, as `str.split("/")`: never the empty list. */
  function Split(s: string): (r: seq<string>)
    ensures r != []
  {
    if s == "" then [""]
    else
      var rest := Split(s[1..]);
      if s[0] == '/' then [""] + rest else PushHead(s[0], rest)
  }

  function PushHead(c: char, parts: seq<string>): seq<string>
    requires parts != []
  {
    [[c] + parts[0]] + parts[1..]
  }

  lemma PushHeadAppend(c: char, xs: seq<string>, ys: seq<string>)
    requires xs != []
    ensures PushHead(c, xs + ys) == PushHead(c, xs) + ys
  {
  }

  function Join(parts: seq<string>): string {
    if parts == [] then ""
    else if |parts| == 1 then parts[0]
    else parts[0] + "/" + Join(parts[1..])
  }

  lemma {:induction false} SplitAppend(a: string, b: string)
    ensures Split(a + "/" + b) == Split(a) + Split(b)
  {
    var whole := a + "/" + b;
    if a == "" {
      assert whole == "/" + b && whole[1..] == b;
      assert Split(a) == [""];
    } else {
      assert whole[0] == a[0] && whole[1..] == a[1..] + "/" + b;
      SplitAppend(a[1..], b);
      PushHeadAppend(a[0], Split(a[1..]), Split(b));
      assert [""] + (Split(a[1..]) + Split(b)) == [""] + Split(a[1..]) + Split(b);
    }
  }

  predicate PlainPart(part: string) {
    part != "" && part != "." && part != ".." && '/' !in part
  }

  lemma {:induction false} SplitOne(part: string)
    requires '/' !in part
    ensures Split(part) == [part]
  {
    if part != "" {
      SplitOne(part[1..]);
      assert [part[0]] + part[1..] == part;
    }
  }

  lemma {:induction false} SplitJoin(parts: seq<string>)
    requires parts != [] && forall i :: 0 <= i < |parts| ==> '/' !in parts[i]
    ensures Split(Join(parts)) == parts
  {
    SplitOne(parts[0]);
    if |parts| > 1 {
      SplitAppend(parts[0], Join(parts[1..]));
      SplitJoin(parts[1..]);
      assert parts == [parts[0]] + parts[1..];
    } else {
      assert parts == [parts[0]];
    }
  }

  lemma {:induction false} SplitHasNoSlash(s: string)
    ensures forall i :: 0 <= i < |Split(s)| ==> '/' !in Split(s)[i]
  {
    if s != "" {
      SplitHasNoSlash(s[1..]);
    }
  }

  // ----- `posixpath.normpath` on relative paths -----

  /** One pass over the components with a stack, as the library does. */
  function NormFold(parts: seq<string>, stack: seq<string>): seq<string>
    decreases |parts|
  {
    if parts == [] then stack
    else if parts[0] == "" || parts[0] == "." then NormFold(parts[1..], stack)
    else if parts[0] != ".." || stack == [] || stack[|stack| - 1] == ".." then NormFold(parts[1..], stack + [parts[0]])
    else NormFold(parts[1..], stack[..|stack| - 1])
  }

  /** Following the components from a directory below the root; `None` on stepping above the root. */
  function Walk(parts: seq<string>, at: seq<string>): Option<seq<string>>
    decreases |parts|
  {
    if parts == [] then Some(at)
    else if parts[0] == "" || parts[0] == "." then Walk(parts[1..], at)
    else if parts[0] == ".." then if at == [] then None else Walk(parts[1..], at[..|at| - 1])
    else Walk(parts[1..], at + [parts[0]])
  }

  lemma {:induction false} NormFoldEscaped(parts: seq<string>, stack: seq<string>)
    requires stack != [] && stack[0] == ".."
    ensures NormFold(parts, stack) != [] && NormFold(parts, stack)[0] == ".."
    decreases |parts|
  {
    if parts == [] {
    } else if parts[0] == "" || parts[0] == "." {
      NormFoldEscaped(parts[1..], stack);
    } else if parts[0] != ".." || stack[|stack| - 1] == ".." {
      NormFoldEscaped(parts[1..], stack + [parts[0]]);
    } else {
      NormFoldEscaped(parts[1..], stack[..|stack| - 1]);
    }
  }

  /** The stack pass is the walk; a walk that steps above the root leaves a leading `..`. */
  lemma {:induction false} NormFoldIsWalk(parts: seq<string>, at: seq<string>)
    requires forall i :: 0 <= i < |parts| ==> '/' !in parts[i]
    requires forall i :: 0 <= i < |at| ==> PlainPart(at[i])
    ensures Walk(parts, at).Some? ==>
      Walk(parts, at).value == NormFold(parts, at) && forall i :: 0 <= i < |NormFold(parts, at)| ==> PlainPart(NormFold(parts, at)[i])
    ensures Walk(parts, at).None? ==> NormFold(parts, at) != [] && NormFold(parts, at)[0] == ".."
    decreases |parts|
  {
    if parts == [] {
    } else if parts[0] == "" || parts[0] == "." {
      NormFoldIsWalk(parts[1..], at);
    } else if parts[0] == ".." {
      if at == [] {
        NormFoldEscaped(parts[1..], [".."]);
        assert at + [parts[0]] == [".."];
      } else {
        NormFoldIsWalk(parts[1..], at[..|at| - 1]);
      }
    } else {
      NormFoldIsWalk(parts[1..], at + [parts[0]]);
    }
  }

  // ----- Normalizing a reference -----

  function StripSlashesLeft(s: string): string {
    if s != "" && s[0] == '/' then StripSlashesLeft(s[1..]) else s
  }

  function StripSlashesRight(s: string): string {
    if s != "" && s[|s| - 1] == '/' then StripSlashesRight(s[..|s| - 1]) else s
  }

  function NonEmpty(parts: seq<string>): seq<string> {
    if parts == [] then []
    else if parts[0] == "" then NonEmpty(parts[1..])
    else [parts[0]] + NonEmpty(parts[1..])
  }

  /** `normalize_tree_path`; `""` when the path is refused. */
  function TreePath(path: string): string {
    var trimmed := StripSlashesRight(StripSlashesLeft(Strip(path)));
    var parts := NonEmpty(Split(trimmed));
    if trimmed == "" || '\\' in trimmed || "." in parts || ".." in parts then "" else Join(parts)
  }

  /** `posixpath.join` of a directory that does not end in a slash with a relative reference. */
  function JoinPath(directory: string, reference: string): string {
    if directory == ROOT then reference else directory + "/" + reference
  }

  /** `normalize_kustomize_local_reference`; `None` is a raised `ManifestRenderValidationError`. */
  function NormalizeReference(remote: string -> bool, raw: string, directory: string): Option<string> {
    var reference := Strip(raw);
    if remote(reference) || reference == "" || '\\' in reference || reference[0] == '/' then None
    else
      var stack := NormFold(Split(JoinPath(directory, reference)), []);
      if stack == [] || stack[0] == ".." then None
      else
        var safe := TreePath(Join(stack));
        if safe == "" then None else Some(safe)
  }

  /** A non-empty list of components, none of them `.`, `..` or empty. */
  predicate Inside(path: string) {
    path != "" && forall i :: 0 <= i < |Split(path)| ==> PlainPart(Split(path)[i])
  }

  lemma {:induction false} NonEmptyParts(parts: seq<string>)
    requires forall i :: 0 <= i < |parts| ==> '/' !in parts[i]
    ensures forall i :: 0 <= i < |NonEmpty(parts)| ==> '/' !in NonEmpty(parts)[i] && NonEmpty(parts)[i] != "" && NonEmpty(parts)[i] in parts
  {
    if parts != [] {
      NonEmptyParts(parts[1..]);
    }
  }

  lemma TreePathIsInside(path: string)
    ensures TreePath(path) != "" ==> Inside(TreePath(path))
  {
    var trimmed := StripSlashesRight(StripSlashesLeft(Strip(path)));
    var parts := NonEmpty(Split(trimmed));
    if TreePath(path) != "" {
      SplitHasNoSlash(trimmed);
      NonEmptyParts(Split(trimmed));
      SplitJoin(parts);
      forall i | 0 <= i < |parts|
        ensures PlainPart(parts[i])
      {
        assert parts[i] in parts;
      }
    }
  }

  lemma {:induction false} NonEmptyAppend(xs: seq<string>, ys: seq<string>)
    ensures NonEmpty(xs + ys) == NonEmpty(xs) + NonEmpty(ys)
  {
    if xs == [] {
      assert xs + ys == ys;
    } else {
      assert (xs + ys)[1..] == xs[1..] + ys;
      NonEmptyAppend(xs[1..], ys);
    }
  }

  lemma {:induction false} LeadingSlashes(s: string)
    ensures NonEmpty(Split(StripSlashesLeft(s))) == NonEmpty(Split(s))
    ensures '\\' in StripSlashesLeft(s) <==> '\\' in s
  {
    if s != "" && s[0] == '/' {
      LeadingSlashes(s[1..]);
      assert ([""] + Split(s[1..]))[1..] == Split(s[1..]);
      assert s == [s[0]] + s[1..];
    }
  }

  lemma {:induction false} TrailingSlashes(s: string)
    ensures NonEmpty(Split(StripSlashesRight(s))) == NonEmpty(Split(s))
    ensures '\\' in StripSlashesRight(s) <==> '\\' in s
  {
    if s != "" && s[|s| - 1] == '/' {
      var init := s[..|s| - 1];
      TrailingSlashes(init);
      assert s == init + "/" + "" && s == init + [s[|s| - 1]];
      SplitAppend(init, "");
      NonEmptyAppend(Split(init), [""]);
      assert NonEmpty([""]) == [] by {
        assert [""][1..] == [];
      }
    }
  }

  /** A tree path is the non-empty components of the stripped text; it is refused when there are none, or a dotted one, or a backslash. */
  lemma TreePathIff(path: string)
    ensures var parts := NonEmpty(Split(Strip(path)));
      TreePath(path) == if parts == [] || '\\' in Strip(path) || "." in parts || ".." in parts then "" else Join(parts)
  {
    var s := Strip(path);
    LeadingSlashes(s);
    TrailingSlashes(StripSlashesLeft(s));
    var trimmed := StripSlashesRight(StripSlashesLeft(s));
    if trimmed == "" {
      assert Split(trimmed) == [""] && [""][1..] == [];
    }
  }

  /** The components of the directory a reference occurs in. */
  function Components(directory: string): seq<string> {
    if directory == ROOT then [] else Split(directory)
  }

  /** Where following a reference from its directory ends; `None` when it leaves the repository on the way. */
  function Destination(raw: string, directory: string): Option<seq<string>> {
    Walk(Split(Strip(raw)), Components(directory))
  }

  /** The tests on the text of a reference. */
  predicate IsLocal(remote: string -> bool, reference: string) {
    !remote(reference) && reference != "" && '\\' !in reference && reference[0] != '/'
  }

  /**
   * A reference is accepted exactly when it is a local one and following it from
   * its directory ends below the root, at a place whose text is a tree path after
   * trimming. That tree path is returned.
   */
  lemma AcceptedReferenceStaysInside(remote: string -> bool, raw: string, directory: string)
    requires directory == ROOT || Inside(directory)
    ensures var r, end := NormalizeReference(remote, raw, directory), Destination(raw, directory);
      && (r.Some? <==> IsLocal(remote, Strip(raw)) && end.Some? && end.value != [] && TreePath(Join(end.value)) != "")
      && (r.Some? ==> Inside(r.value) && r.value == TreePath(Join(end.value)))
  {
    var reference := Strip(raw);
    ReferenceIsWalk(reference, directory);
    TreePathIsInside(Join(NormFold(Split(JoinPath(directory, reference)), [])));
    DestinationIsPlain(raw, directory);
  }

  lemma DestinationIsPlain(raw: string, directory: string)
    requires directory == ROOT || Inside(directory)
    ensures var end := Destination(raw, directory);
      end.Some? ==> forall i :: 0 <= i < |end.value| ==> PlainPart(end.value[i])
  {
    SplitHasNoSlash(Strip(raw));
    NormFoldIsWalk(Split(Strip(raw)), Components(directory));
  }

  // ----- Trimming can move a reference -----

  /** Trimming the white space off the ends of a walked path can name another place. */
  lemma TrimmedReferenceMoves(remote: string -> bool)
    requires !remote("a /b/..")
    ensures Destination("a /b/..", ROOT) == Some(["a "])
    ensures NormalizeReference(remote, "a /b/..", ROOT) == Some("a")
  {
    var raw := "a /b/..";
    assert Strip(raw) == raw && IsLocal(remote, raw);
    MovingParts();
    WalkBack();
    TrimmedPlace();
    AcceptedReferenceStaysInside(remote, raw, ROOT);
  }

  lemma MovingParts()
    ensures Split("a /b/..") == ["a ", "b", ".."]
  {
    assert "a /b/.." == "a " + "/" + ("b" + "/" + "..");
    SplitAppend("a ", "b" + "/" + "..");
    SplitAppend("b", "..");
    SplitOne("a ");
    SplitOne("b");
    SplitOne("..");
  }

  lemma TrimmedPlace()
    ensures TreePath("a ") == "a"
  {
    assert "a "[..1] == "a" && StripRight("a") == "a";
    SplitOne("a");
    assert NonEmpty(["a"]) == ["a"];
  }

  lemma WalkBack()
    ensures Walk(["a ", "b", ".."], []) == Some(["a "])
  {
    assert ["a ", "b", ".."][1..] == ["b", ".."] && ["b", ".."][1..] == [".."] && [".."][1..] == [];
    assert "a "[0] == 'a' && "b"[0] == 'b' && "."[0] == '.' && ".."[1] == '.';
    assert ["a ", "b"][..1] == ["a "] && ["a "] + ["b"] == ["a ", "b"] && [] + ["a "] == ["a "];
    assert Walk([".."], ["a ", "b"]) == Some(["a "]);
    assert Walk(["b", ".."], ["a "]) == Some(["a "]);
  }

  /** An accepted reference is returned as the place it leads to exactly when that place has no outer white space. */
  lemma ReturnedIsDestinationIff(remote: string -> bool, raw: string, directory: string)
    requires directory == ROOT || Inside(directory)
    requires NormalizeReference(remote, raw, directory).Some?
    ensures Destination(raw, directory).Some?
    ensures var place := Join(Destination(raw, directory).value);
      NormalizeReference(remote, raw, directory).value == place <==> Strip(place) == place
  {
    AcceptedReferenceStaysInside(remote, raw, directory);
    DestinationIsPlain(raw, directory);
    TreePathKeepsIff(Destination(raw, directory).value);
  }

  lemma TreePathKeepsIff(parts: seq<string>)
    requires parts != [] && forall i :: 0 <= i < |parts| ==> PlainPart(parts[i])
    requires TreePath(Join(parts)) != ""
    ensures TreePath(Join(parts)) == Join(parts) <==> Strip(Join(parts)) == Join(parts)
  {
    var path := Join(parts);
    var trimmed := StripSlashesRight(StripSlashesLeft(Strip(path)));
    if Strip(path) == path {
      JoinEnds(parts);
      SplitJoin(parts);
      NonEmptyPlain(parts);
    }
    if TreePath(path) == path {
      JoinSplit(trimmed);
      NonEmptyShortens(Split(trimmed));
      StripSlashesShortens(Strip(path));
      StripShortens(path);
    }
  }

  /** A joined list of plain parts neither starts nor ends with a slash. */
  lemma {:induction false} JoinEnds(parts: seq<string>)
    requires parts != [] && forall i :: 0 <= i < |parts| ==> PlainPart(parts[i])
    ensures var s := Join(parts); s != "" && s[0] != '/' && s[|s| - 1] != '/'
  {
    assert parts[0][0] in parts[0] && parts[0][|parts[0]| - 1] in parts[0];
    if |parts| > 1 {
      JoinEnds(parts[1..]);
    }
  }

  lemma {:induction false} NonEmptyPlain(parts: seq<string>)
    requires forall i :: 0 <= i < |parts| ==> PlainPart(parts[i])
    ensures NonEmpty(parts) == parts
  {
    if parts != [] {
      NonEmptyPlain(parts[1..]);
    }
  }

  lemma {:induction false} JoinSplit(s: string)
    ensures Join(Split(s)) == s
  {
    if s != "" {
      JoinSplit(s[1..]);
      var rest := Split(s[1..]);
      assert s == [s[0]] + s[1..];
      if s[0] == '/' {
        assert ([""] + rest)[1..] == rest;
      } else {
        assert PushHead(s[0], rest)[1..] == rest[1..];
      }
    }
  }

  lemma {:induction false} JoinAppend(xs: seq<string>, ys: seq<string>)
    requires xs != [] && ys != []
    ensures Join(xs + ys) == Join(xs) + "/" + Join(ys)
  {
    assert (xs + ys)[1..] == xs[1..] + ys;
    if |xs| > 1 {
      JoinAppend(xs[1..], ys);
      assert xs[0] + "/" + (Join(xs[1..]) + "/" + Join(ys)) == xs[0] + "/" + Join(xs[1..]) + "/" + Join(ys);
    } else {
      assert xs[1..] + ys == ys;
    }
  }

  /** The components of one text begin those of the other exactly when the texts are equal or nested. */
  lemma ComponentPrefixIsTextual(a: string, b: string)
    ensures Split(a) <= Split(b) <==> a == b || a + "/" <= b
  {
    var xs, ys := Split(a), Split(b);
    if xs <= ys {
      JoinSplit(a);
      JoinSplit(b);
      if xs != ys {
        assert ys == xs + ys[|xs|..];
        JoinAppend(xs, ys[|xs|..]);
      }
    }
    if a + "/" <= b {
      assert b == a + "/" + b[|a| + 1..];
      SplitAppend(a, b[|a| + 1..]);
    }
  }

  lemma {:induction false} NonEmptyShortens(parts: seq<string>)
    ensures |Join(NonEmpty(parts))| <= |Join(parts)|
  {
    if parts != [] {
      NonEmptyShortens(parts[1..]);
      var rest := NonEmpty(parts[1..]);
      assert ([parts[0]] + rest)[1..] == rest;
    }
  }

  lemma StripSlashesShortens(s: string)
    ensures |StripSlashesRight(StripSlashesLeft(s))| <= |s|
  {
    SlashesLeftShortens(s);
    SlashesRightShortens(StripSlashesLeft(s));
  }

  lemma {:induction s} SlashesLeftShortens(s: string)
    ensures |StripSlashesLeft(s)| <= |s|
  {
  }

  lemma {:induction s} SlashesRightShortens(s: string)
    ensures |StripSlashesRight(s)| <= |s|
  {
  }

  /** Stripping shortens a text or leaves it as it is. */
  lemma StripShortens(s: string)
    ensures |Strip(s)| < |s| || Strip(s) == s
  {
    StripLeftShortens(s);
    StripRightShortens(StripLeft(s));
  }

  lemma {:induction s} StripLeftShortens(s: string)
    ensures |StripLeft(s)| < |s| || StripLeft(s) == s
  {
  }

  lemma {:induction s} StripRightShortens(s: string)
    ensures |StripRight(s)| < |s| || StripRight(s) == s
  {
  }

  /** The normalized components of a joined path are the walk from the directory. */
  lemma ReferenceIsWalk(reference: string, directory: string)
    requires directory == ROOT || Inside(directory)
    ensures var end := Walk(Split(reference), Components(directory)); var stack := NormFold(Split(JoinPath(directory, reference)), []);
      && (end.Some? ==> stack == end.value)
      && (end.None? ==> stack != [] && stack[0] == "..")
  {
    SplitHasNoSlash(reference);
    if directory == ROOT {
      NormFoldIsWalk(Split(reference), []);
    } else {
      SplitAppend(directory, reference);
      NormFoldPlain(Split(directory), Split(reference), []);
      assert [] + Split(directory) == Split(directory);
      NormFoldIsWalk(Split(reference), Split(directory));
    }
  }

  lemma {:induction false} NormFoldPlain(plain: seq<string>, rest: seq<string>, stack: seq<string>)
    requires forall i :: 0 <= i < |plain| ==> PlainPart(plain[i])
    ensures NormFold(plain + rest, stack) == NormFold(rest, stack + plain)
    decreases |plain|
  {
    if plain == [] {
      assert plain + rest == rest && stack + plain == stack;
    } else {
      assert (plain + rest)[0] == plain[0] && (plain + rest)[1..] == plain[1..] + rest;
      assert stack + [plain[0]] + plain[1..] == stack + plain;
      NormFoldPlain(plain[1..], rest, stack + [plain[0]]);
    }
  }

  // ----- Directories -----

  function LastSlash(path: string): (r: Option<nat>)
    ensures r.Some? ==> r.value < |path| && path[r.value] == '/' && '/' !in path[r.value + 1..]
    ensures r.None? ==> '/' !in path
  {
    if path == "" then None
    else if path[|path| - 1] == '/' then Some(|path| - 1)
    else
      var rest := LastSlash(path[..|path| - 1]);
      assert rest.Some? ==> path[rest.value + 1..] == path[..|path| - 1][rest.value + 1..] + [path[|path| - 1]];
      rest
  }

  /** `parent_path` */
  function Parent(path: string): string {
    var slash := LastSlash(path);
    if slash.None? then ROOT else path[..slash.value]
  }

  /** `d` is the part of `path` before one of its slashes. */
  ghost predicate IsAncestor(d: string, path: string) {
    exists i :: 0 <= i < |path| && path[i] == '/' && path[..i] == d
  }

  ghost predicate IsDirectory(blobs: set<string>, d: string) {
    d == ROOT || exists p :: p in blobs && IsAncestor(d, p)
  }

  lemma ParentIsAncestor(path: string, d: string)
    ensures IsAncestor(d, path) <==>
            || (Parent(path) != ROOT && (d == Parent(path) || IsAncestor(d, Parent(path))))
            || (LastSlash(path).Some? && Parent(path) == ROOT && d == ROOT)
  {
    var slash := LastSlash(path);
    if IsAncestor(d, path) {
      var i :| 0 <= i < |path| && path[i] == '/' && path[..i] == d;
      assert path == path[..slash.value + 1] + path[slash.value + 1..];
      assert i <= slash.value;
      if i < slash.value {
        assert path[..slash.value][..i] == d && path[..slash.value][i] == '/';
      }
    }
    if slash.Some? && d == Parent(path) {
      assert path[..slash.value] == d;
    }
    if Parent(path) != ROOT && IsAncestor(d, Parent(path)) {
      var i :| 0 <= i < |Parent(path)| && Parent(path)[i] == '/' && Parent(path)[..i] == d;
      assert path[i] == '/' && path[..i] == d;
    }
  }

  /** `repository_directories`: the root and every directory above a blob. */
  method RepositoryDirectories(blobs: set<string>) returns (directories: set<string>)
    ensures forall d :: d in directories <==> IsDirectory(blobs, d)
  {
    directories := {ROOT};
    var rest := blobs;
    while rest != {}
      invariant rest <= blobs
      invariant forall d :: d in directories <==> IsDirectory(blobs - rest, d)
      decreases |rest|
    {
      var path :| path in rest;
      ghost var before := directories;
      var parent := Parent(path);
      ParentsOf(path);
      while parent != ROOT
        invariant forall d ::
          (d in directories || d == ROOT || (parent != ROOT && (d == parent || IsAncestor(d, parent)))) <==>
          (d in before || d == ROOT || IsAncestor(d, path))
        invariant ROOT in directories
        decreases if parent == ROOT then 0 else |parent| + 1
      {
        directories := directories + {parent};
        ParentsOf(parent);
        parent := Parent(parent);
      }
      assert blobs - (rest - {path}) == (blobs - rest) + {path};
      rest := rest - {path};
    }
    assert blobs - rest == blobs;
  }

  lemma ParentsOf(path: string)
    ensures forall d :: (IsAncestor(d, path) || d == ROOT) <==>
      d == ROOT || (Parent(path) != ROOT && (d == Parent(path) || IsAncestor(d, Parent(path))))
    ensures Parent(path) != ROOT ==> |Parent(path)| < |path|
  {
    forall d
      ensures (IsAncestor(d, path) || d == ROOT) <==>
        d == ROOT || (Parent(path) != ROOT && (d == Parent(path) || IsAncestor(d, Parent(path))))
    {
      ParentIsAncestor(path, d);
    }
  }
}
