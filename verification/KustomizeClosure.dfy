/**
 * Collecting the files that a local Kustomize tree needs.
 *
 * The source walks directories with a work list, fetches every kustomization file
 * and every file it refers to, and stops at a file or byte limit. The tree may be
 * cyclic. The walk is shown to succeed exactly when the whole reachable closure is
 * in order and within the limits, and to return exactly that closure.
 */
module KustomizeClosure {
  import opened Wrappers
  import opened RepositoryPath

  newtype Byte = b: int | 0 <= b < 256

  type Bytes = seq<Byte>

  const MAX_RENDER_SOURCE_FILES: nat := 500
  const MAX_RENDER_SOURCE_BYTES: nat := 5 * 1_048_576
  const KUSTOMIZATION_FILE_ORDER := ["kustomization.yaml", "kustomization.yml", "Kustomization"]

  /** A local reference of a kustomization file, as written. */
  datatype Reference = Reference(raw: string, mayBeDirectory: bool)

  /**
   * One revision of a repository: its blob paths, the content the client returns
   * (`None` is a client error), the references that a kustomization file declares
   * (`None` is a parse error), and the test for remote references.
   */
  datatype Repository = Repository(
    blobs: set<string>,
    content: string -> Option<Bytes>,
    references: Bytes -> Option<seq<Reference>>,
    remote: string -> bool)

  // ----- One directory -----

  function InDirectory(directory: string, name: string): string {
    if directory == ROOT then name else directory + "/" + name
  }

  function Candidates(directory: string, blobs: set<string>, names: seq<string>): seq<string> {
    if names == [] then []
    else
      var rest := Candidates(directory, blobs, names[1..]);
      if InDirectory(directory, names[0]) in blobs then [InDirectory(directory, names[0])] + rest else rest
  }

  /** The one name of the list under which the directory holds a file. */
  predicate OnlyCandidate(directory: string, blobs: set<string>, names: seq<string>, i: nat) {
    && i < |names| && InDirectory(directory, names[i]) in blobs
    && forall j :: 0 <= j < |names| && InDirectory(directory, names[j]) in blobs ==> j == i
  }

  /** `find_kustomization_path`; `None` when there is none or more than one. */
  function KustomizationPath(directory: string, blobs: set<string>): (r: Option<string>)
    ensures r.Some? ==> r.value in blobs
    ensures r.Some? <==> exists i: nat :: OnlyCandidate(directory, blobs, KUSTOMIZATION_FILE_ORDER, i)
    ensures forall i: nat :: OnlyCandidate(directory, blobs, KUSTOMIZATION_FILE_ORDER, i) ==>
      r == Some(InDirectory(directory, KUSTOMIZATION_FILE_ORDER[i]))
  {
    var candidates := Candidates(directory, blobs, KUSTOMIZATION_FILE_ORDER);
    OneCandidateIff(directory, blobs, KUSTOMIZATION_FILE_ORDER);
    if |candidates| == 1 then Some(candidates[0]) else None
  }

  lemma {:induction false} NoCandidates(directory: string, blobs: set<string>, names: seq<string>)
    ensures Candidates(directory, blobs, names) == [] <==>
            forall j :: 0 <= j < |names| ==> InDirectory(directory, names[j]) !in blobs
  {
    if names != [] {
      NoCandidates(directory, blobs, names[1..]);
      assert forall j :: 1 <= j < |names| ==> names[j] == names[1..][j - 1];
    }
  }

  lemma {:induction false} OneCandidateIff(directory: string, blobs: set<string>, names: seq<string>)
    ensures var cs := Candidates(directory, blobs, names);
      && (|cs| == 1 <==> exists i: nat :: OnlyCandidate(directory, blobs, names, i))
      && (forall i: nat :: OnlyCandidate(directory, blobs, names, i) ==> cs == [InDirectory(directory, names[i])])
      && (|cs| == 1 ==> cs[0] in blobs)
  {
    if names != [] {
      var cs, rest := Candidates(directory, blobs, names), names[1..];
      OneCandidateIff(directory, blobs, rest);
      NoCandidates(directory, blobs, rest);
      forall i: nat | OnlyCandidate(directory, blobs, names, i)
        ensures cs == [InDirectory(directory, names[i])]
      {
        CandidateIsFirstOrLater(directory, blobs, names, i);
      }
      if InDirectory(directory, names[0]) in blobs {
        if Candidates(directory, blobs, rest) == [] {
          OnlyFirst(directory, blobs, names);
        }
      } else if i: nat :| OnlyCandidate(directory, blobs, rest, i) {
        OnlyLater(directory, blobs, names, i);
      }
    }
  }

  lemma CandidateIsFirstOrLater(directory: string, blobs: set<string>, names: seq<string>, i: nat)
    requires OnlyCandidate(directory, blobs, names, i)
    ensures i == 0 ==> forall j :: 0 <= j < |names[1..]| ==> InDirectory(directory, names[1..][j]) !in blobs
    ensures i > 0 ==> InDirectory(directory, names[0]) !in blobs && OnlyCandidate(directory, blobs, names[1..], i - 1)
  {
    forall j | 0 <= j < |names[1..]| && InDirectory(directory, names[1..][j]) in blobs
      ensures j + 1 == i
    {
      assert names[1..][j] == names[j + 1];
    }
  }

  lemma OnlyFirst(directory: string, blobs: set<string>, names: seq<string>)
    requires names != [] && InDirectory(directory, names[0]) in blobs
    requires forall j :: 0 <= j < |names[1..]| ==> InDirectory(directory, names[1..][j]) !in blobs
    ensures OnlyCandidate(directory, blobs, names, 0)
  {
    assert forall j :: 1 <= j < |names| ==> names[j] == names[1..][j - 1];
  }

  lemma OnlyLater(directory: string, blobs: set<string>, names: seq<string>, i: nat)
    requires names != [] && InDirectory(directory, names[0]) !in blobs && OnlyCandidate(directory, blobs, names[1..], i)
    ensures OnlyCandidate(directory, blobs, names, i + 1)
  {
    assert forall j :: 1 <= j < |names| ==> names[j] == names[1..][j - 1];
  }

  // ----- The chosen file, by its directory and its name -----

  /** The part of a path after its last slash. */
  function FileName(path: string): string {
    var slash := LastSlash(path);
    if slash.None? then path else path[slash.value + 1..]
  }

  /** The path is a kustomization file of the directory. */
  predicate IsKustomization(directory: string, path: string) {
    Parent(path) == directory && FileName(path) in {"kustomization.yaml", "kustomization.yml", "Kustomization"}
  }

  lemma LastSlashOfJoined(directory: string, name: string)
    requires '/' !in name
    ensures LastSlash(directory + "/" + name) == Some(|directory|)
  {
    var path := directory + "/" + name;
    assert path[|directory|] == '/' && path[|directory| + 1..] == name;
  }

  /** A name without slashes, put into a directory, has that directory as its parent. */
  lemma InDirectoryParts(directory: string, name: string)
    requires '/' !in name
    ensures Parent(InDirectory(directory, name)) == directory && FileName(InDirectory(directory, name)) == name
  {
    if directory != ROOT {
      LastSlashOfJoined(directory, name);
      var path := directory + "/" + name;
      assert path[..|directory|] == directory && path[|directory| + 1..] == name;
    }
  }

  /** A plain path is its name put into its parent. */
  lemma PartsOfPath(path: string)
    requires Inside(path)
    ensures InDirectory(Parent(path), FileName(path)) == path && '/' !in FileName(path)
  {
    var slash := LastSlash(path);
    if slash.Some? {
      var before, name := path[..slash.value], path[slash.value + 1..];
      assert path == before + "/" + name;
      SplitAppend(before, name);
      assert Split(path)[0] == Split(before)[0] && PlainPart(Split(path)[0]);
      if before == ROOT {
        SplitOne(ROOT);
        assert false;
      }
    }
  }

  lemma NamesInOrder(name: string)
    ensures name in {"kustomization.yaml", "kustomization.yml", "Kustomization"} <==>
            exists i :: 0 <= i < |KUSTOMIZATION_FILE_ORDER| && KUSTOMIZATION_FILE_ORDER[i] == name
    ensures name in {"kustomization.yaml", "kustomization.yml", "Kustomization"} ==> '/' !in name
  {
    assert KUSTOMIZATION_FILE_ORDER[0] == "kustomization.yaml" && KUSTOMIZATION_FILE_ORDER[1] == "kustomization.yml";
    assert KUSTOMIZATION_FILE_ORDER[2] == "Kustomization";
  }

  /** The only kustomization file among the blobs whose parent is the directory. */
  ghost predicate OnlyKustomization(directory: string, blobs: set<string>, path: string) {
    path in blobs && IsKustomization(directory, path) && forall q :: q in blobs && IsKustomization(directory, q) ==> q == path
  }

  lemma KustomizationIsNamed(directory: string, path: string)
    requires IsKustomization(directory, path) && Inside(path)
    ensures exists i :: 0 <= i < |KUSTOMIZATION_FILE_ORDER| && InDirectory(directory, KUSTOMIZATION_FILE_ORDER[i]) == path
  {
    PartsOfPath(path);
    NamesInOrder(FileName(path));
  }

  lemma NamedIsKustomization(directory: string, i: nat)
    requires i < |KUSTOMIZATION_FILE_ORDER|
    ensures IsKustomization(directory, InDirectory(directory, KUSTOMIZATION_FILE_ORDER[i]))
  {
    NamesInOrder(KUSTOMIZATION_FILE_ORDER[i]);
    InDirectoryParts(directory, KUSTOMIZATION_FILE_ORDER[i]);
  }

  /** The chosen file lies in the directory itself and has an accepted name. */
  lemma ChosenIsInDirectory(directory: string, blobs: set<string>)
    ensures var p := KustomizationPath(directory, blobs); p.Some? ==> p.value in blobs && IsKustomization(directory, p.value)
  {
    if KustomizationPath(directory, blobs).Some? {
      var i: nat :| OnlyCandidate(directory, blobs, KUSTOMIZATION_FILE_ORDER, i);
      NamedIsKustomization(directory, i);
    }
  }

  /** Among plain blob paths a file is chosen exactly when it is the only kustomization file of the directory. */
  lemma ChosenIffOnly(directory: string, blobs: set<string>, path: string)
    requires forall q :: q in blobs ==> Inside(q)
    ensures KustomizationPath(directory, blobs) == Some(path) <==> OnlyKustomization(directory, blobs, path)
  {
    forall q | q in blobs && IsKustomization(directory, q)
      ensures exists i :: 0 <= i < |KUSTOMIZATION_FILE_ORDER| && InDirectory(directory, KUSTOMIZATION_FILE_ORDER[i]) == q
    {
      KustomizationIsNamed(directory, q);
    }
    if OnlyKustomization(directory, blobs, path) {
      var i :| 0 <= i < |KUSTOMIZATION_FILE_ORDER| && InDirectory(directory, KUSTOMIZATION_FILE_ORDER[i]) == path;
      forall j | 0 <= j < |KUSTOMIZATION_FILE_ORDER| && InDirectory(directory, KUSTOMIZATION_FILE_ORDER[j]) in blobs
        ensures j == i
      {
        NamedIsKustomization(directory, j);
        OrderIsDistinct(directory, i, j);
      }
      assert OnlyCandidate(directory, blobs, KUSTOMIZATION_FILE_ORDER, i);
    }
    if KustomizationPath(directory, blobs) == Some(path) {
      ChosenIsInDirectory(directory, blobs);
      var i: nat :| OnlyCandidate(directory, blobs, KUSTOMIZATION_FILE_ORDER, i);
    }
  }

  lemma OrderIsDistinct(directory: string, i: nat, j: nat)
    requires i < |KUSTOMIZATION_FILE_ORDER| && j < |KUSTOMIZATION_FILE_ORDER|
    requires InDirectory(directory, KUSTOMIZATION_FILE_ORDER[i]) == InDirectory(directory, KUSTOMIZATION_FILE_ORDER[j])
    ensures i == j
  {
    NamesInOrder(KUSTOMIZATION_FILE_ORDER[i]);
    NamesInOrder(KUSTOMIZATION_FILE_ORDER[j]);
    InDirectoryParts(directory, KUSTOMIZATION_FILE_ORDER[i]);
    InDirectoryParts(directory, KUSTOMIZATION_FILE_ORDER[j]);
    assert |"kustomization.yaml"| == 18 && |"kustomization.yml"| == 17 && |"Kustomization"| == 13;
  }

  /** The references of the one kustomization file of a directory. */
  function Declared(r: Repository, directory: string): Option<seq<Reference>> {
    var k := KustomizationPath(directory, r.blobs);
    if k.None? || r.content(k.value).None? then None else r.references(r.content(k.value).value)
  }

  function Target(r: Repository, directory: string, ref: Reference): Option<string> {
    NormalizeReference(r.remote, ref.raw, directory)
  }

  /** The reference leads on to another directory. */
  ghost predicate LeadsTo(r: Repository, directory: string, ref: Reference, d: string) {
    ref.mayBeDirectory && Target(r, directory, ref) == Some(d) && IsDirectory(r.blobs, d)
  }

  /** The reference names a file. */
  ghost predicate NamesFile(r: Repository, directory: string, ref: Reference, p: string) {
    Target(r, directory, ref) == Some(p) && !(ref.mayBeDirectory && IsDirectory(r.blobs, p))
  }

  predicate Fetchable(r: Repository, p: string) {
    p in r.blobs && r.content(p).Some?
  }

  /** The reference can be followed. */
  ghost predicate Resolves(r: Repository, directory: string, ref: Reference) {
    var t := Target(r, directory, ref);
    t.Some? && (LeadsTo(r, directory, ref, t.value) || Fetchable(r, t.value))
  }

  /** One kustomization file, readable, all of whose references can be followed. */
  ghost predicate InOrder(r: Repository, directory: string) {
    var refs := Declared(r, directory);
    refs.Some? && forall i :: 0 <= i < |refs.value| ==> Resolves(r, directory, refs.value[i])
  }

  ghost predicate Edge(r: Repository, from: string, to: string) {
    var refs := Declared(r, from);
    refs.Some? && exists i :: 0 <= i < |refs.value| && LeadsTo(r, from, refs.value[i], to)
  }

  /** The directory needs the file: its kustomization file, or a file it refers to. */
  ghost predicate Needs(r: Repository, directory: string, p: string) {
    || KustomizationPath(directory, r.blobs) == Some(p)
    || (var refs := Declared(r, directory);
        refs.Some? && exists i :: 0 <= i < |refs.value| && NamesFile(r, directory, refs.value[i], p))
  }

  // ----- The closure -----

  ghost predicate IsPath(r: Repository, path: seq<string>, from: string, to: string) {
    && path != [] && path[0] == from && path[|path| - 1] == to
    && forall i :: 0 <= i < |path| - 1 ==> Edge(r, path[i], path[i + 1])
  }

  ghost predicate Reachable(r: Repository, source: string, d: string) {
    exists path :: IsPath(r, path, source, d)
  }

  ghost predicate Wanted(r: Repository, source: string, p: string) {
    exists d :: Reachable(r, source, d) && Needs(r, d, p)
  }

  /** Every file that some reachable directory needs. */
  ghost function Closure(r: Repository, source: string): set<string> {
    set p | p in r.blobs && Wanted(r, source, p)
  }

  function Size(r: Repository, p: string): nat {
    if r.content(p).Some? then |r.content(p).value| else 0
  }

  ghost function TotalSize(r: Repository, files: set<string>): nat {
    if files == {} then 0
    else
      var p :| p in files;
      Size(r, p) + TotalSize(r, files - {p})
  }

  function Under(blobs: set<string>, directory: string): set<string> {
    set p | p in blobs && (directory == ROOT || p == directory || directory + "/" <= p)
  }

  ghost predicate WithinLimits(r: Repository, files: set<string>) {
    |files| <= MAX_RENDER_SOURCE_FILES && TotalSize(r, files) <= MAX_RENDER_SOURCE_BYTES
  }

  /** The tree below `source` can be collected. */
  ghost predicate Collectable(r: Repository, source: string) {
    && |Under(r.blobs, source)| <= MAX_RENDER_SOURCE_FILES
    && (forall d :: Reachable(r, source, d) ==> InOrder(r, d))
    && WithinLimits(r, Closure(r, source))
  }

  // ----- Reachability -----

  lemma SourceIsReachable(r: Repository, source: string)
    ensures Reachable(r, source, source)
  {
    assert IsPath(r, [source], source, source);
  }

  lemma ReachableStep(r: Repository, source: string, d: string, e: string)
    requires Reachable(r, source, d) && Edge(r, d, e)
    ensures Reachable(r, source, e)
  {
    var path :| IsPath(r, path, source, d);
    PathExtended(r, path, source, d, e);
  }

  lemma PathExtended(r: Repository, path: seq<string>, source: string, d: string, e: string)
    requires IsPath(r, path, source, d) && Edge(r, d, e)
    ensures IsPath(r, path + [e], source, e)
  {
    var longer := path + [e];
    forall i | 0 <= i < |longer| - 1
      ensures Edge(r, longer[i], longer[i + 1])
    {
      if i < |path| - 1 {
        assert longer[i] == path[i] && longer[i + 1] == path[i + 1];
      }
    }
  }

  /** A set that contains the source and is closed under edges contains everything reachable. */
  lemma {:induction false} ClosedContainsPath(r: Repository, closed: set<string>, path: seq<string>, source: string, d: string)
    requires IsPath(r, path, source, d) && source in closed
    requires forall x, y :: x in closed && Edge(r, x, y) ==> y in closed
    ensures d in closed
    decreases |path|
  {
    if |path| > 1 {
      var n := |path| - 1;
      var init := path[..n];
      forall i | 0 <= i < |init| - 1
        ensures Edge(r, init[i], init[i + 1])
      {
        assert Edge(r, path[i], path[i + 1]);
      }
      ClosedContainsPath(r, closed, init, source, path[n - 1]);
      assert Edge(r, path[n - 1], path[n]);
    }
  }

  lemma ClosedContainsReachable(r: Repository, closed: set<string>, source: string)
    requires source in closed
    requires forall x, y :: x in closed && Edge(r, x, y) ==> y in closed
    ensures forall d :: Reachable(r, source, d) ==> d in closed
  {
    forall d | Reachable(r, source, d)
      ensures d in closed
    {
      var path :| IsPath(r, path, source, d);
      ClosedContainsPath(r, closed, path, source, d);
    }
  }

  // ----- The closure, spelled out -----

  /** The blob paths are what `normalize_tree_path` returns. */
  predicate PlainBlobs(r: Repository) {
    forall p :: p in r.blobs ==> Inside(p)
  }

  /** The directory has one kustomization file, which can be read and declares these references. */
  ghost predicate DeclaresIn(r: Repository, directory: string, path: string, content: Bytes, refs: seq<Reference>) {
    OnlyKustomization(directory, r.blobs, path) && r.content(path) == Some(content) && r.references(content) == Some(refs)
  }

  lemma DeclaredIff(r: Repository, directory: string, refs: seq<Reference>)
    requires PlainBlobs(r)
    ensures Declared(r, directory) == Some(refs) <==> exists path, content :: DeclaresIn(r, directory, path, content, refs)
  {
    if Declared(r, directory) == Some(refs) {
      var path := KustomizationPath(directory, r.blobs).value;
      ChosenIffOnly(directory, r.blobs, path);
      assert DeclaresIn(r, directory, path, r.content(path).value, refs);
    }
    if path, content :| DeclaresIn(r, directory, path, content, refs) {
      ChosenIffOnly(directory, r.blobs, path);
    }
  }

  /** The reference leads from the directory to another one, or to a file that can be read. */
  ghost predicate CanFollow(r: Repository, directory: string, ref: Reference) {
    var t := NormalizeReference(r.remote, ref.raw, directory);
    && t.Some?
    && (|| (ref.mayBeDirectory && IsDirectory(r.blobs, t.value))
        || (t.value in r.blobs && r.content(t.value).Some?))
  }

  /** A directory is in order exactly when it has one readable kustomization file all of whose references can be followed. */
  lemma InOrderIff(r: Repository, directory: string)
    requires PlainBlobs(r)
    ensures InOrder(r, directory) <==>
      exists path, content, refs :: DeclaresIn(r, directory, path, content, refs) && forall ref :: ref in refs ==> CanFollow(r, directory, ref)
  {
    if InOrder(r, directory) {
      var refs := Declared(r, directory).value;
      DeclaredIff(r, directory, refs);
      var path, content :| DeclaresIn(r, directory, path, content, refs);
      assert forall ref :: ref in refs ==> CanFollow(r, directory, ref);
    }
    if path, content, refs :| DeclaresIn(r, directory, path, content, refs) && forall ref :: ref in refs ==> CanFollow(r, directory, ref) {
      DeclaredIff(r, directory, refs);
      forall i | 0 <= i < |refs|
        ensures Resolves(r, directory, refs[i])
      {
        assert refs[i] in refs;
      }
    }
  }

  /**
   * Directories and files from which no reference leads out: with a directory its
   * kustomization file, the directories it refers to and the blobs it refers to as files.
   */
  ghost predicate IsClosed(r: Repository, directories: iset<string>, files: set<string>) {
    forall d, path, content, refs :: d in directories && DeclaresIn(r, d, path, content, refs) ==>
      path in files && forall ref :: ref in refs ==> FollowedIn(r, d, ref, directories, files)
  }

  ghost predicate FollowedIn(r: Repository, directory: string, ref: Reference, directories: iset<string>, files: set<string>) {
    var t := NormalizeReference(r.remote, ref.raw, directory);
    t.Some? ==>
      if ref.mayBeDirectory && IsDirectory(r.blobs, t.value) then t.value in directories
      else t.value in r.blobs ==> t.value in files
  }

  ghost function ReachableFrom(r: Repository, source: string): iset<string> {
    iset d | Reachable(r, source, d)
  }

  lemma ReachableIsClosed(r: Repository, source: string)
    requires PlainBlobs(r)
    ensures source in ReachableFrom(r, source) && IsClosed(r, ReachableFrom(r, source), Closure(r, source))
  {
    SourceIsReachable(r, source);
    forall d, path, content, refs | d in ReachableFrom(r, source) && DeclaresIn(r, d, path, content, refs)
      ensures path in Closure(r, source)
      ensures forall ref :: ref in refs ==> FollowedIn(r, d, ref, ReachableFrom(r, source), Closure(r, source))
    {
      DeclaredIff(r, d, refs);
      ChosenIffOnly(d, r.blobs, path);
      assert Needs(r, d, path);
      forall ref | ref in refs
        ensures FollowedIn(r, d, ref, ReachableFrom(r, source), Closure(r, source))
      {
        var i :| 0 <= i < |refs| && refs[i] == ref;
        ReferenceIsFollowed(r, source, d, refs, i);
      }
    }
  }

  lemma ReferenceIsFollowed(r: Repository, source: string, d: string, refs: seq<Reference>, i: nat)
    requires Reachable(r, source, d) && Declared(r, d) == Some(refs) && i < |refs|
    ensures FollowedIn(r, d, refs[i], ReachableFrom(r, source), Closure(r, source))
  {
    var t := Target(r, d, refs[i]);
    if t.Some? {
      if refs[i].mayBeDirectory && IsDirectory(r.blobs, t.value) {
        assert LeadsTo(r, d, refs[i], t.value);
        ReachableStep(r, source, d, t.value);
      } else {
        assert NamesFile(r, d, refs[i], t.value);
        assert Needs(r, d, t.value);
      }
    }
  }

  lemma ClosedFollowsEdge(r: Repository, directories: iset<string>, files: set<string>, d: string, e: string)
    requires PlainBlobs(r) && IsClosed(r, directories, files) && d in directories && Edge(r, d, e)
    ensures e in directories
  {
    var refs := Declared(r, d).value;
    DeclaredIff(r, d, refs);
    var path, content :| DeclaresIn(r, d, path, content, refs);
    var i :| 0 <= i < |refs| && LeadsTo(r, d, refs[i], e);
    assert refs[i] in refs && FollowedIn(r, d, refs[i], directories, files);
  }

  lemma ClosedHasNeeded(r: Repository, directories: iset<string>, files: set<string>, d: string, p: string)
    requires PlainBlobs(r) && IsClosed(r, directories, files) && d in directories
    requires Declared(r, d).Some? && Needs(r, d, p) && p in r.blobs
    ensures p in files
  {
    var refs := Declared(r, d).value;
    DeclaredIff(r, d, refs);
    var path, content :| DeclaresIn(r, d, path, content, refs);
    ChosenIffOnly(d, r.blobs, path);
    if KustomizationPath(d, r.blobs) != Some(p) {
      var i :| 0 <= i < |refs| && NamesFile(r, d, refs[i], p);
      assert refs[i] in refs && FollowedIn(r, d, refs[i], directories, files);
    }
  }

  lemma {:induction false} ClosedHasPath(r: Repository, directories: iset<string>, files: set<string>, path: seq<string>, source: string, d: string)
    requires PlainBlobs(r) && IsClosed(r, directories, files) && source in directories && IsPath(r, path, source, d)
    ensures d in directories
    decreases |path|
  {
    if |path| > 1 {
      var n := |path| - 1;
      var init := path[..n];
      forall i | 0 <= i < |init| - 1
        ensures Edge(r, init[i], init[i + 1])
      {
        assert Edge(r, path[i], path[i + 1]);
      }
      ClosedHasPath(r, directories, files, init, source, path[n - 1]);
      assert Edge(r, path[n - 1], path[n]);
      ClosedFollowsEdge(r, directories, files, path[n - 1], d);
    }
  }

  /**
   * The reachable directories and the closure are the least ones that hold the source
   * and from which no reference leads out, when every reachable directory is in order.
   */
  lemma ClosureIsLeast(r: Repository, source: string, directories: iset<string>, files: set<string>)
    requires PlainBlobs(r) && (forall d :: Reachable(r, source, d) ==> InOrder(r, d))
    ensures source in ReachableFrom(r, source) && IsClosed(r, ReachableFrom(r, source), Closure(r, source))
    ensures source in directories && IsClosed(r, directories, files) ==>
      ReachableFrom(r, source) <= directories && Closure(r, source) <= files
  {
    ReachableIsClosed(r, source);
    if source in directories && IsClosed(r, directories, files) {
      forall d | Reachable(r, source, d)
        ensures d in directories
      {
        var path :| IsPath(r, path, source, d);
        ClosedHasPath(r, directories, files, path, source, d);
      }
      forall p | p in Closure(r, source)
        ensures p in files
      {
        var d :| Reachable(r, source, d) && Needs(r, d, p);
        ClosedHasNeeded(r, directories, files, d, p);
      }
    }
  }

  /** The blobs at or below a directory, by their components. */
  function Below(blobs: set<string>, directory: string): set<string> {
    set p | p in blobs && (directory == "." || Split(directory) <= Split(p))
  }

  /** What is collected is in order throughout and within both limits, and so is the tree below the source. */
  lemma CollectableIff(r: Repository, source: string)
    ensures Collectable(r, source) <==>
      && (forall d :: d in ReachableFrom(r, source) ==> InOrder(r, d))
      && |Below(r.blobs, source)| <= 500 && |Closure(r, source)| <= 500 && TotalSize(r, Closure(r, source)) <= 5242880
  {
    forall p | p in r.blobs
      ensures p in Under(r.blobs, source) <==> p in Below(r.blobs, source)
    {
      ComponentPrefixIsTextual(source, p);
    }
    assert Under(r.blobs, source) == Below(r.blobs, source);
  }

  // ----- Sizes -----

  lemma {:induction false} TotalSizeRemove(r: Repository, files: set<string>, p: string)
    requires p in files
    ensures TotalSize(r, files) == Size(r, p) + TotalSize(r, files - {p})
    decreases |files|
  {
    var q :| q in files && TotalSize(r, files) == Size(r, q) + TotalSize(r, files - {q});
    if p != q {
      TotalSizeRemove(r, files - {q}, p);
      TotalSizeRemove(r, files - {p}, q);
      assert files - {q} - {p} == files - {p} - {q};
    }
  }

  lemma TotalSizeAdd(r: Repository, files: set<string>, p: string)
    requires p !in files
    ensures TotalSize(r, files + {p}) == TotalSize(r, files) + Size(r, p)
  {
    TotalSizeRemove(r, files + {p}, p);
    assert files + {p} - {p} == files;
  }

  lemma {:induction false} SmallerIsWithinLimits(r: Repository, small: set<string>, large: set<string>)
    requires small <= large
    ensures |small| <= |large| && TotalSize(r, small) <= TotalSize(r, large)
    decreases |large|
  {
    if p :| p in large && p !in small {
      SmallerIsWithinLimits(r, small, large - {p});
      TotalSizeRemove(r, large, p);
    } else {
      assert small == large;
    }
  }

  // ----- Fetching -----

  /** The contents collected so far, with the running byte count. */
  ghost predicate Consistent(r: Repository, contents: map<string, Bytes>, total: nat) {
    && (forall p :: p in contents ==> p in r.blobs && r.content(p) == Some(contents[p]))
    && total == TotalSize(r, contents.Keys)
    && WithinLimits(r, contents.Keys)
  }

  method Fetch(r: Repository, contents: map<string, Bytes>, total: nat, path: string)
    returns (ok: bool, contents': map<string, Bytes>, total': nat)
    requires Consistent(r, contents, total)
    ensures ok <==> Fetchable(r, path) && WithinLimits(r, contents.Keys + {path})
    ensures ok ==> Consistent(r, contents', total') && contents'.Keys == contents.Keys + {path}
  {
    contents', total' := contents, total;
    if path in contents {
      assert contents.Keys + {path} == contents.Keys;
      return true, contents, total;
    }
    if path !in r.blobs {
      return false, contents, total;
    }
    LimitsWithOneMore(r, contents, total, path);
    if |contents| >= MAX_RENDER_SOURCE_FILES {
      return false, contents, total;
    }
    var content := r.content(path);
    if content.None? {
      return false, contents, total;
    }
    total' := total + |content.value|;
    if total' > MAX_RENDER_SOURCE_BYTES {
      return false, contents, total';
    }
    contents' := contents[path := content.value];
    StaysConsistent(r, contents, total, path, content.value);
    return true, contents', total';
  }

  /** One more file keeps the limits exactly when there is room for it in both counters. */
  lemma LimitsWithOneMore(r: Repository, contents: map<string, Bytes>, total: nat, path: string)
    requires Consistent(r, contents, total) && path !in contents
    ensures WithinLimits(r, contents.Keys + {path}) <==>
            |contents| < MAX_RENDER_SOURCE_FILES && total + Size(r, path) <= MAX_RENDER_SOURCE_BYTES
  {
    TotalSizeAdd(r, contents.Keys, path);
    assert |contents.Keys + {path}| == |contents.Keys| + 1;
    assert |contents.Keys| == |contents|;
  }

  lemma StaysConsistent(r: Repository, contents: map<string, Bytes>, total: nat, path: string, content: Bytes)
    requires Consistent(r, contents, total) && path !in contents && path in r.blobs && r.content(path) == Some(content)
    requires |contents| < MAX_RENDER_SOURCE_FILES && total + |content| <= MAX_RENDER_SOURCE_BYTES
    ensures contents[path := content].Keys == contents.Keys + {path}
    ensures Consistent(r, contents[path := content], total + |content|)
  {
    TotalSizeAdd(r, contents.Keys, path);
    assert contents[path := content].Keys == contents.Keys + {path};
  }

  /** Failing to fetch a wanted file means that the tree cannot be collected. */
  lemma FetchFailureIsFinal(r: Repository, source: string, d: string, files: set<string>, path: string)
    requires Reachable(r, source, d) && Needs(r, d, path) && files <= Closure(r, source)
    requires !(Fetchable(r, path) && WithinLimits(r, files + {path}))
    requires InOrder(r, d) ==> Fetchable(r, path)
    ensures !Collectable(r, source)
  {
    if Collectable(r, source) {
      assert InOrder(r, d);
      assert Wanted(r, source, path);
      SmallerIsWithinLimits(r, files + {path}, Closure(r, source));
      assert false;
    }
  }

  // ----- The walk -----

  /** Everything a directory needs has been fetched, and everything it leads to is known. */
  ghost predicate Settled(r: Repository, d: string, files: set<string>, known: set<string>) {
    && InOrder(r, d)
    && (forall p :: Needs(r, d, p) ==> p in files)
    && (forall e :: Edge(r, d, e) ==> e in known)
  }

  ghost function Elements(xs: seq<string>): set<string> {
    set x | x in xs
  }

  /** The state of the walk; `open` is the directory being processed, if any. */
  ghost predicate WalkInvariant(
    r: Repository, source: string, pending: seq<string>, visited: set<string>, open: set<string>,
    contents: map<string, Bytes>, total: nat)
  {
    && source in visited + Elements(pending)
    && (forall d :: d in visited + Elements(pending) ==> Reachable(r, source, d) && (d == source || IsDirectory(r.blobs, d)))
    && (forall d :: d in visited - open ==> Settled(r, d, contents.Keys, visited + Elements(pending)))
    && contents.Keys <= Closure(r, source)
    && Consistent(r, contents, total)
  }

  /** The part of `Settled` that holds once the first `n` references are processed. */
  ghost predicate PartlySettled(r: Repository, d: string, refs: seq<Reference>, n: nat, files: set<string>, known: set<string>)
    requires n <= |refs|
  {
    && (forall i :: 0 <= i < n ==> Resolves(r, d, refs[i]))
    && (forall i, p :: 0 <= i < n && NamesFile(r, d, refs[i], p) ==> p in files)
    && (forall i, e :: 0 <= i < n && LeadsTo(r, d, refs[i], e) ==> e in known)
  }

  /** The invariant survives when the known directories and the fetched files only grow. */
  lemma InvariantGrows(
    r: Repository, source: string, visited: set<string>, open: set<string>,
    pending: seq<string>, contents: map<string, Bytes>, total: nat,
    pending': seq<string>, contents': map<string, Bytes>, total': nat)
    requires WalkInvariant(r, source, pending, visited, open, contents, total)
    requires Elements(pending) <= Elements(pending') && contents.Keys <= contents'.Keys
    requires forall d :: d in Elements(pending') - Elements(pending) ==> Reachable(r, source, d) && IsDirectory(r.blobs, d)
    requires contents'.Keys <= Closure(r, source) && Consistent(r, contents', total')
    ensures WalkInvariant(r, source, pending', visited, open, contents', total')
  {
    var known, known' := visited + Elements(pending), visited + Elements(pending');
    forall d | d in known'
      ensures Reachable(r, source, d) && (d == source || IsDirectory(r.blobs, d))
    {
      if d !in known {
        assert d in Elements(pending') - Elements(pending);
      }
    }
    forall d | d in visited - open
      ensures Settled(r, d, contents'.Keys, known')
    {
      assert Settled(r, d, contents.Keys, known);
    }
  }

  lemma PartlySettledGrows(
    r: Repository, d: string, refs: seq<Reference>, n: nat,
    files: set<string>, known: set<string>, files': set<string>, known': set<string>)
    requires n < |refs| && PartlySettled(r, d, refs, n, files, known) && files <= files' && known <= known'
    requires Resolves(r, d, refs[n])
    requires forall p :: NamesFile(r, d, refs[n], p) ==> p in files'
    requires forall e :: LeadsTo(r, d, refs[n], e) ==> e in known'
    ensures PartlySettled(r, d, refs, n + 1, files', known')
  {
  }

  lemma UnresolvedIsFinal(r: Repository, source: string, d: string, refs: seq<Reference>, n: nat)
    requires Reachable(r, source, d) && Declared(r, d) == Some(refs) && n < |refs| && !Resolves(r, d, refs[n])
    ensures !Collectable(r, source)
  {
    assert !InOrder(r, d);
  }

  /** Queues a directory that a reference leads to. */
  lemma DirectoryQueued(
    r: Repository, source: string, directory: string, refs: seq<Reference>, n: nat, t: string,
    pending: seq<string>, visited: set<string>, contents: map<string, Bytes>, total: nat)
    requires WalkInvariant(r, source, pending, visited, {directory}, contents, total)
    requires directory in visited && Declared(r, directory) == Some(refs) && n < |refs|
    requires LeadsTo(r, directory, refs[n], t)
    requires PartlySettled(r, directory, refs, n, contents.Keys, visited + Elements(pending))
    ensures WalkInvariant(r, source, pending + [t], visited, {directory}, contents, total)
    ensures PartlySettled(r, directory, refs, n + 1, contents.Keys, visited + Elements(pending + [t]))
  {
    assert Edge(r, directory, t);
    assert directory in visited + Elements(pending);
    ReachableStep(r, source, directory, t);
    assert Elements(pending + [t]) == Elements(pending) + {t};
    InvariantGrows(r, source, visited, {directory}, pending, contents, total, pending + [t], contents, total);
    PartlySettledGrows(r, directory, refs, n, contents.Keys, visited + Elements(pending),
                       contents.Keys, visited + Elements(pending + [t]));
  }

  /** Records a file that a reference names. */
  lemma FileFetched(
    r: Repository, source: string, directory: string, refs: seq<Reference>, n: nat, t: string,
    pending: seq<string>, visited: set<string>, contents: map<string, Bytes>, total: nat,
    contents': map<string, Bytes>, total': nat)
    requires WalkInvariant(r, source, pending, visited, {directory}, contents, total)
    requires directory in visited && Declared(r, directory) == Some(refs) && n < |refs|
    requires NamesFile(r, directory, refs[n], t) && Fetchable(r, t)
    requires PartlySettled(r, directory, refs, n, contents.Keys, visited + Elements(pending))
    requires Consistent(r, contents', total') && contents'.Keys == contents.Keys + {t}
    ensures WalkInvariant(r, source, pending, visited, {directory}, contents', total')
    ensures PartlySettled(r, directory, refs, n + 1, contents'.Keys, visited + Elements(pending))
  {
    assert directory in visited + Elements(pending);
    assert Needs(r, directory, t);
    assert Wanted(r, source, t);
    InvariantGrows(r, source, visited, {directory}, pending, contents, total, pending, contents', total');
    PartlySettledGrows(r, directory, refs, n, contents.Keys, visited + Elements(pending),
                       contents'.Keys, visited + Elements(pending));
  }

  /** Processes one reference: a directory is queued, a file is fetched. */
  method FollowReference(
    r: Repository, directories: set<string>, ghost source: string, directory: string, ghost refs: seq<Reference>, ghost n: nat,
    ref: Reference, pending: seq<string>, ghost visited: set<string>, contents: map<string, Bytes>, total: nat)
    returns (ok: bool, pending': seq<string>, contents': map<string, Bytes>, total': nat)
    requires forall d :: d in directories <==> IsDirectory(r.blobs, d)
    requires WalkInvariant(r, source, pending, visited, {directory}, contents, total)
    requires directory in visited && Declared(r, directory) == Some(refs) && n < |refs| && refs[n] == ref
    requires PartlySettled(r, directory, refs, n, contents.Keys, visited + Elements(pending))
    ensures !ok ==> !Collectable(r, source)
    ensures ok ==> WalkInvariant(r, source, pending', visited, {directory}, contents', total')
    ensures ok ==> PartlySettled(r, directory, refs, n + 1, contents'.Keys, visited + Elements(pending'))
    ensures ok ==> contents.Keys <= contents'.Keys
  {
    pending', contents', total' := pending, contents, total;
    assert directory in visited + Elements(pending);
    var target := Target(r, directory, ref);
    if target.None? {
      UnresolvedIsFinal(r, source, directory, refs, n);
      return false, pending', contents', total';
    }
    if ref.mayBeDirectory && target.value in directories {
      DirectoryQueued(r, source, directory, refs, n, target.value, pending, visited, contents, total);
      pending' := pending + [target.value];
      return true, pending', contents', total';
    }
    ok, contents', total' := Fetch(r, contents, total, target.value);
    if ok {
      FileFetched(r, source, directory, refs, n, target.value, pending, visited, contents, total, contents', total');
    } else {
      assert NamesFile(r, directory, refs[n], target.value);
      FileFailureIsFinal(r, source, directory, refs, n, contents.Keys, target.value);
    }
  }

  lemma FileFailureIsFinal(
    r: Repository, source: string, d: string, refs: seq<Reference>, n: nat, files: set<string>, t: string)
    requires Reachable(r, source, d) && Declared(r, d) == Some(refs) && n < |refs| && NamesFile(r, d, refs[n], t)
    requires files <= Closure(r, source) && !(Fetchable(r, t) && WithinLimits(r, files + {t}))
    ensures !Collectable(r, source)
  {
    assert Needs(r, d, t);
    assert InOrder(r, d) ==> Resolves(r, d, refs[n]);
    FetchFailureIsFinal(r, source, d, files, t);
  }

  /** A directory whose references are all processed is settled. */
  lemma DirectorySettled(
    r: Repository, source: string, directory: string, refs: seq<Reference>,
    pending: seq<string>, visited: set<string>, contents: map<string, Bytes>, total: nat)
    requires WalkInvariant(r, source, pending, visited, {directory}, contents, total)
    requires Declared(r, directory) == Some(refs)
    requires KustomizationPath(directory, r.blobs).Some? && KustomizationPath(directory, r.blobs).value in contents
    requires PartlySettled(r, directory, refs, |refs|, contents.Keys, visited + Elements(pending))
    ensures WalkInvariant(r, source, pending, visited, {}, contents, total)
  {
    var known := visited + Elements(pending);
    IsSettled(r, directory, refs, contents.Keys, known);
    forall d | d in visited - {}
      ensures Settled(r, d, contents.Keys, known)
    {
      assert d != directory ==> d in visited - {directory};
    }
  }

  /** A directory whose file is fetched and whose references are all processed is settled. */
  lemma IsSettled(r: Repository, directory: string, refs: seq<Reference>, files: set<string>, known: set<string>)
    requires Declared(r, directory) == Some(refs) && PartlySettled(r, directory, refs, |refs|, files, known)
    requires KustomizationPath(directory, r.blobs).Some? && KustomizationPath(directory, r.blobs).value in files
    ensures Settled(r, directory, files, known)
  {
  }

  lemma KustomizationFetched(
    r: Repository, source: string, directory: string, k: string,
    pending: seq<string>, visited: set<string>, contents: map<string, Bytes>, total: nat,
    contents': map<string, Bytes>, total': nat)
    requires WalkInvariant(r, source, pending, visited, {directory}, contents, total) && directory in visited
    requires KustomizationPath(directory, r.blobs) == Some(k)
    requires Consistent(r, contents', total') && contents'.Keys == contents.Keys + {k}
    ensures WalkInvariant(r, source, pending, visited, {directory}, contents', total')
  {
    assert directory in visited + Elements(pending);
    assert Needs(r, directory, k);
    assert Wanted(r, source, k);
    InvariantGrows(r, source, visited, {directory}, pending, contents, total, pending, contents', total');
  }

  /** Processes one directory: its kustomization file and all its references. */
  method ProcessDirectory(
    r: Repository, directories: set<string>, ghost source: string, directory: string,
    pending: seq<string>, ghost visited: set<string>, contents: map<string, Bytes>, total: nat)
    returns (ok: bool, pending': seq<string>, contents': map<string, Bytes>, total': nat)
    requires forall d :: d in directories <==> IsDirectory(r.blobs, d)
    requires WalkInvariant(r, source, pending, visited, {directory}, contents, total) && directory in visited
    ensures !ok ==> !Collectable(r, source)
    ensures ok ==> WalkInvariant(r, source, pending', visited, {}, contents', total')
  {
    pending', contents', total' := pending, contents, total;
    assert directory in visited + Elements(pending);
    var k := KustomizationPath(directory, r.blobs);
    if k.None? {
      assert !InOrder(r, directory);
      return false, pending', contents', total';
    }
    ok, contents', total' := Fetch(r, contents, total, k.value);
    if !ok {
      assert Needs(r, directory, k.value);
      FetchFailureIsFinal(r, source, directory, contents.Keys, k.value);
      return;
    }
    KustomizationFetched(r, source, directory, k.value, pending, visited, contents, total, contents', total');
    var refs := r.references(contents'[k.value]);
    assert refs == Declared(r, directory);
    if refs.None? {
      assert !InOrder(r, directory);
      return false, pending', contents', total';
    }
    for i := 0 to |refs.value|
      invariant ok && k.value in contents'
      invariant WalkInvariant(r, source, pending', visited, {directory}, contents', total')
      invariant PartlySettled(r, directory, refs.value, i, contents'.Keys, visited + Elements(pending'))
    {
      ok, pending', contents', total' := FollowReference(
        r, directories, source, directory, refs.value, i, refs.value[i], pending', visited, contents', total');
      if !ok {
        return;
      }
    }
    DirectorySettled(r, source, directory, refs.value, pending', visited, contents', total');
  }

  /** Taking a directory off the work list keeps it known: it is visited before or from now on. */
  lemma DirectoryTaken(
    r: Repository, source: string, pending: seq<string>, visited: set<string>, contents: map<string, Bytes>, total: nat)
    requires pending != [] && WalkInvariant(r, source, pending, visited, {}, contents, total)
    ensures var d := pending[|pending| - 1]; var rest := pending[..|pending| - 1];
      && (d == source || IsDirectory(r.blobs, d))
      && (d in visited ==> WalkInvariant(r, source, rest, visited, {}, contents, total))
      && (d !in visited ==> WalkInvariant(r, source, rest, visited + {d}, {d}, contents, total))
  {
    var d, rest := pending[|pending| - 1], pending[..|pending| - 1];
    assert pending == rest + [d];
    assert Elements(pending) == Elements(rest) + {d};
    assert visited + {d} + Elements(rest) == visited + Elements(pending);
    assert d in visited + Elements(pending);
    if d !in visited {
      assert visited + {d} - {d} == visited - {};
    } else {
      assert visited + Elements(rest) == visited + Elements(pending);
    }
  }

  /** When the work list is empty the visited directories are the reachable ones and everything is fetched. */
  lemma WalkIsComplete(r: Repository, source: string, visited: set<string>, contents: map<string, Bytes>, total: nat)
    requires WalkInvariant(r, source, [], visited, {}, contents, total)
    requires |Under(r.blobs, source)| <= MAX_RENDER_SOURCE_FILES
    ensures Collectable(r, source) && contents.Keys == Closure(r, source)
  {
    assert visited + Elements([]) == visited && visited - {} == visited;
    ClosedContainsReachable(r, visited, source);
    forall p | p in Closure(r, source)
      ensures p in contents.Keys
    {
      var d :| Reachable(r, source, d) && Needs(r, d, p);
      assert Settled(r, d, contents.Keys, visited);
    }
    assert contents.Keys == Closure(r, source);
  }

  lemma InitialWalk(r: Repository, source: string)
    ensures WalkInvariant(r, source, [source], {}, {}, map[], 0)
  {
    SourceIsReachable(r, source);
    var none: map<string, Bytes> := map[];
    assert none.Keys == {} && TotalSize(r, {}) == 0;
    assert Elements([source]) == {source};
  }

  /** One round of the work list: the last directory is skipped or processed. */
  method TakeDirectory(
    r: Repository, directories: set<string>, source: string,
    pending: seq<string>, visited: set<string>, contents: map<string, Bytes>, total: nat)
    returns (ok: bool, pending': seq<string>, visited': set<string>, contents': map<string, Bytes>, total': nat)
    requires forall d :: d in directories <==> IsDirectory(r.blobs, d)
    requires pending != [] && WalkInvariant(r, source, pending, visited, {}, contents, total)
    ensures !ok ==> !Collectable(r, source)
    ensures ok ==> WalkInvariant(r, source, pending', visited', {}, contents', total')
    ensures ok ==> || (visited' == visited && |pending'| < |pending|)
                   || (visited < visited' && visited' - visited <= directories + {source})
  {
    var directory := pending[|pending| - 1];
    DirectoryTaken(r, source, pending, visited, contents, total);
    if directory in visited {
      return true, pending[..|pending| - 1], visited, contents, total;
    }
    visited' := visited + {directory};
    ok, pending', contents', total' :=
      ProcessDirectory(r, directories, source, directory, pending[..|pending| - 1], visited', contents, total);
  }

  /** The work list loop. It ends because every round shortens the list or visits a new directory. */
  method WalkDirectories(r: Repository, directories: set<string>, source: string)
    returns (ok: bool, ghost visited: set<string>, contents: map<string, Bytes>, total: nat)
    requires forall d :: d in directories <==> IsDirectory(r.blobs, d)
    ensures !ok ==> !Collectable(r, source)
    ensures ok ==> WalkInvariant(r, source, [], visited, {}, contents, total)
  {
    contents, total := map[], 0;
    var pending, seen: set<string> := [source], {};
    InitialWalk(r, source);
    while pending != []
      invariant WalkInvariant(r, source, pending, seen, {}, contents, total)
      decreases (directories + {source}) - seen, |pending|
    {
      ok, pending, seen, contents, total := TakeDirectory(r, directories, source, pending, seen, contents, total);
      if !ok {
        return false, seen, contents, total;
      }
    }
    return true, seen, contents, total;
  }

  /** `collect_kustomize_source_contents`, with its byte counter. */
  method CollectKustomizeSourceContents(r: Repository, source: string)
    returns (result: Option<map<string, Bytes>>, totalBytes: nat)
    ensures result.Some? <==> Collectable(r, source)
    ensures result.Some? ==> result.value.Keys == Closure(r, source)
    ensures result.Some? ==> forall p :: p in result.value ==> r.content(p) == Some(result.value[p])
    ensures result.Some? ==> totalBytes == TotalSize(r, result.value.Keys)
  {
    if |Under(r.blobs, source)| > MAX_RENDER_SOURCE_FILES {
      return None, 0;
    }
    var directories := RepositoryDirectories(r.blobs);
    var ok, visited, contents, total := WalkDirectories(r, directories, source);
    if !ok {
      return None, total;
    }
    WalkIsComplete(r, source, visited, contents, total);
    return Some(contents), total;
  }
}
