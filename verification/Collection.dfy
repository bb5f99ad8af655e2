/** Declared artifact collection: a walk over the workspace that counts
    entries, matching cells, files and bytes as it goes and refuses at the first
    excess or offending entry. Directory order is the file system's choice; the
    verdict and the sorted list do not depend on it. */
module Collection {
  import opened Seqs
  import opened Glob

  const MAX_ARTIFACT_WALK_ENTRIES: nat := 65_536
  const MAX_ARTIFACT_MATCHING_CELLS: nat := 8_388_608
  const MAX_ARTIFACT_FILES_PER_ATTEMPT: nat := 1_024
  const MAX_ATTEMPT_ARTIFACT_BYTES: nat := 256 * 1_048_576
  const MAX_ARTIFACT_OBJECT_NAME_BYTES: nat := 512
  const MAX_ARTIFACT_NAME_BYTES: nat := 128
  const U64_MAX: nat := 0xFFFF_FFFF_FFFF_FFFF
  const AGENT_SPOOL_DIRECTORY := "spool"

  // ----- The workspace -----

  /** An entry's name: UTF-8 text, or other bytes with their lossy spelling. */
  datatype Name = Utf8(text: string) | Raw(lossy: string, bytes: seq<nat>)
  {
    function Spelled(): string { if Utf8? then text else lossy }
  }

  type Path = seq<Name>

  datatype Opening = Opened | OpenFailed | Replaced

  /** What `fstatat` finds at a path, and what opening a directory there gives. */
  datatype Found =
    | Unstatable
    | Link
    | Directory(opening: Opening)
    | Regular(size: nat, device: nat, inode: nat)
    | Other

  type Tree = map<Path, Found>

  ghost predicate WellFormed(t: Tree)
  {
    && (forall p :: p in t ==> p != [])
    && (forall p: Path, i :: p in t && 0 <= i < |p| ==> '/' !in p[i].Spelled())
    && (forall p, k :: p in t && 0 < k < |p| ==> p[..k] in t && t[p[..k]].Directory?)
    && (forall p :: p in t && t[p].Regular? ==> t[p].size <= U64_MAX)
  }

  function Shown(p: Path): (segments: seq<string>)
    ensures |segments| == |p|
    ensures forall i :: 0 <= i < |p| ==> segments[i] == p[i].Spelled()
  {
    if p == [] then [] else Shown(p[..|p| - 1]) + [p[|p| - 1].Spelled()]
  }

  function Text(p: Path): string { Join(Shown(p), '/') }

  // ----- The declarations -----

  datatype ArtifactSpec = ArtifactSpec(name: string, paths: seq<string>)

  predicate ValidName(name: string)
  {
    && 0 < |name| <= MAX_ARTIFACT_NAME_BYTES
    && name[0] != '.'
    && forall i :: 0 <= i < |name| ==>
         var c := name[i];
         'a' <= c <= 'z' || 'A' <= c <= 'Z' || '0' <= c <= '9' || c == '.' || c == '_' || c == '-'
  }

  /** A stage's declarations carry valid, pairwise different names. */
  predicate Validated(specs: seq<ArtifactSpec>)
  {
    && (forall i :: 0 <= i < |specs| ==> ValidName(specs[i].name))
    && (forall i, j :: 0 <= i < j < |specs| ==> specs[i].name != specs[j].name)
  }

  function CompilePaths(paths: seq<string>): (patterns: seq<seq<Segment>>)
    ensures |patterns| == |paths|
    ensures forall i :: 0 <= i < |paths| ==> patterns[i] == Compile(Split(paths[i], '/'))
  {
    if paths == [] then []
    else CompilePaths(paths[..|paths| - 1]) + [Compile(Split(paths[|paths| - 1], '/'))]
  }

  function CompileSpecs(specs: seq<ArtifactSpec>): (declarations: seq<Declaration>)
    ensures |declarations| == |specs|
    ensures forall i :: 0 <= i < |specs| ==>
              declarations[i] == Declaration(specs[i].name, CompilePaths(specs[i].paths))
  {
    if specs == [] then []
    else
      var last := specs[|specs| - 1];
      CompileSpecs(specs[..|specs| - 1]) + [Declaration(last.name, CompilePaths(last.paths))]
  }

  // ----- What one entry means -----

  predicate IsSpool(p: Path) { |p| == 1 && p[0].Spelled() == AGENT_SPOOL_DIRECTORY }

  predicate UnderSpool(p: Path) { p != [] && p[0].Spelled() == AGENT_SPOOL_DIRECTORY }

  function Collects(d: seq<Declaration>, p: Path): (names: seq<string>)
  {
    if IsSpool(p) then [] else Matched(d, Shown(p))
  }

  predicate LooksBelow(d: seq<Declaration>, p: Path) { !IsSpool(p) && Descends(d, Shown(p)) }

  function Cells(d: seq<Declaration>, p: Path): nat
  {
    if IsSpool(p) then 0 else ClassifyCost(d, Shown(p))
  }

  predicate HasControl(s: string)
  {
    exists i :: 0 <= i < |s| && (s[i] as int < 0x20 || 0x7F <= s[i] as int <= 0x9F)
  }

  function ObjectName(declaration: string, text: string): string { declaration + "/" + text }

  predicate NameTooLong(names: seq<string>, text: string)
  {
    exists i :: 0 <= i < |names| && Utf8Bytes(ObjectName(names[i], text)) > MAX_ARTIFACT_OBJECT_NAME_BYTES
  }

  datatype Refusal =
    | MatchingBudgetSpent
    | LinkAt(path: string)
    | NotRegular(path: string)
    | IdentityChanged(path: string)
    | TooLong(path: string)
    | Unnameable(path: string)
    | TooManyFiles(count: nat)
    | TooManyBytes(bytes: nat)
    | TooDeep(path: string)
    | TooManyEntries(count: nat)
    | Unreadable(path: string)

  /** The refusal a visited entry earns by itself, if any. */
  function Offence(d: seq<Declaration>, t: Tree, p: Path): (refusal: Option<Refusal>)
    requires p in t && p != []
  {
    var names, below, text := Collects(d, p), LooksBelow(d, p), Text(p);
    if IsSpool(p) then None
    else if p[|p| - 1].Raw? then
      if names != [] || below then Some(Unnameable(text)) else None
    else match t[p]
      case Unstatable => Some(Unreadable(text))
      case Link => if names != [] || below then Some(LinkAt(text)) else None
      case Directory(opening) =>
        if !below then None
        else if |p| > MAX_ARTIFACT_WALK_DEPTH then Some(TooDeep(text))
        else if opening == OpenFailed then Some(Unreadable(text))
        else if opening == Replaced then Some(IdentityChanged(text))
        else None
      case Regular(_, _, _) =>
        if names == [] then None
        else if HasControl(text) then Some(Unnameable(text))
        else if NameTooLong(names, text) then Some(TooLong(text))
        else None
      case Other => if names != [] then Some(NotRegular(text)) else None
  }

  datatype CollectedFile = CollectedFile(name: string, relativePath: string, bytes: nat, device: nat, inode: nat,
                                         workspace: (nat, nat))

  /** One object per declaration the file belongs to. */
  function Objects(names: seq<string>, text: string, found: Found, workspace: (nat, nat)): (files: seq<CollectedFile>)
    requires found.Regular?
    ensures |files| == |names|
    ensures forall i :: 0 <= i < |names| ==>
              files[i] == CollectedFile(ObjectName(names[i], text), text, found.size, found.device, found.inode, workspace)
  {
    if names == [] then []
    else
      Objects(names[..|names| - 1], text, found, workspace) +
      [CollectedFile(ObjectName(names[|names| - 1], text), text, found.size, found.device, found.inode, workspace)]
  }

  function Product(n: nat, size: nat): (product: nat) { n * size }

  function TotalBytes(files: seq<CollectedFile>): (total: nat)
  {
    if files == [] then 0 else TotalBytes(files[..|files| - 1]) + files[|files| - 1].bytes
  }

  lemma {:induction false} TotalAppend(a: seq<CollectedFile>, b: seq<CollectedFile>)
    ensures TotalBytes(a + b) == TotalBytes(a) + TotalBytes(b)
    decreases |b|
  {
    if b == [] {
      assert a + b == a;
    } else {
      assert (a + b)[..|a + b| - 1] == a + b[..|b| - 1];
      TotalAppend(a, b[..|b| - 1]);
    }
  }

  lemma TotalSplit(left: seq<CollectedFile>, last: CollectedFile, right: seq<CollectedFile>)
    ensures TotalBytes(left + [last] + right) == TotalBytes(left + right) + last.bytes
  {
    TotalAppend(left + [last], right);
    TotalAppend(left, right);
    assert (left + [last])[..|left|] == left;
  }

  lemma Without(b: seq<CollectedFile>, k: nat)
    requires k < |b|
    ensures TotalBytes(b) == TotalBytes(b[..k] + b[k + 1..]) + b[k].bytes
    ensures multiset(b) == multiset(b[..k] + b[k + 1..]) + multiset{b[k]}
  {
    hide TotalBytes;
    assert b == b[..k] + [b[k]] + b[k + 1..];
    TotalSplit(b[..k], b[k], b[k + 1..]);
  }

  lemma SameLength(a: seq<CollectedFile>, b: seq<CollectedFile>)
    requires multiset(a) == multiset(b)
    ensures |a| == |b|
  {
    assert |multiset(a)| == |a| && |multiset(b)| == |b|;
  }

  lemma Cancel(x: multiset<CollectedFile>, y: multiset<CollectedFile>, f: CollectedFile)
    requires x + multiset{f} == y + multiset{f}
    ensures x == y
  {
    assert x == (x + multiset{f}) - multiset{f} && y == (y + multiset{f}) - multiset{f};
  }

  lemma PlaceInShuffle(a: seq<CollectedFile>, b: seq<CollectedFile>, i: nat) returns (k: nat)
    requires multiset(a) == multiset(b) && i < |a|
    ensures k < |b| && b[k] == a[i]
  {
    assert a[i] in multiset(a);
    k :| 0 <= k < |b| && b[k] == a[i];
  }

  lemma {:induction false} TotalShuffled(a: seq<CollectedFile>, b: seq<CollectedFile>)
    requires multiset(a) == multiset(b)
    ensures TotalBytes(a) == TotalBytes(b) && |a| == |b|
    decreases |a|
  {
    hide TotalBytes;
    SameLength(a, b);
    if a == [] {
      assert a == b;
    } else {
      var k := PlaceInShuffle(a, b, 0);
      Without(a, 0);
      Without(b, k);
      var fewerA, fewerB := a[..0] + a[1..], b[..k] + b[k + 1..];
      Cancel(multiset(fewerA), multiset(fewerB), a[0]);
      TotalShuffled(fewerA, fewerB);
    }
  }

  lemma {:induction false} ObjectsTotal(names: seq<string>, text: string, found: Found, workspace: (nat, nat))
    requires found.Regular?
    ensures TotalBytes(Objects(names, text, found, workspace)) == Product(|names|, found.size)
  {
    if names != [] {
      var before := names[..|names| - 1];
      ObjectsTotal(before, text, found, workspace);
      var files := Objects(names, text, found, workspace);
      assert files[..|files| - 1] == Objects(before, text, found, workspace);
      assert Product(|names|, found.size) == Product(|before|, found.size) + found.size;
    }
  }

  function FilesAt(d: seq<Declaration>, t: Tree, workspace: (nat, nat), p: Path): (files: seq<CollectedFile>)
  {
    if p in t && p != [] && t[p].Regular? && p[|p| - 1].Utf8?
    then Objects(Collects(d, p), Text(p), t[p], workspace) else []
  }

  function CountAt(d: seq<Declaration>, t: Tree, p: Path): nat { |FilesAt(d, t, (0, 0), p)| }

  function BytesAt(d: seq<Declaration>, t: Tree, p: Path): nat
  {
    if p in t && t[p].Regular? then Product(CountAt(d, t, p), t[p].size) else 0
  }

  // ----- What the walk means -----

  ghost predicate Enters(d: seq<Declaration>, t: Tree, p: Path)
  {
    p in t && p != [] && t[p].Directory? && p[|p| - 1].Utf8? && LooksBelow(d, p)
  }

  ghost predicate Reached(d: seq<Declaration>, t: Tree, p: Path)
  {
    forall k :: 0 < k < |p| ==> Enters(d, t, p[..k])
  }

  /** The entries visited: those with every proper ancestor entered. */
  ghost function Visited(d: seq<Declaration>, t: Tree): (visited: set<Path>)
  {
    set p | p in t && Reached(d, t, p)
  }

  ghost function Below(d: seq<Declaration>, t: Tree, dir: Path): (below: set<Path>)
  {
    set p | p in Visited(d, t) && |p| > |dir| && p[..|dir|] == dir
  }

  ghost function SumCells(d: seq<Declaration>, s: set<Path>): nat { SumOver(s, (p: Path) => Cells(d, p)) }

  ghost function SumFiles(d: seq<Declaration>, t: Tree, s: set<Path>): nat { SumOver(s, (p: Path) => CountAt(d, t, p)) }

  ghost function SumBytes(d: seq<Declaration>, t: Tree, s: set<Path>): nat { SumOver(s, (p: Path) => BytesAt(d, t, p)) }

  ghost predicate NoOffender(d: seq<Declaration>, t: Tree, s: set<Path>)
    requires forall p :: p in s ==> p in t && p != []
  {
    forall p :: p in s ==> Offence(d, t, p).None?
  }

  /** Collection is due: nothing visited offends and every total is in bounds. */
  ghost predicate Collectable(d: seq<Declaration>, t: Tree)
    requires WellFormed(t)
  {
    var visited := Visited(d, t);
    && NoOffender(d, t, visited)
    && |visited| <= MAX_ARTIFACT_WALK_ENTRIES
    && SumCells(d, visited) <= MAX_ARTIFACT_MATCHING_CELLS
    && SumFiles(d, t, visited) <= MAX_ARTIFACT_FILES_PER_ATTEMPT
    && SumBytes(d, t, visited) <= MAX_ATTEMPT_ARTIFACT_BYTES
  }

  ghost predicate Lists(files: seq<CollectedFile>, d: seq<Declaration>, t: Tree, workspace: (nat, nat), s: set<Path>)
  {
    && (forall f :: f in files <==> exists p :: p in s && f in FilesAt(d, t, workspace, p))
    && (forall i, j :: 0 <= i < j < |files| ==> files[i].name != files[j].name)
  }

  /** The answer: every object of the visited entries, once, ascending by name. */
  ghost predicate IsCollection(files: seq<CollectedFile>, d: seq<Declaration>, t: Tree, workspace: (nat, nat))
  {
    && (forall f :: f in files <==> exists p :: p in Visited(d, t) && f in FilesAt(d, t, workspace, p))
    && Ascending(files, (f: CollectedFile) => f.name)
  }

  /** The answer is determined by the declarations and the tree alone. */
  lemma CollectionUnique(a: seq<CollectedFile>, b: seq<CollectedFile>, d: seq<Declaration>, t: Tree, workspace: (nat, nat))
    requires IsCollection(a, d, t, workspace) && IsCollection(b, d, t, workspace)
    ensures a == b
  {
    AscendingUnique(a, b, (f: CollectedFile) => f.name);
  }

  // ----- Pruning loses nothing -----

  lemma {:induction false} MatchedOne(d: seq<Declaration>, path: seq<string>)
    ensures Matched(d, path) != [] <==> exists i :: 0 <= i < |d| && MatchesAny(d[i].patterns, path, false)
    ensures forall name :: name in Matched(d, path) <==>
              exists i :: 0 <= i < |d| && d[i].name == name && MatchesAny(d[i].patterns, path, false)
  {
    if d != [] {
      var before := d[..|d| - 1];
      MatchedOne(before, path);
      forall i | 0 <= i < |before| ensures before[i] == d[i] {}
      var last := d[|d| - 1];
      assert MatchesAny(last.patterns, path, false) ==> last.name in Matched(d, path);
      forall name | name in Matched(d, path)
        ensures exists i :: 0 <= i < |d| && d[i].name == name && MatchesAny(d[i].patterns, path, false)
      {
        if name in Matched(before, path) {
          var i :| 0 <= i < |before| && before[i].name == name && MatchesAny(before[i].patterns, path, false);
          assert d[i] == before[i];
        } else {
          assert d[|d| - 1].name == name;
        }
      }
      forall i | 0 <= i < |d| && MatchesAny(d[i].patterns, path, false) ensures d[i].name in Matched(d, path) {
        if i < |before| {
          assert before[i] == d[i];
          assert before[i].name in Matched(before, path);
        }
      }
      if Matched(d, path) != [] { assert Matched(d, path)[0] in Matched(d, path); }
    }
  }

  /** A declaration collects the entry or looks below it, and it is not the spool's. */
  ghost predicate Wanted(d: seq<Declaration>, p: Path)
  {
    !UnderSpool(p) && (Matched(d, Shown(p)) != [] || Descends(d, Shown(p)))
  }

  lemma WantedByOne(d: seq<Declaration>, path: seq<string>) returns (i: nat, j: nat, descent: bool)
    requires Matched(d, path) != [] || Descends(d, path)
    ensures i < |d| && j < |d[i].patterns| && Reaches(d[i].patterns[j], path, descent)
  {
    if Matched(d, path) != [] {
      MatchedOne(d, path);
      i :| 0 <= i < |d| && MatchesAny(d[i].patterns, path, false);
      j :| 0 <= j < |d[i].patterns| && Reaches(d[i].patterns[j], path, false);
      descent := false;
    } else {
      i :| 0 <= i < |d| && MatchesAny(d[i].patterns, path, true);
      j :| 0 <= j < |d[i].patterns| && Reaches(d[i].patterns[j], path, true);
      descent := true;
    }
  }

  /** An entry a declaration wants is one the walk looks for below every proper
      ancestor. */
  lemma AncestorsLookBelow(d: seq<Declaration>, p: Path, k: nat)
    requires 0 < k < |p| && Wanted(d, p)
    ensures LooksBelow(d, p[..k])
  {
    var i, j, descent := WantedByOne(d, Shown(p));
    var pattern, path := d[i].patterns[j], Shown(p);
    hide Reaches, Matched;
    if descent {
      DescentExact(pattern, path);
      var below :| below != [] && Reaches(pattern, path + below, false);
      AncestorDescends(pattern, path + below, k);
      assert (path + below)[..k] == path[..k];
    } else {
      AncestorDescends(pattern, path, k);
    }
    assert path[..k] == Shown(p[..k]);
    assert MatchesAny(d[i].patterns, Shown(p[..k]), true);
  }

  lemma PrefixVisited(d: seq<Declaration>, t: Tree, p: Path, k: nat)
    requires WellFormed(t) && p in t && 0 < k <= |p|
    requires forall j :: 0 < j < k ==> Enters(d, t, p[..j])
    ensures p[..k] in Visited(d, t)
  {
    assert k == |p| ==> p[..k] == p;
    forall j | 0 < j < k ensures Enters(d, t, p[..k][..j]) {
      assert p[..k][..j] == p[..j];
    }
  }

  lemma InnocentIsEntered(d: seq<Declaration>, t: Tree, q: Path)
    requires q in t && q != [] && t[q].Directory? && LooksBelow(d, q) && Offence(d, t, q).None?
    ensures Enters(d, t, q)
  {
  }

  lemma WantedParentEntered(d: seq<Declaration>, t: Tree, p: Path, k: nat)
    requires WellFormed(t) && NoOffender(d, t, Visited(d, t))
    requires p in t && 0 < k < |p| && Wanted(d, p)
    requires p[..k] in Visited(d, t)
    ensures Enters(d, t, p[..k])
  {
    AncestorsLookBelow(d, p, k);
    InnocentIsEntered(d, t, p[..k]);
  }

  /** Where nothing offends, pruning leaves no wanted entry unvisited. */
  lemma {:induction false} WantedIsVisited(d: seq<Declaration>, t: Tree, p: Path, k: nat)
    requires WellFormed(t) && NoOffender(d, t, Visited(d, t))
    requires p in t && 0 < k <= |p| && Wanted(d, p)
    ensures p[..k] in Visited(d, t)
  {
    forall j | 0 < j < k ensures Enters(d, t, p[..j]) {
      WantedIsVisited(d, t, p, j);
      WantedParentEntered(d, t, p, j);
    }
    PrefixVisited(d, t, p, k);
  }

  lemma SpoolStaysShut(d: seq<Declaration>, t: Tree, p: Path)
    requires p in Visited(d, t) && |p| > 1
    ensures !UnderSpool(p)
  {
    assert Enters(d, t, p[..1]);
    assert p[..1][0] == p[0];
  }

  /** `f` is an object a declaration asks for at `p`, pruning aside. */
  ghost predicate Declared(d: seq<Declaration>, t: Tree, workspace: (nat, nat), p: Path, f: CollectedFile)
  {
    p in t && t[p].Regular? && !UnderSpool(p) && f in Objects(Matched(d, Shown(p)), Text(p), t[p], workspace)
  }

  lemma VisitedIsDeclared(d: seq<Declaration>, t: Tree, workspace: (nat, nat), p: Path, f: CollectedFile)
    requires p in Visited(d, t) && f in FilesAt(d, t, workspace, p)
    ensures Declared(d, t, workspace, p, f)
  {
    if |p| > 1 { SpoolStaysShut(d, t, p); }
  }

  lemma DeclaredIsVisited(d: seq<Declaration>, t: Tree, workspace: (nat, nat), p: Path, f: CollectedFile)
    requires WellFormed(t) && NoOffender(d, t, Visited(d, t)) && Declared(d, t, workspace, p, f)
    ensures p in Visited(d, t) && f in FilesAt(d, t, workspace, p)
  {
    WantedIsVisited(d, t, p, |p|);
    assert p[..|p|] == p;
    assert Offence(d, t, p).None?;
  }

  /** When collection succeeds it holds exactly the regular files anywhere in
      the workspace that a declaration matches, the root spool excepted: no
      pruned directory hid one. */
  lemma NothingPruned(d: seq<Declaration>, t: Tree, workspace: (nat, nat), files: seq<CollectedFile>, f: CollectedFile)
    requires WellFormed(t) && Collectable(d, t) && IsCollection(files, d, t, workspace)
    ensures f in files <==> exists p :: Declared(d, t, workspace, p, f)
  {
    if f in files {
      var p :| p in Visited(d, t) && f in FilesAt(d, t, workspace, p);
      VisitedIsDeclared(d, t, workspace, p, f);
    }
    if p :| Declared(d, t, workspace, p, f) {
      DeclaredIsVisited(d, t, workspace, p, f);
    }
  }

  // ----- From the declared patterns to the collected files -----

  /** Pattern `j` of declaration `i` matches the regular file at `p` in the
      documented dialect, and `f` is its object. */
  ghost predicate Asked(specs: seq<ArtifactSpec>, t: Tree, workspace: (nat, nat), p: Path, i: nat, j: nat, f: CollectedFile)
  {
    && p in t && t[p].Regular? && !UnderSpool(p) && i < |specs| && j < |specs[i].paths|
    && Dialect(Split(specs[i].paths[j], '/'), Shown(p))
    && f == CollectedFile(ObjectName(specs[i].name, Text(p)), Text(p), t[p].size, t[p].device, t[p].inode, workspace)
  }

  lemma ObjectOf(names: seq<string>, text: string, found: Found, workspace: (nat, nat), f: CollectedFile)
    requires found.Regular?
    ensures f in Objects(names, text, found, workspace) <==>
            exists name :: name in names &&
              f == CollectedFile(ObjectName(name, text), text, found.size, found.device, found.inode, workspace)
  {
    var files := Objects(names, text, found, workspace);
    if f in files {
      var k :| 0 <= k < |files| && files[k] == f;
      assert names[k] in names;
    }
    if name :| name in names &&
              f == CollectedFile(ObjectName(name, text), text, found.size, found.device, found.inode, workspace) {
      var k :| 0 <= k < |names| && names[k] == name;
      assert files[k] == f;
    }
  }

  lemma CompiledMatches(spec: ArtifactSpec, path: seq<string>)
    ensures MatchesAny(CompilePaths(spec.paths), path, false) <==>
            exists j :: 0 <= j < |spec.paths| && Reaches(Compile(Split(spec.paths[j], '/')), path, false)
  {
    var patterns := CompilePaths(spec.paths);
    hide Reaches, Compile, Split;
    if j :| 0 <= j < |spec.paths| && Reaches(Compile(Split(spec.paths[j], '/')), path, false) {
      assert Reaches(patterns[j], path, false);
    }
  }

  lemma DeclaredIsAsked(specs: seq<ArtifactSpec>, t: Tree, workspace: (nat, nat), p: Path, f: CollectedFile)
    requires Declared(CompileSpecs(specs), t, workspace, p, f)
    ensures exists i, j :: Asked(specs, t, workspace, p, i, j, f)
  {
    var d := CompileSpecs(specs);
    hide Reaches, Compile, Split, Dialect, Objects, Matched, MatchesAny, CompilePaths;
    ObjectOf(Matched(d, Shown(p)), Text(p), t[p], workspace, f);
    MatchedOne(d, Shown(p));
    var name :| name in Matched(d, Shown(p)) &&
      f == CollectedFile(ObjectName(name, Text(p)), Text(p), t[p].size, t[p].device, t[p].inode, workspace);
    var i :| 0 <= i < |d| && d[i].name == name && MatchesAny(d[i].patterns, Shown(p), false);
    CompiledMatches(specs[i], Shown(p));
    var j :| 0 <= j < |specs[i].paths| && Reaches(Compile(Split(specs[i].paths[j], '/')), Shown(p), false);
    PathDialect(Split(specs[i].paths[j], '/'), Shown(p));
    assert Asked(specs, t, workspace, p, i, j, f);
  }

  lemma AskedIsDeclared(specs: seq<ArtifactSpec>, t: Tree, workspace: (nat, nat), p: Path, i: nat, j: nat, f: CollectedFile)
    requires Asked(specs, t, workspace, p, i, j, f) && StarFree(Shown(p))
    ensures Declared(CompileSpecs(specs), t, workspace, p, f)
  {
    var d := CompileSpecs(specs);
    hide Reaches, Compile, Split, Dialect, Objects, Matched, MatchesAny, CompilePaths;
    PathDialect(Split(specs[i].paths[j], '/'), Shown(p));
    CompiledMatches(specs[i], Shown(p));
    assert MatchesAny(d[i].patterns, Shown(p), false) && d[i].name == specs[i].name;
    MatchedOne(d, Shown(p));
    ObjectOf(Matched(d, Shown(p)), Text(p), t[p], workspace, f);
  }

  /** From the declarations as written to the files: a successful collection
      holds only objects of regular files that a declared pattern matches in the
      documented dialect, and all of them whose path holds no `*`. */
  lemma CollectedAsDeclared(specs: seq<ArtifactSpec>, t: Tree, workspace: (nat, nat), files: seq<CollectedFile>, f: CollectedFile)
    requires WellFormed(t) && Collectable(CompileSpecs(specs), t) && IsCollection(files, CompileSpecs(specs), t, workspace)
    ensures f in files ==> exists p, i, j :: Asked(specs, t, workspace, p, i, j, f)
    ensures (exists p, i, j :: Asked(specs, t, workspace, p, i, j, f) && StarFree(Shown(p))) ==> f in files
  {
    hide Declared, Asked, Collectable, IsCollection, WellFormed;
    NothingPruned(CompileSpecs(specs), t, workspace, files, f);
    if f in files {
      var p :| Declared(CompileSpecs(specs), t, workspace, p, f);
      DeclaredIsAsked(specs, t, workspace, p, f);
    }
    if p, i, j :| Asked(specs, t, workspace, p, i, j, f) && StarFree(Shown(p)) {
      AskedIsDeclared(specs, t, workspace, p, i, j, f);
    }
  }
}
