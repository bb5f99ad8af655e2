/** Whether a set of changed paths can be checked out on Windows as spelled,
    and whether a change needs the Windows run at all. */
module WindowsPaths {
  import opened Seqs
  import opened WindowsNames

  /** Case folding; every path with a character beyond ASCII is refused before
      a folded key is used, so ASCII is all that matters. */
  function FoldAll(parts: seq<string>): (r: seq<string>)
    ensures |r| == |parts|
  {
    if parts == [] then [] else [Lower(parts[0])] + FoldAll(parts[1..])
  }

  predicate IsAbsolute(path: string) { path != [] && path[0] == '/' }

  /** `PurePosixPath(path).parts`. */
  function Parts(path: string): (parts: seq<string>)
  {
    var root :=
      if !IsAbsolute(path) then []
      else if |path| >= 2 && path[1] == '/' && (|path| == 2 || path[2] != '/') then ["//"] else ["/"];
    root + Kept(Split(path, '/'))
  }

  predicate SafeComponents(path: string)
  {
    forall i :: 0 <= i < |Parts(path)| ==> !UnsafeComponent(Parts(path)[i])
  }

  /** The parts of a path are its components, after the root it starts from: none,
      one slash, or exactly two. */
  lemma PartsMean(components: seq<string>)
    requires components != [] && forall c :: c in components ==> c != "" && c != "." && '/' !in c
    ensures var s := Join(components, '/');
            && Parts(s) == components
            && Parts("/" + s) == ["/"] + components
            && Parts("//" + s) == ["//"] + components
            && Parts("///" + s) == ["/"] + components
  {
    hide Join, Split, Kept, Parts;
    var s := Join(components, '/');
    JoinEnds(components);
    SplitJoin(components, '/');
    KeptAll(components);
    RootedSplit(s);
    RootedSplit("/" + s);
    RootedSplit("//" + s);
    SlashesApart(s);
    RootsMean(s);
  }

  lemma SlashesApart(s: string)
    ensures "//" + s == "/" + ("/" + s) && "///" + s == "/" + ("//" + s)
  {
  }

  lemma RootsMean(s: string)
    requires s != [] && s[0] != '/'
    ensures Parts(s) == Kept(Split(s, '/')) && Parts("/" + s) == ["/"] + Kept(Split("/" + s, '/'))
    ensures Parts("//" + s) == ["//"] + Kept(Split("//" + s, '/')) && Parts("///" + s) == ["/"] + Kept(Split("///" + s, '/'))
  {
    hide Split, Kept;
    assert [] + Kept(Split(s, '/')) == Kept(Split(s, '/'));
    assert ("/" + s)[1] == s[0] && ("//" + s)[2] == s[0];
  }

  lemma RootedSplit(s: string)
    ensures Kept(Split("/" + s, '/')) == Kept(Split(s, '/'))
  {
    SplitPrepend("", s, '/');
    assert "" + ['/'] + s == "/" + s;
    assert ([""] + Split(s, '/'))[1..] == Split(s, '/');
  }

  // ----- Keys and collisions -----

  function FileKey(path: string): string { Join(FoldAll(Parts(path)), '/') }

  function Directory(path: string, k: nat): string
    requires k <= |Parts(path)|
  {
    Join(Parts(path)[..k], '/')
  }

  function DirectoryKey(path: string, k: nat): string
    requires k <= |Parts(path)|
  {
    Join(FoldAll(Parts(path))[..k], '/')
  }

  /** `path` has a proper ancestor spelled `directory` under the key `key`. */
  predicate Enters(path: string, key: string, directory: string)
  {
    exists k :: 0 < k < |Parts(path)| && DirectoryKey(path, k) == key && Directory(path, k) == directory
  }

  /** Two paths that cannot share a Windows checkout. */
  ghost predicate Clash(p: string, q: string)
  {
    || (FileKey(p) == FileKey(q) && p != q)
    || (exists key, a, b :: Enters(p, key, a) && Enters(q, key, b) && a != b)
    || (exists a :: Enters(p, FileKey(q), a))
    || (exists b :: Enters(q, FileKey(p), b))
  }

  /** Every component is safe and no two paths clash. */
  ghost predicate CheckoutSafe(paths: set<string>)
  {
    && (forall p :: p in paths ==> SafeComponents(p))
    && (forall p, q :: p in paths && q in paths ==> !Clash(p, q))
  }

  /** Taking paths away never makes a set unsafe. */
  lemma SafeDownwards(some: set<string>, all: set<string>)
    requires some <= all && CheckoutSafe(all)
    ensures CheckoutSafe(some)
  {
  }

  predicate Binds(m: map<string, string>, key: string, value: string) { key in m && m[key] == value }

  /** The directories of the paths done, and of `path` up to its `k`th ancestor. */
  ghost predicate Entered(done: set<string>, path: string, k: nat, key: string, directory: string)
  {
    || (exists q :: q in done && Enters(q, key, directory))
    || EntersEarly(path, k, key, directory)
  }

  predicate EntersEarly(path: string, k: nat, key: string, directory: string)
  {
    exists j :: 0 < j < k && j < |Parts(path)| && DirectoryKey(path, j) == key && Directory(path, j) == directory
  }

  /** What has been seen, keyed by folded spelling. */
  ghost predicate SeenFiles(done: set<string>, files: map<string, string>)
  {
    forall key, p :: Binds(files, key, p) <==> p in done && FileKey(p) == key
  }

  ghost predicate SeenDirectories(done: set<string>, path: string, k: nat, directories: map<string, string>)
  {
    forall key, a :: Binds(directories, key, a) <==> Entered(done, path, k, key, a)
  }

  /** A path whose keys meet nothing seen joins the safe paths. */
  lemma SafeStep(done: set<string>, p: string, files: map<string, string>, directories: map<string, string>)
    requires CheckoutSafe(done) && SafeComponents(p)
    requires SeenFiles(done, files) && SeenDirectories(done, p, |Parts(p)|, directories)
    requires forall key, a :: Enters(p, key, a) ==> key !in files
    requires FileKey(p) !in directories && (FileKey(p) in files ==> files[FileKey(p)] == p)
    ensures CheckoutSafe(done + {p})
  {
    hide SafeComponents, FileKey, Enters;
    forall q | q in done + {p} ensures !Clash(p, q) && !Clash(q, p) {
      NoClash(done, p, files, directories, q);
    }
  }

  lemma EntersIsEarly(p: string, key: string, a: string)
    ensures Enters(p, key, a) <==> EntersEarly(p, |Parts(p)|, key, a)
  {
  }

  lemma NoClash(done: set<string>, p: string, files: map<string, string>, directories: map<string, string>, q: string)
    requires SeenFiles(done, files) && SeenDirectories(done, p, |Parts(p)|, directories) && q in done + {p}
    requires forall key, a :: Enters(p, key, a) ==> key !in files
    requires FileKey(p) !in directories && (FileKey(p) in files ==> files[FileKey(p)] == p)
    ensures !Clash(p, q) && !Clash(q, p)
  {
    hide FileKey, Enters, EntersEarly, Parts;
    forall key, a ensures Enters(p, key, a) || Enters(q, key, a) ==> Binds(directories, key, a) {
      EntersIsEarly(p, key, a);
      assert Binds(directories, key, a) <==> Entered(done, p, |Parts(p)|, key, a);
    }
    if q in done {
      assert Binds(files, FileKey(q), q);
    }
    forall a ensures !Enters(p, FileKey(p), a) && !Enters(q, FileKey(p), a) {
      assert !Binds(directories, FileKey(p), a);
    }
  }

  /** A refused path: an unsafe component, or a clash within the paths given. */
  lemma Refused(paths: set<string>, p: string, q: string)
    requires p in paths && (!SafeComponents(p) || (q in paths && Clash(p, q)))
    ensures !CheckoutSafe(paths)
  {
  }

  lemma EarlyEnters(p: string, k: nat, key: string, a: string)
    requires EntersEarly(p, k, key, a)
    ensures Enters(p, key, a)
  {
  }

  lemma EnteredBySomeone(done: set<string>, p: string, k: nat, key: string, a: string) returns (q: string)
    requires Entered(done, p, k, key, a)
    ensures q in done + {p} && Enters(q, key, a)
  {
    if r :| r in done && Enters(r, key, a) {
      q := r;
    } else {
      EarlyEnters(p, k, key, a);
      q := p;
    }
  }

  /** One more ancestor of the path joins the directories seen. */
  lemma EnterOne(done: set<string>, p: string, k: nat, directories: map<string, string>)
    requires 0 < k < |Parts(p)| && SeenDirectories(done, p, k, directories)
    requires DirectoryKey(p, k) in directories ==> directories[DirectoryKey(p, k)] == Directory(p, k)
    ensures SeenDirectories(done, p, k + 1, directories[DirectoryKey(p, k) := Directory(p, k)])
  {
    hide Enters, Parts;
    var more := directories[DirectoryKey(p, k) := Directory(p, k)];
    forall key, a ensures Binds(more, key, a) <==> Entered(done, p, k + 1, key, a) {
      EarlyStep(p, k, key, a);
      assert Binds(directories, key, a) <==> Entered(done, p, k, key, a);
    }
  }

  lemma EarlyStep(p: string, k: nat, key: string, a: string)
    requires 0 < k < |Parts(p)|
    ensures EntersEarly(p, k + 1, key, a) <==>
            EntersEarly(p, k, key, a) || (key == DirectoryKey(p, k) && a == Directory(p, k))
  {
    hide Parts, DirectoryKey, Directory;
  }

  // ----- How refusals come about -----

  lemma NothingSeen()
    ensures CheckoutSafe({}) && SeenFiles({}, map[]) && SeenDirectories({}, "", 0, map[])
  {
  }

  lemma StartPath(done: set<string>, path: string, directories: map<string, string>)
    requires SeenDirectories(done, "", 0, directories)
    ensures SeenDirectories(done, path, 1, directories)
  {
    hide Enters, Parts;
    forall key, a ensures Entered(done, path, 1, key, a) <==> Entered(done, "", 0, key, a) {}
  }

  lemma PathDone(done: set<string>, path: string, k: nat, directories: map<string, string>)
    requires SeenDirectories(done, path, k, directories)
    requires k >= |Parts(path)| && k >= 1 && (k <= |Parts(path)| || k == 1)
    ensures SeenDirectories(done, path, |Parts(path)|, directories)
  {
    hide Enters, Parts;
    forall key, a ensures Entered(done, path, |Parts(path)|, key, a) <==> Entered(done, path, k, key, a) {}
  }

  lemma DirectoriesMore(done: set<string>, path: string, directories: map<string, string>)
    requires SeenDirectories(done, path, |Parts(path)|, directories)
    ensures SeenDirectories(done + {path}, "", 0, directories)
  {
    hide Enters, Parts;
    forall key, a ensures Entered(done + {path}, "", 0, key, a) <==> Entered(done, path, |Parts(path)|, key, a) {
      EntersIsEarly(path, key, a);
      if q :| q in done && Enters(q, key, a) { assert q in done + {path}; }
      if Enters(path, key, a) { assert path in done + {path}; }
    }
  }

  lemma FilesMore(done: set<string>, path: string, files: map<string, string>)
    requires SeenFiles(done, files) && (FileKey(path) in files ==> files[FileKey(path)] == path)
    ensures SeenFiles(done + {path}, files[FileKey(path) := path])
  {
    hide FileKey;
    var more := files[FileKey(path) := path];
    forall key, p ensures Binds(more, key, p) <==> p in done + {path} && FileKey(p) == key {
      assert Binds(files, key, p) <==> p in done && FileKey(p) == key;
      if FileKey(p) == FileKey(path) && p in done { assert Binds(files, FileKey(path), p); }
    }
  }

  lemma FileMeetsFile(done: set<string>, path: string, files: map<string, string>, paths: set<string>)
    requires SeenFiles(done, files) && done <= paths && path in paths
    requires FileKey(path) in files && files[FileKey(path)] != path
    ensures !CheckoutSafe(paths)
  {
    hide FileKey;
    var q := files[FileKey(path)];
    assert Binds(files, FileKey(path), q);
    assert Clash(path, q);
    Refused(paths, path, q);
  }

  lemma FileMeetsDirectory(done: set<string>, path: string, directories: map<string, string>, paths: set<string>)
    requires SeenDirectories(done, path, |Parts(path)|, directories) && done <= paths && path in paths
    requires FileKey(path) in directories
    ensures !CheckoutSafe(paths)
  {
    hide FileKey, Enters, Parts;
    var a := directories[FileKey(path)];
    assert Binds(directories, FileKey(path), a);
    var q := EnteredBySomeone(done, path, |Parts(path)|, FileKey(path), a);
    assert Clash(path, q);
    Refused(paths, path, q);
  }

  lemma AncestorEnters(path: string, k: nat)
    requires 0 < k < |Parts(path)|
    ensures Enters(path, DirectoryKey(path, k), Directory(path, k))
  {
    hide Parts, DirectoryKey, Directory;
  }

  lemma DirectoryMeetsFile(done: set<string>, path: string, k: nat, files: map<string, string>, paths: set<string>)
    requires 0 < k < |Parts(path)| && SeenFiles(done, files) && done <= paths && path in paths
    requires DirectoryKey(path, k) in files
    ensures !CheckoutSafe(paths)
  {
    AncestorEnters(path, k);
    hide FileKey, Enters, Parts;
    var q := files[DirectoryKey(path, k)];
    assert Binds(files, DirectoryKey(path, k), q);
    assert Clash(path, q);
    Refused(paths, path, q);
  }

  lemma DirectoryMeetsDirectory(done: set<string>, path: string, k: nat, directories: map<string, string>, paths: set<string>)
    requires 0 < k < |Parts(path)| && SeenDirectories(done, path, k, directories) && done <= paths && path in paths
    requires DirectoryKey(path, k) in directories && directories[DirectoryKey(path, k)] != Directory(path, k)
    ensures !CheckoutSafe(paths)
  {
    AncestorEnters(path, k);
    hide FileKey, Enters, Parts;
    var key := DirectoryKey(path, k);
    assert Binds(directories, key, directories[key]);
    var q := EnteredBySomeone(done, path, k, key, directories[key]);
    assert Clash(path, q);
    Refused(paths, path, q);
  }


  function Elements(s: seq<string>): set<string> { set p | p in s }

  /** Nothing is returned exactly when the paths are safe to check out, in
      whatever order they are visited. */
  method FirstUnsafePath(order: seq<string>) returns (unsafe: Option<string>)
    ensures unsafe.None? <==> CheckoutSafe(Elements(order))
    ensures unsafe.Some? ==> unsafe.value in order
  {
    hide SafeComponents, Clash, SeenFiles, SeenDirectories, Parts, FileKey;
    ghost var paths := Elements(order);
    var files: map<string, string> := map[];
    var directories: map<string, string> := map[];
    NothingSeen();
    assert Elements(order[..0]) == {};
    for i := 0 to |order|
      invariant CheckoutSafe(Elements(order[..i]))
      invariant SeenFiles(Elements(order[..i]), files)
      invariant SeenDirectories(Elements(order[..i]), "", 0, directories)
    {
      var path := order[i];
      ghost var done := Elements(order[..i]);
      assert path in paths && done <= paths;
      assert Elements(order[..i + 1]) == done + {path};
      if !SafeComponents(path) {
        Refused(paths, path, path);
        return Some(path);
      }
      var ok;
      ok, directories := VisitDirectories(path, files, directories, done, paths);
      if !ok { return Some(path); }
      var key := FileKey(path);
      if key in directories {
        FileMeetsDirectory(done, path, directories, paths);
        return Some(path);
      }
      if key in files && files[key] != path {
        FileMeetsFile(done, path, files, paths);
        return Some(path);
      }
      SafeStep(done, path, files, directories);
      FilesMore(done, path, files);
      DirectoriesMore(done, path, directories);
      files := files[key := path];
    }
    assert order[..|order|] == order;
    unsafe := None;
  }

  /** The ancestors of one path, outermost first. */
  method VisitDirectories(path: string, files: map<string, string>, directories: map<string, string>,
                          ghost done: set<string>, ghost paths: set<string>)
    returns (ok: bool, more: map<string, string>)
    requires SeenFiles(done, files) && SeenDirectories(done, "", 0, directories)
    requires done <= paths && path in paths
    ensures ok ==> SeenDirectories(done, path, |Parts(path)|, more)
    ensures ok ==> forall key, a :: Enters(path, key, a) ==> key !in files
    ensures !ok ==> !CheckoutSafe(paths)
  {
    hide Clash, SeenFiles, SeenDirectories, Parts, FileKey, DirectoryKey, Directory, CheckoutSafe;
    more := directories;
    StartPath(done, path, directories);
    var n := |Parts(path)|;
    var k := 1;
    while k < n
      invariant 1 <= k && (k <= n || k == 1)
      invariant SeenDirectories(done, path, k, more)
      invariant forall j :: 0 < j < k && j < n ==> DirectoryKey(path, j) !in files
    {
      var key, directory := DirectoryKey(path, k), Directory(path, k);
      if key in files {
        DirectoryMeetsFile(done, path, k, files, paths);
        return false, more;
      }
      if key in more && more[key] != directory {
        DirectoryMeetsDirectory(done, path, k, more, paths);
        return false, more;
      }
      EnterOne(done, path, k, more);
      more := more[key := directory];
      k := k + 1;
    }
    ok := true;
    PathDone(done, path, k, more);
  }

  // ----- Clashes, component by component -----

  /** The same components, case aside. */
  ghost predicate SameFolded(a: seq<string>, b: seq<string>)
  {
    |a| == |b| && forall i :: 0 <= i < |a| ==> Lower(a[i]) == Lower(b[i])
  }

  lemma {:induction false} FoldAt(parts: seq<string>, i: nat)
    requires i < |parts|
    ensures FoldAll(parts)[i] == Lower(parts[i])
  {
    if i > 0 { FoldAt(parts[1..], i - 1); }
  }

  lemma FoldSame(a: seq<string>, b: seq<string>)
    ensures FoldAll(a) == FoldAll(b) <==> SameFolded(a, b)
  {
    forall i | 0 <= i < |a| ensures FoldAll(a)[i] == Lower(a[i]) { FoldAt(a, i); }
    forall i | 0 <= i < |b| ensures FoldAll(b)[i] == Lower(b[i]) { FoldAt(b, i); }
    hide FoldAll, Lower;
  }

  /** The components of a path: one or two slashes for an absolute one, then
      pieces that are not empty and hold no slash. */
  ghost predicate PartsShape(parts: seq<string>) { exists rest :: ShapedBy(parts, rest) }

  ghost predicate ShapedBy(parts: seq<string>, rest: seq<string>)
  {
    && (parts == rest || parts == ["/"] + rest || parts == ["//"] + rest)
    && forall c :: c in rest ==> c != "" && '/' !in c
  }

  lemma {:induction false} KeptShape(pieces: seq<string>)
    requires forall c :: c in pieces ==> '/' !in c
    ensures forall c :: c in Kept(pieces) ==> c != "" && '/' !in c
  {
    if pieces != [] {
      assert pieces[0] in pieces && forall c :: c in pieces[1..] ==> c in pieces;
      KeptShape(pieces[1..]);
    }
  }

  lemma ShapeOf(path: string)
    ensures PartsShape(Parts(path))
  {
    JoinSplit(path, '/');
    KeptShape(Split(path, '/'));
    var rest := Kept(Split(path, '/'));
    hide Kept, Split;
    assert Parts(path) == rest || Parts(path) == ["/"] + rest || Parts(path) == ["//"] + rest by {
      assert [] + rest == rest;
    }
    assert ShapedBy(Parts(path), rest);
  }

  lemma {:induction false} LowerKeepsSlashes(c: string)
    ensures '/' in Lower(c) <==> '/' in c
    ensures Lower("/") == "/" && Lower("//") == "//"
  {
    if c != [] {
      LowerKeepsSlashes(c[1..]);
      assert c == [c[0]] + c[1..];
      assert Lower(c) == [Lower(c)[0]] + Lower(c[1..]);
    } else {
      assert "//"[1..] == "/" && "/"[1..] == "";
    }
  }

  lemma FoldShape(parts: seq<string>)
    requires PartsShape(parts)
    ensures PartsShape(FoldAll(parts))
  {
    var rest :| ShapedBy(parts, rest);
    var folded := FoldAll(rest);
    LowerKeepsSlashes("");
    forall c | c in folded ensures c != "" && '/' !in c {
      var i :| 0 <= i < |folded| && folded[i] == c;
      FoldAt(rest, i);
      assert rest[i] in rest;
      LowerKeepsSlashes(rest[i]);
    }
    assert (["/"] + rest)[1..] == rest && (["//"] + rest)[1..] == rest;
    assert ShapedBy(FoldAll(parts), folded);
  }

  lemma TakeShape(parts: seq<string>, k: nat)
    requires PartsShape(parts) && k <= |parts|
    ensures PartsShape(parts[..k])
  {
    var rest :| ShapedBy(parts, rest);
    if parts == rest {
      assert forall c :: c in parts[..k] ==> c in rest;
      assert ShapedBy(parts[..k], parts[..k]);
    } else if k == 0 {
      assert ShapedBy(parts[..k], []);
    } else {
      TakeRooted(parts, rest, k);
    }
  }

  lemma TakeRooted(parts: seq<string>, rest: seq<string>, k: nat)
    requires (parts == ["/"] + rest || parts == ["//"] + rest) && 0 < k <= |parts|
    requires forall c :: c in rest ==> c != "" && '/' !in c
    ensures PartsShape(parts[..k])
  {
    var fewer := rest[..k - 1];
    forall i | 0 <= i < |fewer| ensures fewer[i] == rest[i] && rest[i] in rest {}
    assert parts == ["/"] + rest ==> parts[..k] == ["/"] + fewer;
    assert parts == ["//"] + rest ==> parts[..k] == ["//"] + fewer;
    assert ShapedBy(parts[..k], fewer);
  }

  function LeadingSlashes(s: string): nat { if s == [] || s[0] != '/' then 0 else 1 + LeadingSlashes(s[1..]) }

  lemma JoinedSlashes(root: string, rest: seq<string>)
    requires root in {"/", "//"} && forall c :: c in rest ==> c != "" && '/' !in c
    ensures var s := Join([root] + rest, '/');
            && LeadingSlashes(s) == |root| + (if rest == [] then 0 else 1)
            && (rest == [] ==> s == root) && (rest != [] ==> s == root + "/" + Join(rest, '/'))
    ensures LeadingSlashes(Join(rest, '/')) == 0
  {
    var s := Join([root] + rest, '/');
    assert ([root] + rest)[1..] == rest;
    if rest != [] {
      assert rest[0] in rest && rest[0][0] in rest[0];
      var tail := Join(rest, '/');
      assert tail[0] == rest[0][0];
      assert s == root + "/" + tail;
      SlashesThen(root + "/", tail);
    } else {
      assert root + "" == root;
      SlashesThen(root, "");
    }
  }

  lemma {:induction false} SlashesThen(slashes: string, rest: string)
    requires (forall i :: 0 <= i < |slashes| ==> slashes[i] == '/') && (rest == [] || rest[0] != '/')
    ensures LeadingSlashes(slashes + rest) == |slashes|
  {
    if slashes == [] {
      assert slashes + rest == rest;
    } else {
      assert (slashes + rest)[1..] == slashes[1..] + rest;
      SlashesThen(slashes[1..], rest);
    }
  }

  /** The root a shape has, and its components below. */
  lemma Unrooted(parts: seq<string>) returns (root: string, rest: seq<string>)
    requires PartsShape(parts)
    ensures root in {"", "/", "//"} && parts == (if root == "" then [] else [root]) + rest
    ensures forall c :: c in rest ==> c != "" && '/' !in c
  {
    rest :| ShapedBy(parts, rest);
    root := if parts == rest then "" else parts[0];
    assert [] + rest == rest;
  }

  /** Joined with slashes, such components can be told from any others. */
  lemma ShapeInjective(a: seq<string>, b: seq<string>)
    requires PartsShape(a) && PartsShape(b) && Join(a, '/') == Join(b, '/')
    ensures a == b
  {
    var ra, ta := Unrooted(a);
    var rb, tb := Unrooted(b);
    assert [] + ta == ta && [] + tb == tb;
    hide PartsShape;
    RootTold(ra, ta, rb, tb);
    if ta != [] && tb != [] {
      JoinInjective(ta, tb, '/');
    }
  }

  lemma RootTold(ra: string, ta: seq<string>, rb: string, tb: seq<string>)
    requires ra in {"", "/", "//"} && rb in {"", "/", "//"}
    requires forall c :: c in ta || c in tb ==> c != "" && '/' !in c
    requires Join((if ra == "" then [] else [ra]) + ta, '/') == Join((if rb == "" then [] else [rb]) + tb, '/')
    ensures ra == rb && (ta == [] <==> tb == []) && Join(ta, '/') == Join(tb, '/')
  {
    assert [] + ta == ta && [] + tb == tb;
    RootForm(ra, ta);
    RootForm(rb, tb);
    hide Join, LeadingSlashes;
    var s := Join((if ra == "" then [] else [ra]) + ta, '/');
    assert |"/"| == 1 && |"//"| == 2 && |""| == 0;
    if ta != [] && tb != [] {
      assert Join(ta, '/') == s[if ra == "" then 0 else |ra| + 1..];
      assert Join(tb, '/') == s[if rb == "" then 0 else |rb| + 1..];
    }
  }

  /** The joined form by root and rest: how many slashes it starts with and how
      long it is tell the two apart. */
  lemma RootForm(root: string, rest: seq<string>)
    requires root in {"", "/", "//"} && forall c :: c in rest ==> c != "" && '/' !in c
    ensures var s := Join((if root == "" then [] else [root]) + rest, '/');
            && (rest == [] ==> s == root && LeadingSlashes(s) == |root| && Join(rest, '/') == "")
            && (rest != [] ==> Join(rest, '/') != "" && s == (if root == "" then "" else root + "/") + Join(rest, '/'))
            && (rest != [] ==> LeadingSlashes(s) == (if root == "" then 0 else |root| + 1) && |s| > LeadingSlashes(s))
  {
    assert [] + rest == rest;
    if rest != [] { assert rest[0] in rest; }
    if root == "" {
      JoinedSlashes("/", rest);
      assert "" + Join(rest, '/') == Join(rest, '/');
    } else {
      JoinedSlashes(root, rest);
    }
  }

  lemma {:induction false} FoldTake(parts: seq<string>, k: nat)
    requires k <= |parts|
    ensures FoldAll(parts)[..k] == FoldAll(parts[..k])
  {
    if k > 0 {
      FoldTake(parts[1..], k - 1);
      assert parts[..k][1..] == parts[1..][..k - 1];
    }
  }

  /** Two folded keys are equal exactly for the same components, case aside. */
  lemma KeysTold(p: string, i: nat, q: string, j: nat)
    requires i <= |Parts(p)| && j <= |Parts(q)|
    ensures DirectoryKey(p, i) == DirectoryKey(q, j) <==> SameFolded(Parts(p)[..i], Parts(q)[..j])
    ensures Directory(p, i) == Directory(q, j) <==> Parts(p)[..i] == Parts(q)[..j]
  {
    var a, b := Parts(p), Parts(q);
    ShapeOf(p);
    ShapeOf(q);
    TakeShape(a, i);
    TakeShape(b, j);
    FoldShape(a[..i]);
    FoldShape(b[..j]);
    FoldTake(a, i);
    FoldTake(b, j);
    hide Parts, PartsShape, FoldAll, Join;
    FoldSame(a[..i], b[..j]);
    if DirectoryKey(p, i) == DirectoryKey(q, j) { ShapeInjective(FoldAll(a[..i]), FoldAll(b[..j])); }
    if Directory(p, i) == Directory(q, j) { ShapeInjective(a[..i], b[..j]); }
  }

  lemma FileKeyIs(p: string)
    ensures FileKey(p) == DirectoryKey(p, |Parts(p)|) && Parts(p)[..|Parts(p)|] == Parts(p)
  {
    assert FoldAll(Parts(p))[..|Parts(p)|] == FoldAll(Parts(p));
  }

  /** A directory of `p` spelled otherwise in `q`. */
  ghost predicate Respells(p: string, q: string, k: nat)
  {
    && 0 < k < |Parts(p)| && k < |Parts(q)|
    && SameFolded(Parts(p)[..k], Parts(q)[..k]) && Parts(p)[..k] != Parts(q)[..k]
  }

  /** The file `p` stands where `q` needs a directory, case aside. */
  ghost predicate Blocks(p: string, q: string)
  {
    0 < |Parts(p)| < |Parts(q)| && SameFolded(Parts(p), Parts(q)[..|Parts(p)|])
  }

  /** Two paths clash exactly when, case aside, they are one file spelled twice,
      share a directory spelled twice, or one is a directory of the other. */
  lemma ClashExact(p: string, q: string)
    ensures Clash(p, q) <==>
            || (p != q && SameFolded(Parts(p), Parts(q)))
            || (exists k :: Respells(p, q, k))
            || Blocks(p, q) || Blocks(q, p)
  {
    FileKeyIs(p);
    FileKeyIs(q);
    KeysTold(p, |Parts(p)|, q, |Parts(q)|);
    DirectoriesClash(p, q);
    BlocksExact(p, q);
    BlocksExact(q, p);
    hide FileKey, Enters, Respells, Blocks, Parts, SameFolded;
  }

  lemma DirectoriesClash(p: string, q: string)
    ensures (exists key, a, b :: Enters(p, key, a) && Enters(q, key, b) && a != b) <==> exists k :: Respells(p, q, k)
  {
    if key, a, b :| Enters(p, key, a) && Enters(q, key, b) && a != b {
      var i :| 0 < i < |Parts(p)| && DirectoryKey(p, i) == key && Directory(p, i) == a;
      var j :| 0 < j < |Parts(q)| && DirectoryKey(q, j) == key && Directory(q, j) == b;
      hide Parts, DirectoryKey, Directory;
      KeysTold(p, i, q, j);
      assert Respells(p, q, i);
    }
    if k :| Respells(p, q, k) {
      hide Parts, DirectoryKey, Directory;
      KeysTold(p, k, q, k);
      AncestorEnters(p, k);
      AncestorEnters(q, k);
    }
  }

  lemma BlocksExact(p: string, q: string)
    ensures (exists a :: Enters(q, FileKey(p), a)) <==> Blocks(p, q)
  {
    FileKeyIs(p);
    var n := |Parts(p)|;
    if a :| Enters(q, FileKey(p), a) {
      var j :| 0 < j < |Parts(q)| && DirectoryKey(q, j) == FileKey(p) && Directory(q, j) == a;
      hide Parts, DirectoryKey, Directory, FileKey;
      KeysTold(p, n, q, j);
      assert SameFolded(Parts(p)[..n], Parts(q)[..j]);
    }
    if Blocks(p, q) {
      hide Parts, DirectoryKey, Directory, FileKey;
      KeysTold(p, n, q, n);
      AncestorEnters(q, n);
    }
  }

  // ----- The decision -----

  const ALWAYS_RUN_PATHS := {".cargo/config", ".cargo/config.toml", ".gitattributes", ".github/workflows/windows-agent.yml",
                             "rust-toolchain.toml", "scripts/windows-agent-impact.py", "scripts/test-windows-agent-impact.py",
                             "scripts/windows-agent-war.ps1"}
  const VERIFIER_DIRECTORIES := {"migration", "crates/boundary-differential", "crates/differential-aggregate",
                                 "crates/jenkins-differential", "crates/jenkins-state-transfer", "crates/migration-package",
                                 "crates/state-policy-differential"}

  /** The path is the directory or lies below it, case aside. */
  predicate IsWithin(path: string, directory: string)
  {
    var candidate, root := Parts(Lower(path)), Parts(Lower(directory));
    root <= candidate && (root == [] ==> !IsAbsolute(path))
  }

  lemma {:induction false} SplitLower(s: string)
    ensures Split(Lower(s), '/') == FoldAll(Split(s, '/'))
  {
    if s != [] {
      SplitLower(s[1..]);
      var rest := Split(s[1..], '/');
      assert Lower(s)[1..] == Lower(s[1..]);
      if s[0] == '/' {
        assert ([""] + rest)[1..] == rest && Lower("") == "";
      } else {
        assert Lower([s[0]] + rest[0]) == [Lower(s)[0]] + Lower(rest[0]) by { assert ([s[0]] + rest[0])[1..] == rest[0]; }
        var parts := [[s[0]] + rest[0]] + rest[1..];
        assert parts[1..] == rest[1..];
      }
    }
  }

  lemma {:induction false} KeptFold(pieces: seq<string>)
    ensures Kept(FoldAll(pieces)) == FoldAll(Kept(pieces))
  {
    if pieces != [] {
      var c, kept := pieces[0], Kept(pieces[1..]);
      KeptFold(pieces[1..]);
      DotsStay(c);
      FoldCons(c, pieces[1..]);
      FoldCons(c, kept);
      hide Lower, FoldAll;
      assert pieces == [c] + pieces[1..];
      assert ([Lower(c)] + FoldAll(pieces[1..]))[1..] == FoldAll(pieces[1..]);
      assert [] + FoldAll(kept) == FoldAll(kept) && [] + kept == kept;
    }
  }

  lemma FoldCons(c: string, rest: seq<string>)
    ensures FoldAll([c] + rest) == [Lower(c)] + FoldAll(rest)
  {
    assert ([c] + rest)[1..] == rest;
  }

  lemma DotsStay(c: string)
    ensures (Lower(c) == "" <==> c == "") && (Lower(c) == "." <==> c == ".")
  {
    if |c| == 1 { assert c == [c[0]]; }
  }

  function RootOf(path: string): seq<string>
  {
    if !IsAbsolute(path) then []
    else if |path| >= 2 && path[1] == '/' && (|path| == 2 || path[2] != '/') then ["//"] else ["/"]
  }

  lemma RootFold(path: string)
    ensures RootOf(Lower(path)) == RootOf(path) && Parts(path) == RootOf(path) + Kept(Split(path, '/'))
  {
    forall i | 0 <= i < |path| ensures Lower(path)[i] == '/' <==> path[i] == '/' { LowerAt(path, i); }
    hide Lower, Split, Kept;
  }

  lemma FoldRooted(root: seq<string>, rest: seq<string>)
    requires root == [] || root == ["/"] || root == ["//"]
    ensures FoldAll(root + rest) == root + FoldAll(rest)
  {
    LowerKeepsSlashes("");
    assert [] + rest == rest && [] + FoldAll(rest) == FoldAll(rest);
    hide Lower;
    if root != [] { FoldCons(root[0], rest); }
  }

  /** Folding a path folds its components. */
  lemma PartsFold(path: string)
    ensures Parts(Lower(path)) == FoldAll(Parts(path))
  {
    SplitLower(path);
    KeptFold(Split(path, '/'));
    RootFold(path);
    RootFold(Lower(path));
    FoldRooted(RootOf(path), Kept(Split(path, '/')));
    hide Lower, Split, Kept, Parts, FoldAll;
  }

  /** A path is within a directory exactly when its first components are the
      directory's, case aside. */
  lemma WithinExact(path: string, directory: string)
    ensures IsWithin(path, directory) <==>
            var n := |Parts(directory)|;
            && n <= |Parts(path)| && SameFolded(Parts(path)[..n], Parts(directory))
            && (n == 0 ==> !IsAbsolute(path))
  {
    PartsFold(path);
    PartsFold(directory);
    var a, b := Parts(path), Parts(directory);
    hide Parts, Lower;
    if |b| <= |a| {
      FoldTake(a, |b|);
      FoldSame(a[..|b|], b);
    }
    hide FoldAll;
  }

  predicate AlwaysRuns(path: string) { Lower(path) in ALWAYS_RUN_PATHS }

  predicate WithinSome(path: string, directories: set<string>) { exists d :: d in directories && IsWithin(path, d) }

  predicate Touches(path: string, directories: set<string>)
  {
    AlwaysRuns(path) || WithinSome(path, VERIFIER_DIRECTORIES) || WithinSome(path, directories)
  }

  datatype Revision = Revision(directories: set<string>, closure: string, policy: string)

  /** The Windows run is required. */
  ghost predicate Required(paths: set<string>, base: Revision, head: Revision)
  {
    || !CheckoutSafe(paths)
    || (exists p :: p in paths && Touches(p, base.directories + head.directories))
    || base.closure != head.closure
    || base.policy != head.policy
  }

  /** The directory's components start the path, case aside. */
  ghost predicate Beneath(path: string, directory: string)
  {
    var n := |Parts(directory)|;
    n <= |Parts(path)| && SameFolded(Parts(path)[..n], Parts(directory)) && (n == 0 ==> !IsAbsolute(path))
  }

  ghost predicate BeneathSome(path: string, directories: set<string>)
  {
    exists d :: d in directories && Beneath(path, d)
  }

  lemma WithinSomeExact(path: string, directories: set<string>)
    ensures WithinSome(path, directories) <==> BeneathSome(path, directories)
  {
    forall d | d in directories ensures IsWithin(path, d) <==> Beneath(path, d) { WithinExact(path, d); }
    hide IsWithin, Beneath;
  }

  lemma EitherWithin(path: string, a: set<string>, b: set<string>)
    ensures BeneathSome(path, a + b) <==> BeneathSome(path, a) || BeneathSome(path, b)
  {
    hide Beneath;
  }

  /** The run is waived exactly when the paths check out safely, none is one of the
      fixed ones or lies below a watched directory, case aside, and neither the
      package closure nor the root policy moved. */
  lemma WaivedExact(paths: set<string>, base: Revision, head: Revision)
    ensures !Required(paths, base, head) <==>
            && CheckoutSafe(paths) && base.closure == head.closure && base.policy == head.policy
            && forall p :: p in paths ==>
                 && !AlwaysRuns(p) && !BeneathSome(p, VERIFIER_DIRECTORIES)
                 && !BeneathSome(p, base.directories) && !BeneathSome(p, head.directories)
  {
    hide CheckoutSafe, BeneathSome, AlwaysRuns, WithinSome;
    forall p ensures Touches(p, base.directories + head.directories) <==>
                     AlwaysRuns(p) || BeneathSome(p, VERIFIER_DIRECTORIES) ||
                     BeneathSome(p, base.directories) || BeneathSome(p, head.directories)
    {
      WithinSomeExact(p, VERIFIER_DIRECTORIES);
      WithinSomeExact(p, base.directories + head.directories);
      EitherWithin(p, base.directories, head.directories);
    }
    hide Touches;
  }

  method Classify(order: seq<string>, base: Revision, head: Revision) returns (run: bool)
    ensures run <==> Required(Elements(order), base, head)
  {
    hide CheckoutSafe, Touches;
    var unsafe := FirstUnsafePath(order);
    if unsafe.Some? { return true; }
    for i := 0 to |order|
      invariant forall k :: 0 <= k < i ==> !Touches(order[k], base.directories + head.directories)
    {
      if Touches(order[i], base.directories + head.directories) {
        assert order[i] in Elements(order);
        return true;
      }
    }
    run := base.closure != head.closure || base.policy != head.policy;
  }

  /** Adding changed paths never turns a required run into a waiver. */
  lemma MorePathsStillRun(some: set<string>, all: set<string>, base: Revision, head: Revision)
    requires some <= all && Required(some, base, head)
    ensures Required(all, base, head)
  {
    if CheckoutSafe(all) { SafeDownwards(some, all); }
    hide Touches, CheckoutSafe;
  }
}
