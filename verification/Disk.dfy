/** A file system without links: files and folders by absolute path, what a
    relative name finds from a root folder, and which names can all be files
    of one disk. */
module Disk {
  import opened Seqs

  type Path = seq<string>

  datatype Disk = Disk(files: map<Path, string>, folders: set<Path>)
  {
    predicate Exists(p: Path) { p in files || p in folders }
  }

  const PARENT := ".."

  predicate IsComponent(c: string) { c != "" && c != "." && c != PARENT && '/' !in c }

  /** Nothing is both a file and a folder, and all but the top is in a folder. */
  ghost predicate Shaped(d: Disk)
  {
    && [] in d.folders
    && (forall p :: p in d.files ==> p !in d.folders)
    && (forall p :: d.Exists(p) && p != [] ==> p[..|p| - 1] in d.folders && IsComponent(p[|p| - 1]))
  }

  lemma {:induction false} Ancestors(d: Disk, p: Path, k: nat)
    requires Shaped(d) && d.Exists(p) && k < |p|
    ensures p[..k] in d.folders && IsComponent(p[k])
    decreases |p|
  {
    hide IsComponent;
    if k < |p| - 1 {
      var parent := p[..|p| - 1];
      Ancestors(d, parent, k);
      assert parent[..k] == p[..k];
    }
  }

  // ----- Looking a name up -----

  function Step(at: Path, part: string): (next: Path)
  {
    if part != PARENT then at + [part] else if at == [] then [] else at[..|at| - 1]
  }

  /** Where the steps lead when every position passed is a folder. */
  function Climb(at: Path, parts: seq<string>): (end: Path)
    decreases |parts|
  {
    if parts == [] then at else Climb(Step(at, parts[0]), parts[1..])
  }

  function Passed(at: Path, parts: seq<string>): (folders: set<Path>)
    decreases |parts|
  {
    if parts == [] then {} else {at} + Passed(Step(at, parts[0]), parts[1..])
  }

  function Walk(folders: set<Path>, at: Path, parts: seq<string>): (end: Option<Path>)
    decreases |parts|
  {
    if parts == [] then Some(at)
    else if at !in folders then None
    else Walk(folders, Step(at, parts[0]), parts[1..])
  }

  lemma {:induction false} WalkClimbs(folders: set<Path>, at: Path, parts: seq<string>)
    ensures Walk(folders, at, parts) == if Passed(at, parts) <= folders then Some(Climb(at, parts)) else None
    decreases |parts|
  {
    if parts != [] { WalkClimbs(folders, Step(at, parts[0]), parts[1..]); }
  }

  function Start(root: Path, name: string): Path { if name != [] && name[0] == '/' then [] else root }

  /** Empty pieces and `.` fall away when a name is appended to a path. */
  function Pieces(name: string): seq<string> { Kept(Split(name, '/')) }

  /** The content of the file that `name` leads to from `root`, if it leads to one. */
  function Read(d: Disk, root: Path, name: string): (content: Option<string>)
  {
    var end := Walk(d.folders, Start(root, name), Pieces(name));
    if end.Some? && end.value in d.files then Some(d.files[end.value]) else None
  }

  function Spot(root: Path, name: string): Path { Climb(Start(root, name), Pieces(name)) }

  function Way(root: Path, name: string): set<Path> { Passed(Start(root, name), Pieces(name)) }

  lemma ReadAtSpot(d: Disk, root: Path, name: string)
    ensures Read(d, root, name).Some? <==> Way(root, name) <= d.folders && Spot(root, name) in d.files
    ensures Read(d, root, name).Some? ==> Read(d, root, name).value == d.files[Spot(root, name)]
  {
    WalkClimbs(d.folders, Start(root, name), Pieces(name));
  }

  // ----- Plain names -----

  /** A name as a walk of the root spells it. */
  ghost predicate Plain(name: string) { forall c :: c in Split(name, '/') ==> IsComponent(c) }

  lemma {:induction false} ClimbDown(at: Path, parts: seq<string>)
    requires forall c :: c in parts ==> IsComponent(c)
    ensures Climb(at, parts) == at + parts
    ensures forall p :: p in Passed(at, parts) ==> |at| <= |p| < |at + parts| && p == (at + parts)[..|p|]
    decreases |parts|
  {
    if parts == [] {
      assert at + parts == at;
    } else {
      assert parts[0] in parts;
      assert Step(at, parts[0]) == at + [parts[0]];
      hide IsComponent, Step;
      ClimbDown(at + [parts[0]], parts[1..]);
      assert at + [parts[0]] + parts[1..] == at + parts;
      assert (at + parts)[..|at|] == at;
    }
  }

  lemma PlainStart(root: Path, name: string)
    requires Plain(name)
    ensures Start(root, name) == root
  {
    assert Split(name, '/')[0] in Split(name, '/');
  }

  lemma PlainSpot(root: Path, name: string)
    requires Plain(name)
    ensures var parts := Split(name, '/');
            && Spot(root, name) == root + parts
            && forall p :: p in Way(root, name) ==> |root| <= |p| < |root + parts| && p == (root + parts)[..|p|]
  {
    PlainStart(root, name);
    KeptAll(Split(name, '/'));
    ClimbDown(root, Split(name, '/'));
  }

  /** A plain name is read exactly where it stands below the root. */
  lemma PlainRead(d: Disk, root: Path, name: string)
    requires Shaped(d) && Plain(name)
    ensures var p := root + Split(name, '/');
            Read(d, root, name) == if p in d.files then Some(d.files[p]) else None
  {
    var p := root + Split(name, '/');
    PlainSpot(root, name);
    ReadAtSpot(d, root, name);
    hide Plain, Read, Spot, Way, Split;
    if p in d.files {
      forall q | q in Way(root, name) ensures q in d.folders { Ancestors(d, p, |q|); }
    }
  }

  // ----- The files below a root, by name -----

  predicate Under(root: Path, p: Path) { |root| < |p| && p[..|root|] == root }

  function Names(d: Disk, root: Path): set<string>
  {
    set p | p in d.files && Under(root, p) :: Join(p[|root|..], '/')
  }

  function Bundle(d: Disk, root: Path): (files: map<string, string>)
  {
    map n | n in Names(d, root) && root + Split(n, '/') in d.files :: d.files[root + Split(n, '/')]
  }

  lemma BundleHas(d: Disk, root: Path, name: string)
    ensures name in Bundle(d, root) <==> root + Split(name, '/') in d.files
    ensures name in Bundle(d, root) ==> Bundle(d, root)[name] == d.files[root + Split(name, '/')]
  {
    var p := root + Split(name, '/');
    JoinSplit(name, '/');
    if p in d.files {
      assert Under(root, p) && p[|root|..] == Split(name, '/');
      assert name in Names(d, root);
    }
  }

  lemma ComponentsBelow(d: Disk, root: Path, parts: seq<string>)
    requires Shaped(d) && root + parts in d.files
    ensures forall c :: c in parts ==> IsComponent(c)
  {
    hide IsComponent, Shaped;
    forall c | c in parts ensures IsComponent(c) {
      var k :| 0 <= k < |parts| && parts[k] == c;
      Ancestors(d, root + parts, |root| + k);
    }
  }

  /** The bundle names every file below the root. */
  lemma BundleNames(d: Disk, root: Path, p: Path)
    requires Shaped(d) && p in d.files && Under(root, p)
    ensures var n := Join(p[|root|..], '/'); n in Bundle(d, root) && Bundle(d, root)[n] == d.files[p]
  {
    var parts := p[|root|..];
    assert root + parts == p;
    ComponentsBelow(d, root, parts);
    SplitJoin(parts, '/');
    hide Split, Join, Shaped;
    BundleHas(d, root, Join(parts, '/'));
  }

  /** The names in a bundle are plain. */
  lemma BundlePlain(d: Disk, root: Path, name: string)
    requires Shaped(d) && name in Bundle(d, root)
    ensures Plain(name)
  {
    hide Shaped, IsComponent;
    BundleHas(d, root, name);
    ComponentsBelow(d, root, Split(name, '/'));
  }

  // ----- Which names can be files of one disk -----

  predicate Prefix(a: Path, b: Path) { |a| <= |b| && b[..|a|] == a }

  /** `p` must be a folder on every disk where all of `names` are files. */
  ghost predicate Demanded(root: Path, names: set<string>, p: Path)
  {
    Prefix(p, root) || exists n, q :: n in names && q in Way(root, n) && Prefix(p, q)
  }

  /** No path that must be a file must be a folder as well. */
  ghost predicate Compatible(root: Path, names: set<string>)
  {
    forall n :: n in names ==> !Demanded(root, names, Spot(root, n))
  }

  lemma FoldersDemanded(d: Disk, root: Path, names: set<string>, p: Path)
    requires Shaped(d) && root in d.folders && forall n :: n in names ==> Read(d, root, n).Some?
    requires Demanded(root, names, p)
    ensures p in d.folders
  {
    if Prefix(p, root) {
      if p != root { Ancestors(d, root, |p|); }
    } else {
      var n, q :| n in names && q in Way(root, n) && Prefix(p, q);
      ReadAtSpot(d, root, n);
      if p != q { Ancestors(d, q, |p|); }
    }
  }

  /** Names that are all read on some disk are compatible. */
  lemma ReadableCompatible(d: Disk, root: Path, names: set<string>)
    requires Shaped(d) && root in d.folders && forall n :: n in names ==> Read(d, root, n).Some?
    ensures Compatible(root, names)
  {
    hide Demanded, Read;
    forall n | n in names ensures !Demanded(root, names, Spot(root, n)) {
      ReadAtSpot(d, root, n);
      if Demanded(root, names, Spot(root, n)) { FoldersDemanded(d, root, names, Spot(root, n)); }
    }
  }

  function Prefixes(p: Path): (all: set<Path>)
    ensures forall q :: q in all <==> Prefix(q, p)
  {
    if p == [] then {[]}
    else
      var shorter := Prefixes(p[..|p| - 1]);
      assert forall q :: Prefix(q, p) <==> q == p || Prefix(q, p[..|p| - 1]);
      shorter + {p}
  }

  function PrefixesOfAll(s: set<Path>): (all: set<Path>)
  {
    set q, p | q in s && p in Prefixes(q) :: p
  }

  function Ways(root: Path, names: set<string>): set<Path>
  {
    set n, q | n in names && q in Way(root, n) :: q
  }

  /** The folders every disk with these names must have. */
  function Skeleton(root: Path, names: set<string>): (folders: set<Path>)
  {
    Prefixes(root) + PrefixesOfAll(Ways(root, names))
  }

  lemma SkeletonDemanded(root: Path, names: set<string>, p: Path)
    ensures p in Skeleton(root, names) <==> Demanded(root, names, p)
  {
    hide Prefix, Prefixes, Way;
    if p in PrefixesOfAll(Ways(root, names)) {
      var q :| q in Ways(root, names) && p in Prefixes(q);
      var n :| n in names && q in Way(root, n);
    }
    if n, q :| n in names && q in Way(root, n) && Prefix(p, q) {
      assert q in Ways(root, names) && p in Prefixes(q);
    }
  }

  ghost predicate Components(p: Path) { forall i :: 0 <= i < |p| ==> IsComponent(p[i]) }

  ghost predicate Steps(parts: seq<string>) { forall c :: c in parts ==> c == PARENT || IsComponent(c) }

  lemma {:induction false} KeptSteps(pieces: seq<string>)
    requires forall c :: c in pieces ==> '/' !in c
    ensures Steps(Kept(pieces))
  {
    if pieces != [] {
      assert pieces[0] in pieces;
      KeptSteps(pieces[1..]);
    }
  }

  /** Climbing ends at the start, above a position passed, or just below one,
      and spells every position with components. */
  lemma {:induction false} ClimbEnds(at: Path, parts: seq<string>)
    requires Components(at) && Steps(parts)
    ensures Components(Climb(at, parts)) && forall q :: q in Passed(at, parts) ==> Components(q)
    ensures var end := Climb(at, parts);
            || end == at
            || (exists q :: q in Passed(at, parts) && Prefix(end, q))
            || (end != [] && end[..|end| - 1] in Passed(at, parts))
    decreases |parts|
  {
    if parts != [] {
      assert parts[0] in parts;
      var next := Step(at, parts[0]);
      assert Components(next);
      ClimbEnds(next, parts[1..]);
      if Climb(at, parts) == next {
        assert at in Passed(at, parts);
        if parts[0] == PARENT { assert Prefix(next, at); }
      }
    }
  }

  lemma SpotEnds(root: Path, name: string)
    requires Components(root)
    ensures Components(Spot(root, name)) && forall q :: q in Way(root, name) ==> Components(q)
    ensures var end := Spot(root, name);
            || Prefix(end, root)
            || (exists q :: q in Way(root, name) && Prefix(end, q))
            || (end != [] && end[..|end| - 1] in Way(root, name))
  {
    hide Split, Kept, IsComponent, Climb;
    JoinSplit(name, '/');
    KeptSteps(Split(name, '/'));
    ClimbEnds(Start(root, name), Pieces(name));
  }
}
