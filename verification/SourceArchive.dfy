/** Rebuilding a Git tree id from the members of a source archive. The order
    of the members does not matter, and the id stands for the files: equal ids
    mean equal paths, modes and contents, or an explicit hash collision. */
module SourceArchive {
  import opened Seqs
  import opened GitTree

  datatype Kind =
    | Directory
    | Symlink(target: string)
    | Regular(content: string, size: nat, executable: bool)
    | Unsupported

  datatype Member = Member(name: string, kind: Kind)
  {
    predicate IsFile() { !kind.Directory? }
    function Name(): string { Stripped(name) }
    function Path(): seq<string> { Parts(Name()) }
    function Mode(): string
    {
      match kind
      case Symlink(_) => "120000"
      case Regular(_, _, executable) => if executable then "100755" else "100644"
      case _ => ""
    }
    function Content(): string
    {
      match kind
      case Symlink(target) => target
      case Regular(content, _, _) => content
      case _ => ""
    }
    predicate Readable() { !kind.Unsupported? && (kind.Regular? ==> |kind.content| == kind.size) }
  }

  /** `rstrip('/')`. */
  function Stripped(name: string): (r: string)
  {
    if name != [] && name[|name| - 1] == '/' then Stripped(name[..|name| - 1]) else name
  }

  /** The components of a relative POSIX path, empty ones and `.` dropped. */
  function Parts(name: string): (parts: seq<string>) { Kept(Split(name, '/')) }

  predicate Admissible(name: string)
  {
    && Parts(name) != []
    && name != [] && name[0] != '/'
    && forall i :: 0 <= i < |Parts(name)| ==> Parts(name)[i] !in {".", "..", ".git"}
  }

  function Blob(content: string): string { Framed("blob", content) }

  function LeafOf(h: Hash, m: Member): Leaf { Leaf(m.Mode(), h(Blob(m.Content()))) }

  // ----- What the fields of a member mean -----

  lemma {:induction false} StrippedSlashes(name: string, slashes: string)
    requires name == [] || name[|name| - 1] != '/'
    requires forall i :: 0 <= i < |slashes| ==> slashes[i] == '/'
    ensures Stripped(name + slashes) == name
  {
    if slashes == [] {
      assert name + slashes == name;
    } else {
      assert (name + slashes)[..|name + slashes| - 1] == name + slashes[..|slashes| - 1];
      StrippedSlashes(name, slashes[..|slashes| - 1]);
    }
  }

  /** A member's path is what its name spells, trailing slashes aside, and it is
      admitted exactly when no component is `..` or `.git`. */
  lemma PathMeans(parts: seq<string>, slashes: string, kind: Kind)
    requires parts != [] && forall p :: p in parts ==> p != "" && p != "." && '/' !in p
    requires forall i :: 0 <= i < |slashes| ==> slashes[i] == '/'
    ensures var m := Member(Join(parts, '/') + slashes, kind);
            && m.Name() == Join(parts, '/') && m.Path() == parts
            && (Admissible(m.Name()) <==> ".." !in parts && ".git" !in parts)
  {
    hide Join, Split, Stripped, Kept;
    JoinEnds(parts);
    StrippedSlashes(Join(parts, '/'), slashes);
    SplitJoin(parts, '/');
    KeptAll(parts);
    assert forall i :: 0 <= i < |parts| ==> parts[i] in parts;
  }

  /** A name that is absolute, or names nothing, is never admitted. */
  lemma NeverAdmitted(name: string)
    ensures name == "" || name[0] == '/' || Parts(name) == [] ==> !Admissible(name)
  {
  }

  /** The mode and the blob a file enters the tree with. */
  lemma LeafMeans(h: Hash, m: Member)
    ensures m.kind.Symlink? ==>
              LeafOf(h, m) == Leaf("120000", h("blob " + Decimal(|m.kind.target|) + "\0" + m.kind.target))
    ensures m.kind.Regular? ==>
              LeafOf(h, m) == Leaf(if m.kind.executable then "100755" else "100644",
                                   h("blob " + Decimal(|m.kind.content|) + "\0" + m.kind.content))
    ensures m.kind.Regular? ==> (m.Readable() <==> m.kind.size == |m.kind.content|)
    ensures m.kind.Symlink? ==> m.Readable()
    ensures m.kind.Unsupported? ==> !m.Readable()
  {
    hide Decimal;
    assert "blob" + " " == "blob ";
  }

  // ----- What an archive must be -----

  /** Neither path is the other or lies below it. */
  predicate Apart(p: seq<string>, q: seq<string>) { !(p <= q) && !(q <= p) }

  predicate PairwiseApart(members: seq<Member>)
  {
    forall i, j :: 0 <= i < j < |members| && members[i].IsFile() && members[j].IsFile() ==>
      Apart(members[i].Path(), members[j].Path())
  }

  predicate Supplies(members: seq<Member>, name: string, content: string)
  {
    exists i :: 0 <= i < |members| && members[i].IsFile() && members[i].Name() == name && members[i].Content() == content
  }

  ghost predicate Acceptable(members: seq<Member>, required: map<string, string>)
  {
    && (forall i :: 0 <= i < |members| ==> Admissible(members[i].Name()) && members[i].Readable())
    && PairwiseApart(members)
    && (forall name :: name in required ==> Supplies(members, name, required[name]))
  }

  ghost predicate Holds(h: Hash, members: seq<Member>, path: seq<string>, leaf: Leaf)
  {
    exists i :: 0 <= i < |members| && members[i].IsFile() && members[i].Path() == path && LeafOf(h, members[i]) == leaf
  }

  /** The tree with exactly the archive's files in it. */
  ghost predicate IsTreeOf(h: Hash, members: seq<Member>, root: Node)
  {
    && root.Folder? && Normal(root) && SlashFree(root)
    && forall path, leaf :: Lookup(root, path) == Some(leaf) <==> Holds(h, members, path, leaf)
  }

  lemma PartsSlashFree(name: string)
    ensures forall p :: p in Parts(name) ==> '/' !in p
  {
    JoinSplit(name, '/');
    KeptPieces(Split(name, '/'));
  }

  lemma {:induction false} InsertSlashFree(node: Node, path: seq<string>, leaf: Leaf)
    requires node.Folder? && path != [] && SlashFree(node) && forall p :: p in path ==> '/' !in p
    ensures Insert(node, path, leaf).Some? ==> SlashFree(Insert(node, path, leaf).value)
    decreases |path|
  {
    var name := path[0];
    assert name in path;
    if |path| > 1 {
      var child := if name in node.entries then node.entries[name] else EMPTY;
      if child.Folder? { InsertSlashFree(child, path[1..], leaf); }
    } else {
      assert SlashFree(File(leaf));
    }
  }

  // ----- The rebuild -----

  ghost predicate Taken(members: seq<Member>, names: set<string>)
  {
    forall name :: name in names <==> exists i :: 0 <= i < |members| && members[i].IsFile() && members[i].Name() == name
  }

  /** Part way through: the tree of the members read, their names, and the
      required files still owed. */
  ghost predicate Built(h: Hash, members: seq<Member>, root: Node, names: set<string>,
                        required: map<string, string>, owed: map<string, string>)
  {
    && IsTreeOf(h, members, root)
    && Taken(members, names)
    && PairwiseApart(members)
    && (forall i :: 0 <= i < |members| ==> Admissible(members[i].Name()) && members[i].Readable())
    && (forall name :: name in owed <==> name in required && name !in names)
    && (forall name :: name in owed ==> owed[name] == required[name])
    && (forall name :: name in required && name in names ==> Supplies(members, name, required[name]))
  }

  lemma BlockedByMember(h: Hash, members: seq<Member>, root: Node, path: seq<string>) returns (i: nat)
    requires IsTreeOf(h, members, root) && Blocked(root, path)
    ensures i < |members| && members[i].IsFile() && !Apart(members[i].Path(), path)
  {
    var other :| Meets(root, path, other);
    var leaf := Lookup(root, other).value;
    assert Holds(h, members, other, leaf);
    i :| 0 <= i < |members| && members[i].IsFile() && members[i].Path() == other && LeafOf(h, members[i]) == leaf;
  }

  lemma FreeOfMembers(h: Hash, members: seq<Member>, root: Node, path: seq<string>)
    requires IsTreeOf(h, members, root) && !Blocked(root, path)
    ensures forall i :: 0 <= i < |members| && members[i].IsFile() ==> Apart(members[i].Path(), path)
  {
    forall i | 0 <= i < |members| && members[i].IsFile() ensures Apart(members[i].Path(), path) {
      assert Holds(h, members, members[i].Path(), LeafOf(h, members[i]));
      assert !Meets(root, path, members[i].Path());
    }
  }

  lemma HoldsSnoc(h: Hash, members: seq<Member>, m: Member, path: seq<string>, leaf: Leaf)
    ensures Holds(h, members + [m], path, leaf) <==>
            Holds(h, members, path, leaf) || (m.IsFile() && m.Path() == path && LeafOf(h, m) == leaf)
  {
    var now := members + [m];
    if i :| 0 <= i < |now| && now[i].IsFile() && now[i].Path() == path && LeafOf(h, now[i]) == leaf {
      assert i < |members| ==> members[i] == now[i];
    }
    if i :| 0 <= i < |members| && members[i].IsFile() && members[i].Path() == path && LeafOf(h, members[i]) == leaf {
      assert now[i] == members[i];
    }
    assert now[|members|] == m;
  }

  lemma GrownTree(h: Hash, members: seq<Member>, m: Member, root: Node)
    requires IsTreeOf(h, members, root) && m.IsFile() && m.Path() != []
    requires Insert(root, m.Path(), LeafOf(h, m)).Some?
    ensures IsTreeOf(h, members + [m], Insert(root, m.Path(), LeafOf(h, m)).value)
    ensures forall i :: 0 <= i < |members| && members[i].IsFile() ==> Apart(members[i].Path(), m.Path())
  {
    hide Insert;
    var grown := Insert(root, m.Path(), LeafOf(h, m)).value;
    InsertMeaning(root, m.Path(), LeafOf(h, m));
    PartsSlashFree(m.Name());
    InsertSlashFree(root, m.Path(), LeafOf(h, m));
    FreeOfMembers(h, members, root, m.Path());
    forall path, leaf ensures Lookup(grown, path) == Some(leaf) <==> Holds(h, members + [m], path, leaf) {
      HoldsSnoc(h, members, m, path, leaf);
    }
  }

  lemma TakenSnoc(members: seq<Member>, names: set<string>, m: Member)
    requires Taken(members, names)
    ensures Taken(members + [m], if m.IsFile() then names + {m.Name()} else names)
  {
    var now := members + [m];
    forall name
      ensures (exists i :: 0 <= i < |now| && now[i].IsFile() && now[i].Name() == name) <==>
              name in names || (m.IsFile() && m.Name() == name)
    {
      if i :| 0 <= i < |now| && now[i].IsFile() && now[i].Name() == name {
        assert i < |members| ==> members[i] == now[i];
      }
      if name in names {
        var i :| 0 <= i < |members| && members[i].IsFile() && members[i].Name() == name;
        assert now[i] == members[i];
      }
      assert now[|members|] == m;
    }
  }

  lemma SuppliesMore(members: seq<Member>, m: Member, name: string, content: string)
    ensures Supplies(members, name, content) ==> Supplies(members + [m], name, content)
    ensures m.IsFile() && m.Name() == name && m.Content() == content ==> Supplies(members + [m], name, content)
  {
    var now := members + [m];
    if i :| 0 <= i < |members| && members[i].IsFile() && members[i].Name() == name && members[i].Content() == content {
      assert now[i] == members[i];
    }
    assert now[|members|] == m;
  }

  lemma BuiltDirectory(h: Hash, members: seq<Member>, m: Member, root: Node, names: set<string>,
                       required: map<string, string>, owed: map<string, string>)
    requires Built(h, members, root, names, required, owed)
    requires !m.IsFile() && Admissible(m.Name())
    ensures Built(h, members + [m], root, names, required, owed)
  {
    hide Admissible, Supplies, SlashFree, Normal, Lookup;
    TakenSnoc(members, names, m);
    forall path, leaf ensures Lookup(root, path) == Some(leaf) <==> Holds(h, members + [m], path, leaf) {
      HoldsSnoc(h, members, m, path, leaf);
    }
    forall name | name in required && name in names ensures Supplies(members + [m], name, required[name]) {
      SuppliesMore(members, m, name, required[name]);
    }
  }

  lemma AdmissibleParts(name: string)
    requires Admissible(name)
    ensures Parts(name) != []
  {
  }

  lemma PairwiseSnoc(members: seq<Member>, m: Member)
    requires PairwiseApart(members)
    requires forall i :: 0 <= i < |members| && members[i].IsFile() ==> Apart(members[i].Path(), m.Path())
    ensures PairwiseApart(members + [m])
  {
    hide Apart, Parts, Stripped;
  }

  lemma BuiltFile(h: Hash, members: seq<Member>, m: Member, root: Node, names: set<string>,
                  required: map<string, string>, owed: map<string, string>)
    requires Built(h, members, root, names, required, owed)
    requires m.IsFile() && Admissible(m.Name()) && m.Readable() && m.Name() !in names
    requires Insert(root, m.Path(), LeafOf(h, m)).Some?
    requires m.Name() in owed ==> owed[m.Name()] == m.Content()
    ensures Built(h, members + [m], Insert(root, m.Path(), LeafOf(h, m)).value, names + {m.Name()}, required, owed - {m.Name()})
  {
    assert m.Path() != [] by { AdmissibleParts(m.Name()); }
    GrownTree(h, members, m, root);
    PairwiseSnoc(members, m);
    hide IsTreeOf, Insert, Apart, PairwiseApart, Admissible, Holds, Parts, Stripped;
    TakenSnoc(members, names, m);
    hide Taken, Supplies;
    SuppliesAll(members, m, names, required);
  }

  lemma SuppliesAll(members: seq<Member>, m: Member, names: set<string>, required: map<string, string>)
    requires m.IsFile()
    requires forall name :: name in required && name in names ==> Supplies(members, name, required[name])
    requires m.Name() in required && m.Name() !in names ==> m.Content() == required[m.Name()]
    ensures forall name :: name in required && name in names + {m.Name()} ==> Supplies(members + [m], name, required[name])
  {
    hide Supplies, Stripped;
    forall name | name in required && name in names + {m.Name()} ensures Supplies(members + [m], name, required[name]) {
      SuppliesMore(members, m, name, required[name]);
    }
  }

  /** Two members that meet keep any archive holding both from acceptance. */
  lemma MeetRefused(members: seq<Member>, required: map<string, string>, i: nat, j: nat)
    requires i < j < |members| && members[i].IsFile() && members[j].IsFile()
    requires !Apart(members[i].Path(), members[j].Path())
    ensures !Acceptable(members, required)
  {
  }

  lemma MismatchRefused(members: seq<Member>, required: map<string, string>, i: nat)
    requires i < |members| && members[i].IsFile() && members[i].Name() in required
    requires members[i].Content() != required[members[i].Name()]
    ensures !Acceptable(members, required)
  {
    var name := members[i].Name();
    if Supplies(members, name, required[name]) {
      var j :| 0 <= j < |members| && members[j].IsFile() && members[j].Name() == name && members[j].Content() == required[name];
      assert !Apart(members[i].Path(), members[j].Path());
      if i < j { MeetRefused(members, required, i, j); } else { MeetRefused(members, required, j, i); }
    }
  }

  /** The id of the tree with exactly the archive's files in it, or a refusal:
      which of the two depends only on what the members are. */
  method SourceArchiveTree(h: Hash, members: seq<Member>, required: map<string, string>) returns (id: Option<string>)
    ensures id.Some? <==> Acceptable(members, required)
    ensures id.Some? ==> exists root :: IsTreeOf(h, members, root) && id.value == Id(h, root)
  {
    hide Apart, Admissible, Supplies, Lookup, Insert, Blocked, Parts, Stripped, PairwiseApart;
    NothingBuilt(h, required);
    var root := EMPTY;
    var names: set<string> := {};
    var owed := required;
    for i := 0 to |members|
      invariant Built(h, members[..i], root, names, required, owed)
    {
      var m := members[i];
      assert members[..i + 1] == members[..i] + [m];
      var name := Stripped(m.name);
      var parts := Parts(name);
      if !Admissible(name) { return None; }
      AdmissibleParts(name);
      if !m.IsFile() {
        BuiltDirectory(h, members[..i], m, root, names, required, owed);
        continue;
      }
      if name in names {
        var j :| 0 <= j < i && members[..i][j].IsFile() && members[..i][j].Name() == name;
        SamePathMeets(members[j].Path());
        MeetRefused(members, required, j, i);
        return None;
      }
      InsertMeaning(root, parts, LeafOf(h, m));
      var grown := Insert(root, parts, LeafOf(h, m));
      if grown.None? {
        ghost var j := BlockedByMember(h, members[..i], root, parts);
        assert members[..i][j] == members[j];
        MeetRefused(members, required, j, i);
        return None;
      }
      if !m.Readable() { return None; }
      if name in owed && owed[name] != m.Content() {
        MismatchRefused(members, required, i);
        return None;
      }
      BuiltFile(h, members[..i], m, root, names, required, owed);
      root, names, owed := grown.value, names + {name}, owed - {name};
    }
    assert members[..|members|] == members;
    if owed != map[] {
      var name :| name in owed;
      NotSupplied(members, names, name, required[name]);
      return None;
    }
    assert forall name :: name in required ==> name !in owed;
    var digest := Digest(h, root);
    id := Some(digest);
  }

  lemma NothingBuilt(h: Hash, required: map<string, string>)
    ensures Built(h, [], EMPTY, {}, required, required)
  {
    assert forall path :: Lookup(EMPTY, path).None?;
  }

  lemma SamePathMeets(path: seq<string>)
    ensures !Apart(path, path)
  {
  }

  lemma NotSupplied(members: seq<Member>, names: set<string>, name: string, content: string)
    requires Taken(members, names) && name !in names
    ensures !Supplies(members, name, content)
  {
  }

  // ----- The order of the members does not matter -----

  lemma {:induction false} OccursTwice(s: seq<Member>, i: nat, j: nat)
    requires i < j < |s| && s[i] == s[j]
    ensures multiset(s)[s[i]] >= 2
  {
    assert s == s[..j] + [s[j]] + s[j + 1..];
    assert s[i] in s[..j];
  }

  lemma TwoPlaces(s: seq<Member>, m: Member) returns (i: nat, j: nat)
    requires multiset(s)[m] >= 2
    ensures i < j < |s| && s[i] == m && s[j] == m
  {
    assert m in s;
    i :| 0 <= i < |s| && s[i] == m;
    var before, after := s[..i], s[i + 1..];
    assert s == before + [m] + after;
    assert multiset(s) == multiset(before) + multiset{m} + multiset(after);
    if m in after {
      var k :| 0 <= k < |after| && after[k] == m;
      assert s[i + 1 + k] == m;
      j := i + 1 + k;
    } else {
      assert m in before;
      var k :| 0 <= k < |before| && before[k] == m;
      i, j := k, i;
    }
  }

  lemma SamePlaces(a: seq<Member>, b: seq<Member>, i: nat) returns (k: nat)
    requires multiset(a) == multiset(b) && i < |a|
    ensures k < |b| && b[k] == a[i]
  {
    assert a[i] in multiset(b);
    k :| 0 <= k < |b| && b[k] == a[i];
  }

  lemma ApartShuffled(a: seq<Member>, b: seq<Member>)
    requires multiset(a) == multiset(b) && PairwiseApart(a)
    ensures PairwiseApart(b)
  {
    hide Parts, Stripped;
    forall i, j | 0 <= i < j < |b| && b[i].IsFile() && b[j].IsFile() ensures Apart(b[i].Path(), b[j].Path()) {
      if b[i] == b[j] {
        OccursTwice(b, i, j);
        var x, y := TwoPlaces(a, b[i]);
        assert Apart(a[x].Path(), a[y].Path());
      } else {
        var x := SamePlaces(b, a, i);
        var y := SamePlaces(b, a, j);
        assert x < y ==> Apart(a[x].Path(), a[y].Path());
        assert y < x ==> Apart(a[y].Path(), a[x].Path());
      }
    }
  }

  lemma AcceptableShuffled(a: seq<Member>, b: seq<Member>, required: map<string, string>)
    requires multiset(a) == multiset(b) && Acceptable(a, required)
    ensures Acceptable(b, required)
  {
    ApartShuffled(a, b);
    hide PairwiseApart, Admissible, Parts, Stripped;
    forall i | 0 <= i < |b| ensures Admissible(b[i].Name()) && b[i].Readable() {
      var k := SamePlaces(b, a, i);
    }
    forall name | name in required ensures Supplies(b, name, required[name]) {
      var i :| 0 <= i < |a| && a[i].IsFile() && a[i].Name() == name && a[i].Content() == required[name];
      var k := SamePlaces(a, b, i);
    }
  }

  lemma EmptyHoldsNothing(node: Node)
    requires Normal(node)
    ensures node == EMPTY <==> forall path :: Lookup(node, path).None?
  {
    if node != EMPTY {
      var path := HasPath(node);
    }
  }

  lemma TreeUnique(h: Hash, a: seq<Member>, b: seq<Member>, ra: Node, rb: Node)
    requires IsTreeOf(h, a, ra) && IsTreeOf(h, b, rb)
    requires forall path, leaf :: Holds(h, a, path, leaf) <==> Holds(h, b, path, leaf)
    ensures ra == rb
  {
    hide Holds;
    forall path ensures Lookup(ra, path) == Lookup(rb, path) {
      if Lookup(ra, path).Some? { assert Lookup(rb, path) == Some(Lookup(ra, path).value); }
      if Lookup(rb, path).Some? { assert Lookup(ra, path) == Some(Lookup(rb, path).value); }
    }
    EmptyHoldsNothing(ra);
    EmptyHoldsNothing(rb);
    if ra != EMPTY { NormalUnique(ra, rb); }
  }

  /** Shuffling the members changes neither acceptance nor the id. */
  lemma OrderIrrelevant(h: Hash, a: seq<Member>, b: seq<Member>, required: map<string, string>, ra: Node, rb: Node)
    requires multiset(a) == multiset(b)
    ensures Acceptable(a, required) <==> Acceptable(b, required)
    ensures IsTreeOf(h, a, ra) && IsTreeOf(h, b, rb) ==> Id(h, ra) == Id(h, rb)
  {
    if Acceptable(a, required) { AcceptableShuffled(a, b, required); }
    if Acceptable(b, required) { AcceptableShuffled(b, a, required); }
    if IsTreeOf(h, a, ra) && IsTreeOf(h, b, rb) {
      forall path, leaf ensures Holds(h, a, path, leaf) <==> Holds(h, b, path, leaf) {
        HoldsShuffled(h, a, b, path, leaf);
        HoldsShuffled(h, b, a, path, leaf);
      }
      TreeUnique(h, a, b, ra, rb);
    }
  }

  lemma HoldsShuffled(h: Hash, a: seq<Member>, b: seq<Member>, path: seq<string>, leaf: Leaf)
    requires multiset(a) == multiset(b)
    ensures Holds(h, a, path, leaf) ==> Holds(h, b, path, leaf)
  {
    if i :| 0 <= i < |a| && a[i].IsFile() && a[i].Path() == path && LeafOf(h, a[i]) == leaf {
      var k := SamePlaces(a, b, i);
    }
  }

  // ----- The id stands for the files -----

  /** A member with this path, mode and content is in the archive. */
  ghost predicate Archived(members: seq<Member>, path: seq<string>, mode: string, content: string)
  {
    exists i :: 0 <= i < |members| && members[i].IsFile() &&
                members[i].Path() == path && members[i].Mode() == mode && members[i].Content() == content
  }

  ghost predicate SameFiles(a: seq<Member>, b: seq<Member>)
  {
    forall path, mode, content :: Archived(a, path, mode, content) <==> Archived(b, path, mode, content)
  }

  /** The byte strings hashed for an archive: its blobs and its directories. */
  ghost predicate HashedFor(h: Hash, members: seq<Member>, root: Node, bytes: string)
    requires SlashFree(root)
  {
    || Hashed(h, root, bytes)
    || exists i :: 0 <= i < |members| && members[i].IsFile() && bytes == Blob(members[i].Content())
  }

  ghost predicate Collision(h: Hash, a: seq<Member>, ra: Node, b: seq<Member>, rb: Node)
    requires SlashFree(ra) && SlashFree(rb)
  {
    exists x, y :: HashedFor(h, a, ra, x) && HashedFor(h, b, rb, y) && x != y && h(x) == h(y)
  }

  /** Member names read from a NUL-terminated header field. */
  ghost predicate HeaderNames(members: seq<Member>)
  {
    forall i :: 0 <= i < |members| ==> '\0' !in members[i].name
  }

  lemma {:induction false} StrippedChars(name: string)
    ensures forall c :: c in Stripped(name) ==> c in name
  {
    if name != [] && name[|name| - 1] == '/' { StrippedChars(name[..|name| - 1]); }
  }

  lemma {:induction false} SplitChars(s: string, sep: char, c: char)
    requires c !in s
    ensures forall p :: p in Split(s, sep) ==> c !in p
  {
    if s != [] { SplitChars(s[1..], sep, c); }
  }

  lemma PathNulFree(m: Member)
    requires '\0' !in m.name
    ensures forall p :: p in m.Path() ==> '\0' !in p && '/' !in p
  {
    StrippedChars(m.name);
    SplitChars(m.Name(), '/', '\0');
    KeptPieces(Split(m.Name(), '/'));
    PartsSlashFree(m.Name());
  }

  /** Every leaf of a tree without empty directories is some file's, so the
      tree is sound when its files are. */
  lemma {:induction false} SoundByLeaves(node: Node)
    requires Normal(node) && SlashFree(node)
    requires node.Folder? ==> forall name :: name in node.entries ==> node.entries[name] != EMPTY
    requires forall path :: Lookup(node, path).Some? ==>
               && Sound(File(Lookup(node, path).value))
               && forall i :: 0 <= i < |path| ==> '\0' !in path[i]
    ensures Sound(node)
    decreases node
  {
    if node.File? {
      assert Lookup(node, []) == Some(node.leaf);
    } else {
      forall name | name in node.entries ensures '\0' !in name && Sound(node.entries[name]) {
        var child := node.entries[name];
        var below := HasPath(child);
        assert ([name] + below)[1..] == below && Lookup(node, [name] + below).Some?;
        assert ([name] + below)[0] == name;
        forall path | Lookup(child, path).Some?
          ensures Sound(File(Lookup(child, path).value)) && forall i :: 0 <= i < |path| ==> '\0' !in path[i]
        {
          var longer := [name] + path;
          assert longer[1..] == path && Lookup(node, longer) == Lookup(child, path);
          assert forall i :: 0 <= i < |path| ==> longer[i + 1] == path[i];
        }
        SoundByLeaves(child);
      }
    }
  }

  lemma TreeSound(h: Hash, members: seq<Member>, root: Node)
    requires TwentyBytes(h) && IsTreeOf(h, members, root) && HeaderNames(members)
    requires forall i :: 0 <= i < |members| ==> members[i].Readable()
    ensures Sound(root)
  {
    forall path | Lookup(root, path).Some?
      ensures Sound(File(Lookup(root, path).value)) && forall i :: 0 <= i < |path| ==> '\0' !in path[i]
    {
      var leaf := Lookup(root, path).value;
      assert Holds(h, members, path, leaf);
      var i :| 0 <= i < |members| && members[i].IsFile() && members[i].Path() == path && LeafOf(h, members[i]) == leaf;
      PathNulFree(members[i]);
    }
    SoundByLeaves(root);
  }

  lemma FilesFromTree(h: Hash, a: seq<Member>, b: seq<Member>, root: Node, path: seq<string>, mode: string, content: string)
    requires IsTreeOf(h, a, root) && IsTreeOf(h, b, root) && !Collision(h, a, root, b, root)
    ensures Archived(a, path, mode, content) ==> Archived(b, path, mode, content)
  {
    hide Parts, Stripped, Framed;
    if i :| 0 <= i < |a| && a[i].IsFile() && a[i].Path() == path && a[i].Mode() == mode && a[i].Content() == content {
      assert Holds(h, a, path, LeafOf(h, a[i]));
      assert Holds(h, b, path, LeafOf(h, a[i]));
      var j :| 0 <= j < |b| && b[j].IsFile() && b[j].Path() == path && LeafOf(h, b[j]) == LeafOf(h, a[i]);
      assert HashedFor(h, a, root, Blob(content)) && HashedFor(h, b, root, Blob(b[j].Content()));
      BlobInjective(content, b[j].Content());
    }
  }

  lemma BlobInjective(x: string, y: string)
    ensures Blob(x) == Blob(y) ==> x == y
  {
    if Blob(x) == Blob(y) { FramedInjective("blob", x, y); }
  }

  lemma CollisionSymmetric(h: Hash, a: seq<Member>, ra: Node, b: seq<Member>, rb: Node)
    requires SlashFree(ra) && SlashFree(rb)
    ensures Collision(h, a, ra, b, rb) <==> Collision(h, b, rb, a, ra)
  {
  }

  lemma TreesCollide(h: Hash, a: seq<Member>, ra: Node, b: seq<Member>, rb: Node)
    requires SlashFree(ra) && SlashFree(rb)
    ensures Collide(h, ra, rb) ==> Collision(h, a, ra, b, rb)
  {
    if x, y :| Hashed(h, ra, x) && Hashed(h, rb, y) && x != y && h(x) == h(y) {
      assert HashedFor(h, a, ra, x) && HashedFor(h, b, rb, y);
    }
  }

  /** Two accepted archives with one id hold the same files with the same
      modes and contents, or two different byte strings hashed for them share a
      hash. Archives with the same files always share their id. */
  lemma IdStandsForFiles(h: Hash, a: seq<Member>, b: seq<Member>, required: map<string, string>, ra: Node, rb: Node)
    requires TwentyBytes(h) && HeaderNames(a) && HeaderNames(b)
    requires Acceptable(a, required) && Acceptable(b, required)
    requires IsTreeOf(h, a, ra) && IsTreeOf(h, b, rb)
    ensures Id(h, ra) == Id(h, rb) ==> SameFiles(a, b) || Collision(h, a, ra, b, rb)
    ensures SameFiles(a, b) ==> Id(h, ra) == Id(h, rb)
  {
    TreeSound(h, a, ra);
    TreeSound(h, b, rb);
    TreesCollide(h, a, ra, b, rb);
    CollisionSymmetric(h, a, ra, b, rb);
    if Id(h, ra) == Id(h, rb) { IdInjective(h, ra, rb); }
    if ra == rb && !Collision(h, a, ra, b, rb) {
      forall path, mode, content ensures Archived(a, path, mode, content) <==> Archived(b, path, mode, content) {
        FilesFromTree(h, a, b, ra, path, mode, content);
        FilesFromTree(h, b, a, ra, path, mode, content);
      }
    }
    if SameFiles(a, b) {
      forall path, leaf ensures Holds(h, a, path, leaf) <==> Holds(h, b, path, leaf) {
        HoldsFromFiles(h, a, b, path, leaf);
        HoldsFromFiles(h, b, a, path, leaf);
      }
      TreeUnique(h, a, b, ra, rb);
    }
  }

  lemma HoldsFromFiles(h: Hash, a: seq<Member>, b: seq<Member>, path: seq<string>, leaf: Leaf)
    requires SameFiles(a, b)
    ensures Holds(h, a, path, leaf) ==> Holds(h, b, path, leaf)
  {
    hide Parts, Stripped, Framed;
    if i :| 0 <= i < |a| && a[i].IsFile() && a[i].Path() == path && LeafOf(h, a[i]) == leaf {
      assert Archived(a, path, a[i].Mode(), a[i].Content());
      assert Archived(b, path, a[i].Mode(), a[i].Content());
    }
  }

  // ----- Names with a NUL -----

  lemma PlainParts(name: string)
    requires '/' !in name && name != "" && name != "."
    ensures Stripped(name) == name && Parts(name) == [name]
  {
    SplitPrepend(name, "", '/');
    assert [name][1..] == [] && Kept([]) == [];
    assert Kept([name]) == [name] + Kept([name][1..]);
    assert name[|name| - 1] in name;
  }

  lemma OneFile(h: Hash, name: string, m: Member)
    requires m.name == name && m.IsFile() && m.Path() == [name] && '/' !in name
    ensures IsTreeOf(h, [m], Folder(map[name := File(LeafOf(h, m))]))
  {
    var root := Folder(map[name := File(LeafOf(h, m))]);
    assert Normal(File(LeafOf(h, m))) && SlashFree(File(LeafOf(h, m)));
    forall path, leaf ensures Lookup(root, path) == Some(leaf) <==> Holds(h, [m], path, leaf) {
      if path != [] && path[0] == name {
        assert Lookup(root, path) == Lookup(File(LeafOf(h, m)), path[1..]);
        assert path[1..] == [] <==> path == [name];
      }
      if Holds(h, [m], path, leaf) { assert path == [name]; }
      assert [m][0] == m;
      if path == [name] && leaf == LeafOf(h, m) { assert Holds(h, [m], path, leaf); }
    }
  }

  lemma FileAt(h: Hash, node: Node, name: string, path: seq<string>)
    requires node.Folder? && name in node.entries && node.entries[name].File? && path != [] && path[0] == name
    ensures Lookup(node, path) == if path == [name] then Some(node.entries[name].leaf) else None
  {
    assert Lookup(node, path) == Lookup(node.entries[name], path[1..]);
    assert path[1..] == [] <==> path == [name];
  }

  function PlainFile(name: string, content: string): Member { Member(name, Regular(content, |content|, false)) }

  lemma TwoFiles(h: Hash, x: string, y: string)
    ensures var two := Folder(map["a" := File(Leaf("100644", h(Blob(x)))), "b" := File(Leaf("100644", h(Blob(y))))]);
            IsTreeOf(h, [PlainFile("a", x), PlainFile("b", y)], two)
  {
    var ma, mb := PlainFile("a", x), PlainFile("b", y);
    var members := [ma, mb];
    var two := Folder(map["a" := File(Leaf("100644", h(Blob(x)))), "b" := File(Leaf("100644", h(Blob(y))))]);
    PlainParts("a");
    PlainParts("b");
    assert "a"[0] != "b"[0];
    hide Parts, Stripped, Framed;
    assert forall n :: n in two.entries ==> two.entries[n].File?;
    assert Normal(two) && SlashFree(two);
    forall path, leaf ensures Lookup(two, path) == Some(leaf) <==> Holds(h, members, path, leaf) {
      if path != [] && path[0] in two.entries { FileAt(h, two, path[0], path); }
      assert members[0] == ma && members[1] == mb;
      if path == ["a"] && leaf == LeafOf(h, ma) { assert Holds(h, members, path, leaf); }
      if path == ["b"] && leaf == LeafOf(h, mb) { assert Holds(h, members, path, leaf); }
    }
  }

  lemma PlainAcceptable(members: seq<Member>)
    requires forall i :: 0 <= i < |members| ==>
               var m := members[i];
               m.kind.Regular? && m.Readable() && '/' !in m.name && m.name !in {"", ".", "..", ".git"}
    requires forall i, j :: 0 <= i < j < |members| ==> members[i].name != members[j].name
    ensures Acceptable(members, map[])
  {
    forall i | 0 <= i < |members| ensures members[i].Name() == members[i].name && members[i].Path() == [members[i].name] {
      PlainParts(members[i].name);
    }
    forall i | 0 <= i < |members| ensures Admissible(members[i].Name()) {
      assert members[i].name[0] in members[i].name;
    }
    hide Parts, Stripped, Admissible;
    forall i, j | 0 <= i < j < |members| ensures Apart(members[i].Path(), members[j].Path()) {
      assert members[i].Path()[0] != members[j].Path()[0];
    }
    assert PairwiseApart(members);
  }

  /** Outside header names the id is ambiguous: an accepted archive of one file,
      whose name spells out another entry, hashes the very bytes of an accepted
      archive of two files. */
  lemma NulNameAmbiguous(h: Hash, x: string, y: string)
    requires TwentyBytes(h) && forall c :: c in h(Blob(x)) ==> c != '/' && c as int < 0x80
    ensures var name := "a\0" + h(Blob(x)) + "100644 b";
            var a, b := [PlainFile(name, y)], [PlainFile("a", x), PlainFile("b", y)];
            var one := Folder(map[name := File(Leaf("100644", h(Blob(y))))]);
            var two := Folder(map["a" := File(Leaf("100644", h(Blob(x)))), "b" := File(Leaf("100644", h(Blob(y))))]);
            && Acceptable(a, map[]) && Acceptable(b, map[]) && !HeaderNames(a) && HeaderNames(b)
            && IsTreeOf(h, a, one) && IsTreeOf(h, b, two)
            && Object(h, one) == Object(h, two) && Id(h, one) == Id(h, two)
            && !SameFiles(a, b)
  {
    hide Encode, Framed, Listing, IsTreeOf, Object, SlashFree, Acceptable;
    var ox, oy := h(Blob(x)), h(Blob(y));
    var name := "a\0" + ox + "100644 b";
    NameSlashFree(ox);
    SpelledOut(h, x, y, name);
    TwoFiles(h, x, y);
    ObjectOfOne(h, name, oy);
    ObjectOfTwo(h, ox, oy);
    SameSpelling(ox, oy);
    BothAcceptable(name, x, y);
    DifferentFiles(name, x, y);
  }

  lemma BothAcceptable(name: string, x: string, y: string)
    requires '/' !in name && |name| == 30 && name[1] == '\0'
    ensures Acceptable([PlainFile(name, y)], map[]) && Acceptable([PlainFile("a", x), PlainFile("b", y)], map[])
    ensures !HeaderNames([PlainFile(name, y)]) && HeaderNames([PlainFile("a", x), PlainFile("b", y)])
  {
    hide Acceptable;
    assert "a"[0] != "b"[0];
    PlainAcceptable([PlainFile(name, y)]);
    PlainAcceptable([PlainFile("a", x), PlainFile("b", y)]);
    assert [PlainFile(name, y)][0].name == name && '\0' in name;
  }

  lemma DifferentFiles(name: string, x: string, y: string)
    requires '/' !in name && |name| == 30
    ensures !SameFiles([PlainFile(name, y)], [PlainFile("a", x), PlainFile("b", y)])
  {
    var a, b := [PlainFile(name, y)], [PlainFile("a", x), PlainFile("b", y)];
    PlainParts("a");
    PlainParts(name);
    hide Parts, Stripped;
    assert b[0].Path() == ["a"] && a[0].Path() == [name] && |name| != |"a"|;
    assert Archived(b, ["a"], "100644", x);
    assert ["a"] != [name] by { assert ["a"][0] == "a" && [name][0] == name; }
  }

  lemma SpelledOut(h: Hash, x: string, y: string, name: string)
    requires |h(Blob(x))| == 20 && '/' !in h(Blob(x)) && name == "a\0" + h(Blob(x)) + "100644 b"
    ensures IsTreeOf(h, [PlainFile(name, y)], Folder(map[name := File(Leaf("100644", h(Blob(y))))]))
  {
    hide IsTreeOf;
    NameSlashFree(h(Blob(x)));
    PlainParts(name);
    OneFile(h, name, PlainFile(name, y));
  }

  lemma ObjectOfOne(h: Hash, name: string, oid: string)
    requires '/' !in name
    ensures var node := Folder(map[name := File(Leaf("100644", oid))]);
            SlashFree(node) && Object(h, node) == Framed("tree", "100644" + " " + (name + "\0" + (oid + "")))
  {
    hide Framed, Encode, Listing;
    var f := File(Leaf("100644", oid));
    var node := Folder(map[name := f]);
    assert SlashFree(f);
    assert IsListing(node, [Entry(name, f)]);
    ListingUnique(node, [Entry(name, f)]);
    EncodeOne(h, node, name, f);
  }

  lemma ObjectOfTwo(h: Hash, ox: string, oy: string)
    ensures var node := Folder(map["a" := File(Leaf("100644", ox)), "b" := File(Leaf("100644", oy))]);
            && SlashFree(node)
            && Object(h, node) == Framed("tree", "100644" + " " + ("a" + "\0" + (ox +
                 ("100644" + " " + ("b" + "\0" + (oy + ""))))))
  {
    hide Framed, Encode, Listing, IsListing;
    var fx, fy := File(Leaf("100644", ox)), File(Leaf("100644", oy));
    var node := Folder(map["a" := fx, "b" := fy]);
    assert SlashFree(fx) && SlashFree(fy);
    TwoListed(node, fx, fy);
    ListingUnique(node, [Entry("a", fx), Entry("b", fy)]);
    EncodeTwo(h, node, fx, fy);
  }

  lemma SameSpelling(ox: string, oy: string)
    ensures "100644" + " " + (("a\0" + ox + "100644 b") + "\0" + (oy + "")) ==
            "100644" + " " + ("a" + "\0" + (ox + ("100644" + " " + ("b" + "\0" + (oy + "")))))
  {
    assert "a\0" == "a" + "\0" && "100644 b" == "100644" + " " + "b";
  }

  lemma NameSlashFree(oid: string)
    requires '/' !in oid && |oid| == 20
    ensures var name := "a\0" + oid + "100644 b"; '/' !in name && |name| == 30 && name[1] == '\0'
  {
  }

  lemma TwoListed(node: Node, fx: Node, fy: Node)
    requires node == Folder(map["a" := fx, "b" := fy]) && fx.File? && fy.File?
    ensures IsListing(node, [Entry("a", fx), Entry("b", fy)])
  {
    assert Less("a", "b");
  }

  lemma EncodeOne(h: Hash, node: Node, name: string, f: Node)
    requires node == Folder(map[name := f]) && SlashFree(node) && f.File?
    ensures Encode(h, node, [Entry(name, f)]) == f.leaf.mode + " " + (name + "\0" + (f.leaf.oid + ""))
  {
    assert [Entry(name, f)][1..] == [];
  }

  lemma EncodeTwo(h: Hash, node: Node, fx: Node, fy: Node)
    requires node == Folder(map["a" := fx, "b" := fy]) && SlashFree(node) && fx.File? && fy.File?
    ensures Encode(h, node, [Entry("a", fx), Entry("b", fy)]) ==
            fx.leaf.mode + " " + ("a" + "\0" + (fx.leaf.oid +
              (fy.leaf.mode + " " + ("b" + "\0" + (fy.leaf.oid + "")))))
  {
    var s := [Entry("a", fx), Entry("b", fy)];
    assert s[1..] == [Entry("b", fy)] && s[1..][1..] == [];
    assert Encode(h, node, []) == "";
    assert Encode(h, node, s[1..]) == fy.leaf.mode + " " + ("b" + "\0" + (fy.leaf.oid + ""));
  }
}
