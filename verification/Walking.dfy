/** The walk itself: a recursive method over one mutable tally. Whatever order
    the directories list in, it ends with every visited entry counted once, or
    with a refusal that the tree as a whole justifies. */
module Walking {
  import opened Seqs
  import opened Glob
  import opened Matching
  import opened Collection

  // ----- Object names tell files and declarations apart -----

  ghost predicate DistinctNames(d: seq<Declaration>)
  {
    && (forall i :: 0 <= i < |d| ==> '/' !in d[i].name)
    && (forall i, j :: 0 <= i < j < |d| ==> d[i].name != d[j].name)
  }

  lemma {:induction false} MatchedDistinct(d: seq<Declaration>, path: seq<string>)
    requires DistinctNames(d)
    ensures forall i, j :: 0 <= i < j < |Matched(d, path)| ==> Matched(d, path)[i] != Matched(d, path)[j]
    ensures forall i :: 0 <= i < |Matched(d, path)| ==> '/' !in Matched(d, path)[i]
  {
    if d != [] {
      var before := d[..|d| - 1];
      MatchedDistinct(before, path);
      MatchedOne(before, path);
      forall k | 0 <= k < |Matched(before, path)| ensures Matched(before, path)[k] != d[|d| - 1].name {
        var name := Matched(before, path)[k];
        assert name in Matched(before, path);
        var i :| 0 <= i < |before| && before[i].name == name;
        assert d[i].name == name;
      }
    }
  }

  lemma ObjectNameInjective(a: string, x: string, b: string, y: string)
    requires '/' !in a && '/' !in b && ObjectName(a, x) == ObjectName(b, y)
    ensures a == b && x == y
  {
    SplitPrepend(a, x, '/');
    SplitPrepend(b, y, '/');
    var parts := Split(ObjectName(a, x), '/');
    assert parts[0] == a && parts[0] == b;
    assert parts[1..] == Split(x, '/') && parts[1..] == Split(y, '/');
    JoinSplit(x, '/');
    JoinSplit(y, '/');
  }

  lemma ShownPieces(t: Tree, c: Path)
    requires WellFormed(t)
    ensures c in t ==> c != [] && (t[c].Regular? ==> t[c].size <= U64_MAX) && forall p :: p in Shown(c) ==> '/' !in p
  {
  }

  lemma VisitedUtf8(d: seq<Declaration>, t: Tree, p: Path, i: nat)
    requires p in Visited(d, t) && i < |p| && p[|p| - 1].Utf8?
    ensures p[i].Utf8?
  {
    if i < |p| - 1 { assert Enters(d, t, p[..i + 1]); }
  }

  lemma TextInjective(d: seq<Declaration>, t: Tree, p: Path, q: Path)
    requires WellFormed(t) && p in Visited(d, t) && q in Visited(d, t)
    requires p[|p| - 1].Utf8? && q[|q| - 1].Utf8? && Text(p) == Text(q)
    ensures p == q
  {
    ShownPieces(t, p);
    ShownPieces(t, q);
    JoinInjective(Shown(p), Shown(q), '/');
    hide Visited, WellFormed, Text, Enters;
    forall i | 0 <= i < |p| ensures p[i] == q[i] {
      VisitedUtf8(d, t, p, i);
      VisitedUtf8(d, t, q, i);
      assert Shown(p)[i] == Shown(q)[i];
    }
  }

  lemma NamesApart(d: seq<Declaration>, t: Tree, workspace: (nat, nat), p: Path, q: Path, f: CollectedFile, g: CollectedFile)
    requires WellFormed(t) && DistinctNames(d) && p in Visited(d, t) && q in Visited(d, t) && p != q
    requires f in FilesAt(d, t, workspace, p) && g in FilesAt(d, t, workspace, q)
    ensures f.name != g.name
  {
    if f.name == g.name {
      MatchedDistinct(d, Shown(p));
      MatchedDistinct(d, Shown(q));
      var i :| 0 <= i < |Collects(d, p)| && f == FilesAt(d, t, workspace, p)[i];
      var j :| 0 <= j < |Collects(d, q)| && g == FilesAt(d, t, workspace, q)[j];
      ObjectNameInjective(Collects(d, p)[i], Text(p), Collects(d, q)[j], Text(q));
      TextInjective(d, t, p, q);
    }
  }

  lemma SameEntryApart(d: seq<Declaration>, t: Tree, workspace: (nat, nat), p: Path, i: nat, j: nat)
    requires DistinctNames(d) && i < j < |FilesAt(d, t, workspace, p)|
    ensures FilesAt(d, t, workspace, p)[i].name != FilesAt(d, t, workspace, p)[j].name
  {
    MatchedDistinct(d, Shown(p));
    var names := Collects(d, p);
    if ObjectName(names[i], Text(p)) == ObjectName(names[j], Text(p)) {
      ObjectNameInjective(names[i], Text(p), names[j], Text(p));
    }
  }

  // ----- The tally of a set of visited entries -----

  ghost predicate Tally(d: seq<Declaration>, t: Tree, workspace: (nat, nat), seen: set<Path>,
                        entries: nat, remaining: nat, files: seq<CollectedFile>, bytes: nat)
    requires WellFormed(t)
  {
    && seen <= Visited(d, t)
    && NoOffender(d, t, seen)
    && entries == |seen| <= MAX_ARTIFACT_WALK_ENTRIES
    && remaining + SumCells(d, seen) == MAX_ARTIFACT_MATCHING_CELLS
    && Lists(files, d, t, workspace, seen)
    && |files| == SumFiles(d, t, seen) <= MAX_ARTIFACT_FILES_PER_ATTEMPT
    && bytes == SumBytes(d, t, seen) <= MAX_ATTEMPT_ARTIFACT_BYTES
    && bytes == TotalBytes(files)
  }

  lemma SumOne<T>(s: set<T>, f: T -> nat, x: T)
    requires x !in s
    ensures SumOver(s + {x}, f) == SumOver(s, f) + f(x)
  {
    SumTake(s + {x}, f, x);
    assert s + {x} - {x} == s;
  }

  lemma SumsOne(d: seq<Declaration>, t: Tree, s: set<Path>, c: Path)
    requires c !in s
    ensures SumCells(d, s + {c}) == SumCells(d, s) + Cells(d, c)
    ensures SumFiles(d, t, s + {c}) == SumFiles(d, t, s) + CountAt(d, t, c)
    ensures SumBytes(d, t, s + {c}) == SumBytes(d, t, s) + BytesAt(d, t, c)
  {
    SumOne(s, (p: Path) => Cells(d, p), c);
    SumOne(s, (p: Path) => CountAt(d, t, p), c);
    SumOne(s, (p: Path) => BytesAt(d, t, p), c);
  }

  lemma SumsGrow(d: seq<Declaration>, t: Tree, a: set<Path>, b: set<Path>)
    requires a <= b
    ensures |a| <= |b|
    ensures SumCells(d, a) <= SumCells(d, b)
    ensures SumFiles(d, t, a) <= SumFiles(d, t, b)
    ensures SumBytes(d, t, a) <= SumBytes(d, t, b)
  {
    assert b == a + (b - a);
    SumDisjoint(a, b - a, (p: Path) => Cells(d, p));
    SumDisjoint(a, b - a, (p: Path) => CountAt(d, t, p));
    SumDisjoint(a, b - a, (p: Path) => BytesAt(d, t, p));
  }

  lemma ListsMembers(files: seq<CollectedFile>, d: seq<Declaration>, t: Tree, workspace: (nat, nat), seen: set<Path>,
                     c: Path, f: CollectedFile)
    requires Lists(files, d, t, workspace, seen)
    ensures f in files + FilesAt(d, t, workspace, c) <==>
            exists p :: p in seen + {c} && f in FilesAt(d, t, workspace, p)
  {
    hide FilesAt;
    if f in files {
      var p :| p in seen && f in FilesAt(d, t, workspace, p);
      assert p in seen + {c};
    }
    if f in FilesAt(d, t, workspace, c) {
      assert c in seen + {c};
    }
  }

  lemma ListsApart(files: seq<CollectedFile>, d: seq<Declaration>, t: Tree, workspace: (nat, nat), seen: set<Path>,
                   c: Path, i: nat, j: nat)
    requires WellFormed(t) && DistinctNames(d) && Lists(files, d, t, workspace, seen)
    requires seen <= Visited(d, t) && c in Visited(d, t) && c !in seen
    requires i < j < |files + FilesAt(d, t, workspace, c)|
    ensures (files + FilesAt(d, t, workspace, c))[i].name != (files + FilesAt(d, t, workspace, c))[j].name
  {
    hide FilesAt, Visited, WellFormed, DistinctNames;
    var more := FilesAt(d, t, workspace, c);
    if i >= |files| {
      SameEntryApart(d, t, workspace, c, i - |files|, j - |files|);
    } else if j >= |files| {
      assert files[i] in files && more[j - |files|] in more;
      var p :| p in seen && files[i] in FilesAt(d, t, workspace, p);
      NamesApart(d, t, workspace, p, c, files[i], more[j - |files|]);
    }
  }

  lemma ListsOne(files: seq<CollectedFile>, d: seq<Declaration>, t: Tree, workspace: (nat, nat), seen: set<Path>, c: Path)
    requires WellFormed(t) && DistinctNames(d) && Lists(files, d, t, workspace, seen)
    requires seen <= Visited(d, t) && c in Visited(d, t) && c !in seen
    ensures Lists(files + FilesAt(d, t, workspace, c), d, t, workspace, seen + {c})
  {
    hide FilesAt, Visited, WellFormed, DistinctNames;
    var all := files + FilesAt(d, t, workspace, c);
    forall i, j | 0 <= i < j < |all| ensures all[i].name != all[j].name {
      ListsApart(files, d, t, workspace, seen, c, i, j);
    }
    forall f ensures f in all <==> exists p :: p in seen + {c} && f in FilesAt(d, t, workspace, p) {
      ListsMembers(files, d, t, workspace, seen, c, f);
    }
  }

  lemma NoneCostNothing()
    ensures forall size: nat :: Product(0, size) == 0
  {
  }

  lemma FilesCounted(d: seq<Declaration>, t: Tree, workspace: (nat, nat), p: Path)
    ensures |FilesAt(d, t, workspace, p)| == CountAt(d, t, p)
    ensures TotalBytes(FilesAt(d, t, workspace, p)) == BytesAt(d, t, p)
  {
    hide Collects, Text, Product;
    if p in t && p != [] && t[p].Regular? && p[|p| - 1].Utf8? {
      ObjectsTotal(Collects(d, p), Text(p), t[p], workspace);
    } else {
      NoneCostNothing();
    }
  }

  lemma Admit(d: seq<Declaration>, t: Tree, workspace: (nat, nat), seen: set<Path>,
              entries: nat, remaining: nat, files: seq<CollectedFile>, bytes: nat, c: Path)
    requires WellFormed(t) && DistinctNames(d) && Tally(d, t, workspace, seen, entries, remaining, files, bytes)
    requires c in Visited(d, t) && c !in seen && Offence(d, t, c).None?
    requires entries < MAX_ARTIFACT_WALK_ENTRIES && Cells(d, c) <= remaining
    requires |files| + CountAt(d, t, c) <= MAX_ARTIFACT_FILES_PER_ATTEMPT
    requires bytes + BytesAt(d, t, c) <= MAX_ATTEMPT_ARTIFACT_BYTES
    ensures Tally(d, t, workspace, seen + {c}, entries + 1, remaining - Cells(d, c),
                  files + FilesAt(d, t, workspace, c), bytes + BytesAt(d, t, c))
  {
    hide Visited, WellFormed, DistinctNames, Offence, Lists, SumCells, SumFiles, SumBytes, Cells, BytesAt;
    SumsOne(d, t, seen, c);
    ListsOne(files, d, t, workspace, seen, c);
    FilesCounted(d, t, workspace, c);
    TotalAppend(files, FilesAt(d, t, workspace, c));
  }

  // ----- Refusals speak of the whole tree -----

  /** A refusal names a visited offender, or a total of the tree that is out of
      bounds. */
  ghost predicate Justified(refusal: Refusal, d: seq<Declaration>, t: Tree)
    requires WellFormed(t)
  {
    var visited := Visited(d, t);
    match refusal
    case MatchingBudgetSpent => SumCells(d, visited) > MAX_ARTIFACT_MATCHING_CELLS
    case TooManyEntries(count) => count == MAX_ARTIFACT_WALK_ENTRIES + 1 && |visited| > MAX_ARTIFACT_WALK_ENTRIES
    case TooManyFiles(count) =>
      count == MAX_ARTIFACT_FILES_PER_ATTEMPT + 1 && SumFiles(d, t, visited) > MAX_ARTIFACT_FILES_PER_ATTEMPT
    case TooManyBytes(bytes) =>
      bytes > MAX_ATTEMPT_ARTIFACT_BYTES && SumBytes(d, t, visited) > MAX_ATTEMPT_ARTIFACT_BYTES
    case _ => exists p :: p in visited && Offence(d, t, p) == Some(refusal)
  }

  lemma JustifiedRefuses(refusal: Refusal, d: seq<Declaration>, t: Tree)
    requires WellFormed(t) && Justified(refusal, d, t)
    ensures !Collectable(d, t)
  {
  }

  /** With an entry still to come, the tree's totals exceed the running ones. */
  lemma TotalsExceed(d: seq<Declaration>, t: Tree, seen: set<Path>, c: Path)
    requires seen <= Visited(d, t) && c in Visited(d, t) && c !in seen
    ensures |seen| + 1 <= |Visited(d, t)|
    ensures SumCells(d, seen) + Cells(d, c) <= SumCells(d, Visited(d, t))
    ensures SumFiles(d, t, seen) + CountAt(d, t, c) <= SumFiles(d, t, Visited(d, t))
    ensures SumBytes(d, t, seen) + BytesAt(d, t, c) <= SumBytes(d, t, Visited(d, t))
  {
    SumsOne(d, t, seen, c);
    SumsGrow(d, t, seen + {c}, Visited(d, t));
  }

  lemma TotalsJustify(d: seq<Declaration>, t: Tree, workspace: (nat, nat), seen: set<Path>,
                      entries: nat, remaining: nat, files: seq<CollectedFile>, bytes: nat, c: Path)
    requires WellFormed(t) && Tally(d, t, workspace, seen, entries, remaining, files, bytes)
    requires c in Visited(d, t) && c !in seen
    ensures entries == MAX_ARTIFACT_WALK_ENTRIES ==> Justified(TooManyEntries(entries + 1), d, t)
    ensures Cells(d, c) > remaining ==> Justified(MatchingBudgetSpent, d, t)
    ensures |files| + CountAt(d, t, c) > MAX_ARTIFACT_FILES_PER_ATTEMPT ==>
              Justified(TooManyFiles(MAX_ARTIFACT_FILES_PER_ATTEMPT + 1), d, t)
    ensures bytes + BytesAt(d, t, c) > MAX_ATTEMPT_ARTIFACT_BYTES ==>
              forall total :: total > MAX_ATTEMPT_ARTIFACT_BYTES ==> Justified(TooManyBytes(total), d, t)
  {
    hide Visited, WellFormed, Offence, Lists, SumCells, SumFiles, SumBytes, Cells, BytesAt, CountAt;
    TotalsExceed(d, t, seen, c);
  }

  lemma OffenceJustifies(d: seq<Declaration>, t: Tree, c: Path)
    requires WellFormed(t) && c in Visited(d, t) && Offence(d, t, c).Some?
    ensures Justified(Offence(d, t, c).value, d, t)
  {
    hide Visited, WellFormed, Collects, LooksBelow, Text;
  }

  // ----- The entries below a directory, child by child -----

  function Children(t: Tree, dir: Path): (children: set<Path>)
  {
    set p | p in t && |p| == |dir| + 1 && p[..|dir|] == dir
  }

  /** The entries below `dir` whose child of `dir` is no longer pending. */
  ghost function Done(d: seq<Declaration>, t: Tree, dir: Path, pending: set<Path>): (done: set<Path>)
  {
    set p | p in Below(d, t, dir) && p[..|dir| + 1] !in pending
  }

  ghost predicate Open(d: seq<Declaration>, t: Tree, dir: Path)
  {
    Reached(d, t, dir) && (dir == [] || Enters(d, t, dir))
  }

  lemma ChildVisited(d: seq<Declaration>, t: Tree, dir: Path, c: Path)
    requires Open(d, t, dir) && c in Children(t, dir)
    ensures c in Visited(d, t) && c in Below(d, t, dir)
    ensures Enters(d, t, c) ==> Open(d, t, c)
  {
    forall k | 0 < k < |c| ensures Enters(d, t, c[..k]) {
      assert c[..k] == dir[..k];
      assert k == |dir| ==> dir[..k] == dir;
    }
  }

  lemma BelowChildren(d: seq<Declaration>, t: Tree, dir: Path)
    requires WellFormed(t)
    ensures Done(d, t, dir, Children(t, dir)) == {}
    ensures Done(d, t, dir, {}) == Below(d, t, dir)
  {
    forall p | p in Below(d, t, dir) ensures p[..|dir| + 1] in Children(t, dir) {
      var c := p[..|dir| + 1];
      assert c[..|dir|] == p[..|dir|];
      assert |c| == |p| ==> c == p;
    }
  }

  /** The entries below `dir` that `c` leads to: `c` itself and those below it. */
  lemma ThroughChild(d: seq<Declaration>, t: Tree, dir: Path, c: Path, p: Path)
    requires Open(d, t, dir) && c in Children(t, dir)
    ensures p in Below(d, t, c) ==> p in Below(d, t, dir)
    ensures p in Below(d, t, dir) && p[..|dir| + 1] == c <==> p == c || p in Below(d, t, c)
  {
    ChildVisited(d, t, dir, c);
    hide Visited, Open;
    assert c[..|dir| + 1] == c;
    if p in Below(d, t, c) {
      assert p[..|dir|] == p[..|c|][..|dir|];
    }
    if p in Below(d, t, dir) && |p| == |dir| + 1 { assert p[..|dir| + 1] == p; }
  }

  lemma DoneStep(d: seq<Declaration>, t: Tree, dir: Path, pending: set<Path>, c: Path)
    requires WellFormed(t) && Open(d, t, dir) && pending <= Children(t, dir) && c in pending
    ensures Done(d, t, dir, pending - {c}) == Done(d, t, dir, pending) + {c} + Below(d, t, c)
    ensures c !in Done(d, t, dir, pending) && c !in Below(d, t, c)
    ensures Below(d, t, c) !! Done(d, t, dir, pending)
    ensures c in Below(d, t, dir) && Below(d, t, c) <= Below(d, t, dir)
  {
    ChildVisited(d, t, dir, c);
    NotBelowItself(d, t, c);
    forall p
      ensures p in Below(d, t, c) ==> p in Below(d, t, dir)
      ensures p in Below(d, t, dir) && p[..|dir| + 1] == c <==> p == c || p in Below(d, t, c)
    {
      ThroughChild(d, t, dir, c, p);
    }
    hide Below, Visited, Open, Children, WellFormed;
  }

  lemma NotBelowItself(d: seq<Declaration>, t: Tree, c: Path)
    ensures c !in Below(d, t, c)
  {
  }

  lemma BelowMeansEntered(d: seq<Declaration>, t: Tree, c: Path, p: Path)
    requires c != [] && p in Below(d, t, c)
    ensures Enters(d, t, c)
  {
    assert Enters(d, t, p[..|c|]);
  }

  lemma ShutHidesAll(d: seq<Declaration>, t: Tree, c: Path)
    requires c != [] && !Enters(d, t, c)
    ensures Below(d, t, c) == {}
  {
    hide Enters, Below;
    forall p ensures p !in Below(d, t, c) {
      if p in Below(d, t, c) { BelowMeansEntered(d, t, c, p); }
    }
  }

  // ----- The walk -----

  function SaturatingAdd(a: nat, b: nat): (sum: nat) { if a + b > U64_MAX then U64_MAX else a + b }

  lemma Multiples(k: nat, n: nat, size: nat)
    requires k <= n
    ensures k * size <= n * size
  {
  }

  /** An innocent entry with nothing to collect adds to the counts alone. */
  lemma AdmitBare(d: seq<Declaration>, t: Tree, workspace: (nat, nat), seen: set<Path>,
                  entries: nat, remaining: nat, files: seq<CollectedFile>, bytes: nat, c: Path)
    requires WellFormed(t) && DistinctNames(d) && Tally(d, t, workspace, seen, entries, remaining, files, bytes)
    requires c in Visited(d, t) && c !in seen && Offence(d, t, c).None?
    requires entries < MAX_ARTIFACT_WALK_ENTRIES && Cells(d, c) <= remaining
    requires !t[c].Regular? || c[|c| - 1].Raw? || Collects(d, c) == []
    ensures Tally(d, t, workspace, seen + {c}, entries + 1, remaining - Cells(d, c), files, bytes)
  {
    assert CountAt(d, t, c) == 0 && BytesAt(d, t, c) == 0 && FilesAt(d, t, workspace, c) == [] by {
      hide Matched, Shown, Text, Offence, Visited, WellFormed, DistinctNames, Tally;
    }
    hide Visited, WellFormed, DistinctNames, Offence, Lists, SumCells, SumFiles, SumBytes, Cells, FilesAt;
    assert files + [] == files;
    Admit(d, t, workspace, seen, entries, remaining, files, bytes, c);
  }

  lemma ChildShape(t: Tree, dir: Path, c: Path)
    requires c in Children(t, dir)
    ensures c in t && |c| == |dir| + 1
  {
  }

  lemma TallyBounds(d: seq<Declaration>, t: Tree, workspace: (nat, nat), seen: set<Path>,
                    entries: nat, remaining: nat, files: seq<CollectedFile>, bytes: nat)
    requires WellFormed(t) && Tally(d, t, workspace, seen, entries, remaining, files, bytes)
    ensures entries <= MAX_ARTIFACT_WALK_ENTRIES
    ensures |files| <= MAX_ARTIFACT_FILES_PER_ATTEMPT && bytes <= MAX_ATTEMPT_ARTIFACT_BYTES
  {
  }

  lemma SpoolIsInnocent(d: seq<Declaration>, t: Tree, c: Path)
    requires c in t && c != []
    ensures IsSpool(c) ==> Offence(d, t, c).None? && Cells(d, c) == 0 && Collects(d, c) == [] && !Enters(d, t, c)
  {
  }

  lemma EntersIff(d: seq<Declaration>, t: Tree, c: Path)
    requires c in t && c != []
    ensures Enters(d, t, c) <==> c[|c| - 1].Utf8? && t[c].Directory? && LooksBelow(d, c)
    ensures Enters(d, t, c) && Offence(d, t, c).None? ==> |c| <= MAX_ARTIFACT_WALK_DEPTH
  {
    hide Text, Collects, LooksBelow;
  }

  lemma FilesOfRegular(d: seq<Declaration>, t: Tree, workspace: (nat, nat), c: Path)
    requires c in t && c != [] && t[c].Regular? && c[|c| - 1].Utf8?
    ensures FilesAt(d, t, workspace, c) == Objects(Collects(d, c), Text(c), t[c], workspace)
    ensures CountAt(d, t, c) == |Collects(d, c)| && BytesAt(d, t, c) == |Collects(d, c)| * t[c].size
  {
    hide Text, Collects;
  }

  class Walk {
    const compiled: seq<Declaration>
    const workspace: (nat, nat)
    const budget: MatchingBudget
    var files: seq<CollectedFile>
    var bytes: nat
    var entries: nat
    ghost var seen: set<Path>

    constructor (compiled: seq<Declaration>, workspace: (nat, nat))
      ensures this.compiled == compiled && this.workspace == workspace && fresh(budget)
      ensures files == [] && bytes == 0 && entries == 0 && seen == {}
      ensures budget.remaining == MAX_ARTIFACT_MATCHING_CELLS
    {
      this.compiled, this.workspace := compiled, workspace;
      files, bytes, entries, seen := [], 0, 0, {};
      budget := new MatchingBudget(MAX_ARTIFACT_MATCHING_CELLS);
    }

    ghost predicate Valid(t: Tree)
      requires WellFormed(t)
      reads this, budget
    {
      Tally(compiled, t, workspace, seen, entries, budget.remaining, files, bytes)
    }

    /** Pushes the objects of one matched regular file, or refuses. */
    method Collect(names: seq<string>, text: string, found: Found) returns (refusal: Option<Refusal>)
      requires found.Regular? && found.size <= U64_MAX
      requires |files| <= MAX_ARTIFACT_FILES_PER_ATTEMPT && bytes <= MAX_ATTEMPT_ARTIFACT_BYTES
      modifies this`files, this`bytes
      ensures refusal.None? ==>
                && !NameTooLong(names, text)
                && files == old(files) + Objects(names, text, found, workspace)
                && bytes == old(bytes) + |names| * found.size
                && |files| <= MAX_ARTIFACT_FILES_PER_ATTEMPT && bytes <= MAX_ATTEMPT_ARTIFACT_BYTES
      ensures refusal.Some? ==>
                match refusal.value
                case TooLong(path) => path == text && NameTooLong(names, text)
                case TooManyFiles(count) =>
                  count == MAX_ARTIFACT_FILES_PER_ATTEMPT + 1 && |old(files)| + |names| >= count
                case TooManyBytes(total) =>
                  total > MAX_ATTEMPT_ARTIFACT_BYTES && old(bytes) + |names| * found.size > MAX_ATTEMPT_ARTIFACT_BYTES
                case _ => false
    {
      for i := 0 to |names|
        invariant |files| == |old(files)| + i <= MAX_ARTIFACT_FILES_PER_ATTEMPT
        invariant files == old(files) + Objects(names[..i], text, found, workspace)
        invariant bytes == old(bytes) + i * found.size <= MAX_ATTEMPT_ARTIFACT_BYTES
        invariant !NameTooLong(names[..i], text)
      {
        assert names[..i + 1][..i] == names[..i] && names[..i + 1][i] == names[i];
        var name := ObjectName(names[i], text);
        if Utf8Bytes(name) > MAX_ARTIFACT_OBJECT_NAME_BYTES {
          return Some(TooLong(text));
        }
        if |files| + 1 > MAX_ARTIFACT_FILES_PER_ATTEMPT {
          return Some(TooManyFiles(|files| + 1));
        }
        Multiples(i + 1, |names|, found.size);
        assert (i + 1) * found.size == i * found.size + found.size;
        bytes := SaturatingAdd(bytes, found.size);
        if bytes > MAX_ATTEMPT_ARTIFACT_BYTES {
          return Some(TooManyBytes(bytes));
        }
        files := files + [CollectedFile(name, text, found.size, found.device, found.inode, workspace)];
        assert forall k :: 0 <= k < i + 1 ==> names[..i + 1][k] == (if k < i then names[..i][k] else names[i]);
      }
      assert names[..|names|] == names;
      refusal := None;
    }

    method WalkDirectory(t: Tree, dir: Path, depth: nat) returns (refusal: Option<Refusal>)
      requires WellFormed(t) && Valid(t) && DistinctNames(compiled)
      requires depth == |dir| <= MAX_ARTIFACT_WALK_DEPTH && Open(compiled, t, dir)
      requires Below(compiled, t, dir) !! seen
      modifies this, budget
      ensures refusal.None? ==> Valid(t) && seen == old(seen) + Below(compiled, t, dir)
      ensures refusal.Some? ==> Justified(refusal.value, compiled, t)
      decreases MAX_ARTIFACT_WALK_DEPTH - depth
    {
      hide Tally, WellFormed, DistinctNames, Open, Below, Done, Justified, Visited, Reached;
      var pending := Children(t, dir);
      BelowChildren(compiled, t, dir);
      while pending != {}
        invariant pending <= Children(t, dir)
        invariant Valid(t) && seen == old(seen) + Done(compiled, t, dir, pending)
      {
        var c :| c in pending;
        DoneStep(compiled, t, dir, pending, c);
        refusal := Visit(t, dir, c, depth);
        if refusal.Some? { return; }
        pending := pending - {c};
      }
      refusal := None;
    }

    /** One entry of a directory: counted, classified, then skipped, refused,
        entered or collected. */
    method Visit(t: Tree, dir: Path, c: Path, depth: nat) returns (refusal: Option<Refusal>)
      requires WellFormed(t) && Valid(t) && DistinctNames(compiled)
      requires depth == |dir| <= MAX_ARTIFACT_WALK_DEPTH && Open(compiled, t, dir)
      requires c in Children(t, dir) && c !in seen && c !in Below(compiled, t, c) && Below(compiled, t, c) !! seen
      modifies this, budget
      ensures refusal.None? ==> Valid(t) && seen == old(seen) + {c} + Below(compiled, t, c)
      ensures refusal.Some? ==> Justified(refusal.value, compiled, t)
      decreases MAX_ARTIFACT_WALK_DEPTH - depth, 0
    {
      hide Tally, WellFormed, DistinctNames, Open, Below, Children, Justified, Visited, Offence, Matched, Descends, ClassifyCost;
      ChildVisited(compiled, t, dir, c);
      ChildShape(t, dir, c);
      TotalsJustify(compiled, t, workspace, seen, entries, budget.remaining, files, bytes, c);
      SpoolIsInnocent(compiled, t, c);
      TallyBounds(compiled, t, workspace, seen, entries, budget.remaining, files, bytes);
      entries := entries + 1;
      if entries > MAX_ARTIFACT_WALK_ENTRIES {
        return Some(TooManyEntries(entries));
      }
      var text, name := Text(c), c[depth];
      if depth == 0 && name.Spelled() == AGENT_SPOOL_DIRECTORY {
        AdmitBare(compiled, t, workspace, seen, entries - 1, budget.remaining, files, bytes, c);
        ShutHidesAll(compiled, t, c);
        seen := seen + {c};
        return None;
      }
      ShownPieces(t, c);
      SplitJoin(Shown(c), '/');
      var answer := Classify(compiled, text, budget);
      if answer.None? {
        return Some(MatchingBudgetSpent);
      }
      var (names, descends) := answer.value;
      refusal := Settle(t, c, names, descends);
      EntersIff(compiled, t, c);
      if refusal.None? && name.Utf8? && t[c].Directory? && descends {
        refusal := WalkDirectory(t, c, depth + 1);
      } else if refusal.None? {
        ShutHidesAll(compiled, t, c);
      }
    }

    /** A counted and classified entry: its own refusal, or its files. */
    method Settle(t: Tree, c: Path, names: seq<string>, descends: bool) returns (refusal: Option<Refusal>)
      requires WellFormed(t) && DistinctNames(compiled)
      requires c in t && c in Visited(compiled, t) && c !in seen && !IsSpool(c)
      requires entries > 0 && Tally(compiled, t, workspace, seen, entries - 1, budget.remaining + Cells(compiled, c), files, bytes)
      requires entries <= MAX_ARTIFACT_WALK_ENTRIES
      requires names == Collects(compiled, c) && descends == LooksBelow(compiled, c)
      modifies this
      ensures refusal.None? ==> Valid(t) && seen == old(seen) + {c} && Offence(compiled, t, c).None?
      ensures refusal.Some? ==> Justified(refusal.value, compiled, t)
    {
      hide Tally, WellFormed, DistinctNames, Justified, Visited, Text, Collects, LooksBelow, Cells, CountAt, BytesAt, HasControl, NameTooLong;
      ShownPieces(t, c);
      if Offence(compiled, t, c).Some? { OffenceJustifies(compiled, t, c); }
      TotalsJustify(compiled, t, workspace, seen, entries - 1, budget.remaining + Cells(compiled, c), files, bytes, c);
      TallyBounds(compiled, t, workspace, seen, entries - 1, budget.remaining + Cells(compiled, c), files, bytes);
      var text, name, found := Text(c), c[|c| - 1], t[c];
      ghost var r0 := budget.remaining + Cells(compiled, c);
      if name.Raw? {
        if names != [] || descends {
          return Some(Unnameable(text));
        }
      } else if found.Unstatable? {
        return Some(Unreadable(text));
      } else if found.Link? {
        if names != [] || descends {
          return Some(LinkAt(text));
        }
      } else if found.Directory? {
        if descends {
          if |c| > MAX_ARTIFACT_WALK_DEPTH {
            return Some(TooDeep(text));
          }
          if found.opening == OpenFailed {
            return Some(Unreadable(text));
          }
          if found.opening == Replaced {
            return Some(IdentityChanged(text));
          }
        }
      } else if names != [] {
        if !found.Regular? {
          return Some(NotRegular(text));
        }
        if HasControl(text) {
          return Some(Unnameable(text));
        }
        ghost var f0, b0 := files, bytes;
        FilesOfRegular(compiled, t, workspace, c);
        refusal := Collect(names, text, found);
        if refusal.None? {
          Admit(compiled, t, workspace, seen, entries - 1, r0, f0, b0, c);
          seen := seen + {c};
        }
        return;
      }
      AdmitBare(compiled, t, workspace, seen, entries - 1, r0, files, bytes, c);
      seen := seen + {c};
      refusal := None;
    }
  }

  // ----- Sorting and the whole collection -----

  lemma ValidatedDistinct(specs: seq<ArtifactSpec>)
    requires Validated(specs)
    ensures DistinctNames(CompileSpecs(specs))
  {
  }

  method CompileArtifacts(specs: seq<ArtifactSpec>) returns (compiled: seq<Declaration>)
    ensures compiled == CompileSpecs(specs)
  {
    compiled := [];
    for i := 0 to |specs|
      invariant compiled == CompileSpecs(specs[..i])
    {
      var patterns := [];
      for k := 0 to |specs[i].paths|
        invariant patterns == CompilePaths(specs[i].paths[..k])
      {
        var pattern := CompilePattern(specs[i].paths[k]);
        assert specs[i].paths[..k + 1][..k] == specs[i].paths[..k];
        patterns := patterns + [pattern];
      }
      assert specs[i].paths[..|specs[i].paths|] == specs[i].paths;
      assert specs[..i + 1][..i] == specs[..i];
      compiled := compiled + [Declaration(specs[i].name, patterns)];
    }
    assert specs[..|specs|] == specs;
  }

  lemma NothingSeen(d: seq<Declaration>, t: Tree, workspace: (nat, nat))
    requires WellFormed(t)
    ensures Tally(d, t, workspace, {}, 0, MAX_ARTIFACT_MATCHING_CELLS, [], 0)
    ensures Open(d, t, []) && Below(d, t, []) == Visited(d, t)
  {
  }

  /** A tally of all there is to visit, sorted, is the collection. */
  lemma SortedIsCollection(d: seq<Declaration>, t: Tree, workspace: (nat, nat), entries: nat, remaining: nat,
                           files: seq<CollectedFile>, bytes: nat, sorted: seq<CollectedFile>)
    requires WellFormed(t) && Tally(d, t, workspace, Visited(d, t), entries, remaining, files, bytes)
    requires Ascending(sorted, (f: CollectedFile) => f.name) && multiset(sorted) == multiset(files)
    requires forall f :: f in sorted <==> f in files
    ensures Collectable(d, t) && IsCollection(sorted, d, t, workspace)
    ensures |sorted| <= MAX_ARTIFACT_FILES_PER_ATTEMPT && TotalBytes(sorted) <= MAX_ATTEMPT_ARTIFACT_BYTES
  {
    hide WellFormed, Visited, SumCells, SumFiles, SumBytes, FilesAt, Ascending, TotalBytes, NoOffender;
    TotalShuffled(files, sorted);
  }

  /** Collection answers the one sorted list the tree determines, exactly when
      nothing visited offends and the totals are in bounds; a refusal is
      justified by the tree, not by the order it was read in. */
  method Collect(specs: seq<ArtifactSpec>, t: Tree, workspace: (nat, nat))
    returns (r: Result<seq<CollectedFile>, Refusal>)
    requires WellFormed(t) && Validated(specs)
    ensures r.Ok? <==> Collectable(CompileSpecs(specs), t)
    ensures r.Ok? ==> IsCollection(r.value, CompileSpecs(specs), t, workspace)
    ensures r.Ok? ==> |r.value| <= MAX_ARTIFACT_FILES_PER_ATTEMPT && TotalBytes(r.value) <= MAX_ATTEMPT_ARTIFACT_BYTES
    ensures r.Err? ==> Justified(r.error, CompileSpecs(specs), t)
  {
    ValidatedDistinct(specs);
    hide WellFormed, DistinctNames, Visited, Below, Justified, Collectable, IsCollection, SumCells, SumFiles, SumBytes, Reached;
    var compiled := CompileArtifacts(specs);
    var walk := new Walk(compiled, workspace);
    NothingSeen(compiled, t, workspace);
    var refusal := walk.WalkDirectory(t, [], 0);
    if refusal.Some? {
      JustifiedRefuses(refusal.value, compiled, t);
      return Err(refusal.value);
    }
    var sorted := SortBy(walk.files, (f: CollectedFile) => f.name);
    SortedIsCollection(compiled, t, workspace, walk.entries, walk.budget.remaining, walk.files, walk.bytes, sorted);
    r := Ok(sorted);
  }
}
