/** Sealing a corpus on a disk: the rule that a reseal may add files but not
    launder a change to a sealed one, over any history of edits and seals. */
module CorpusSeal {
  import opened Seqs
  import opened Disk
  import opened CorpusManifest

  const TEMPORARY := ".SHA256SUMS.tmp"

  // ----- The corpus root -----

  /** `links`: a walk of the root meets a symbolic link. */
  datatype State = State(disk: Disk, links: bool)

  ghost predicate WellPlaced(root: Path, s: State) { Shaped(s.disk) && root in s.disk.folders }

  function ManifestAt(root: Path): Path { root + [MANIFEST] }

  function TemporaryAt(root: Path): Path { root + [TEMPORARY] }

  function ManifestText(root: Path, s: State): (text: Option<string>)
  {
    if ManifestAt(root) in s.disk.files then Some(s.disk.files[ManifestAt(root)]) else None
  }

  function Files(root: Path, s: State): map<string, string> { Bundle(s.disk, root) }

  /** Neither a link, nor a leftover temporary, nor a folder in the manifest's place. */
  predicate Sealable(root: Path, s: State)
  {
    !s.links && !s.disk.Exists(TemporaryAt(root)) && ManifestAt(root) !in s.disk.folders
  }

  /** Every sealed name still leads to a file with its sealed bytes, or is named. */
  predicate Intact(h: Hash, root: Path, disk: Disk, entries: map<string, string>, changed: set<string>)
  {
    forall n :: n in entries ==> IntactAt(h, root, disk, n, entries[n], n in changed)
  }

  predicate IntactAt(h: Hash, root: Path, disk: Disk, name: string, digest: string, named: bool)
  {
    var content := Read(disk, root, name);
    content.Some? && (h(content.value) == digest || named)
  }

  predicate SealedIntact(h: Hash, root: Path, s: State, changed: set<string>)
  {
    var text := ManifestText(root, s);
    text.Some? ==> Entries(text.value).Some? && Intact(h, root, s.disk, Entries(text.value).value, changed)
  }

  /** Named paths must be in the manifest; with none named there need be no manifest. */
  predicate MayReseal(h: Hash, root: Path, s: State, changed: set<string>)
  {
    var text := ManifestText(root, s);
    && (changed != {} ==> text.Some? && Entries(text.value).Some? && changed <= Entries(text.value).value.Keys)
    && SealedIntact(h, root, s, changed)
    && Sealable(root, s)
  }

  /** `s'` is `s` with the manifest of its files written. */
  ghost predicate Rewritten(h: Hash, root: Path, s: State, s': State)
  {
    exists text :: IsManifest(h, Files(root, s), text) && s' == WithManifest(root, s, text)
  }

  function WithManifest(root: Path, s: State, text: string): State
  {
    s.(disk := s.disk.(files := s.disk.files[ManifestAt(root) := text]))
  }

  lemma ManifestIsShort()
    ensures |MANIFEST| == 10 && |TEMPORARY| == 15 && IsComponent(MANIFEST) && IsComponent(TEMPORARY)
  {
  }

  lemma SealKeepsShape(root: Path, s: State, text: string)
    requires WellPlaced(root, s) && ManifestAt(root) !in s.disk.folders
    ensures WellPlaced(root, WithManifest(root, s, text))
  {
    ManifestIsShort();
    hide IsComponent;
  }

  /** `verify_manifest` passes. */
  ghost predicate Verifies(h: Hash, root: Path, s: State)
  {
    var text := ManifestText(root, s);
    text.Some? && !s.links && Entries(text.value) == Some(Digests(h, Files(root, s)))
  }

  class Root {
    const h: Hash
    const root: Path
    const folders: set<Path>
    const links: bool
    var files: map<Path, string>

    constructor (h: Hash, root: Path, s: State)
      ensures this.h == h && this.root == root && Snapshot() == s
    {
      this.h, this.root, folders, links, files := h, root, s.disk.folders, s.links, s.disk.files;
    }

    function Snapshot(): State
      reads this
    {
      State(Disk(files, folders), links)
    }

    /** `seal`: `None` for `changed` is the plain seal, which never replaces. */
    method Seal(changed: Option<set<string>>) returns (ok: bool)
      requires WellPlaced(root, Snapshot())
      modifies this`files
      ensures WellPlaced(root, Snapshot())
      ensures ok ==> Rewritten(h, root, old(Snapshot()), Snapshot())
      ensures !ok ==> Snapshot() == old(Snapshot())
      ensures changed.None? ==> (ok <==> ManifestText(root, old(Snapshot())).None? && Sealable(root, old(Snapshot())))
      ensures changed.Some? ==>
                (ok <==> SealedIntact(h, root, old(Snapshot()), changed.value) && Sealable(root, old(Snapshot())))
    {
      hide Read, Entries, Bundle, Covered, IsComponent;
      var target := ManifestAt(root);
      var disk := Disk(files, folders);
      if disk.Exists(target) {
        if changed.None? || target !in files { return false; }
        var entries := ManifestEntries(files[target]);
        if entries.None? { return false; }
        var intact := CheckSealed(disk, entries.value, changed.value);
        if !intact { return false; }
      }
      if links { return false; }
      var covered := Covered(Bundle(disk, root));
      var names := SortedNames(covered);
      if disk.Exists(TemporaryAt(root)) { return false; }
      assert forall i :: 0 <= i < |names| ==> names[i] in names;
      var text := Written(h, Bundle(disk, root), names);
      assert text == WrittenFor(h, Bundle(disk, root), names);
      assert IsManifest(h, Bundle(disk, root), text);
      SealKeepsShape(root, Snapshot(), text);
      files := files[target := text];
      assert Snapshot() == WithManifest(root, old(Snapshot()), text);
      ok := true;
    }

    method CheckSealed(disk: Disk, entries: map<string, string>, changed: set<string>) returns (intact: bool)
      ensures intact <==> Intact(h, root, disk, entries, changed)
    {
      var pending := entries.Keys;
      while pending != {}
        invariant pending <= entries.Keys
        invariant forall n :: n in entries && n !in pending ==> IntactAt(h, root, disk, n, entries[n], n in changed)
      {
        var relative :| relative in pending;
        var content := Read(disk, root, relative);
        if content.None? || !(h(content.value) == entries[relative] || relative in changed) { return false; }
        pending := pending - {relative};
      }
      intact := true;
    }

    /** `reseal`. */
    method Reseal(changed: set<string>) returns (ok: bool)
      requires WellPlaced(root, Snapshot())
      modifies this`files
      ensures WellPlaced(root, Snapshot())
      ensures Next(h, root, old(Snapshot()), ResealNow(changed), Snapshot())
      ensures ok <==> MayReseal(h, root, old(Snapshot()), changed)
    {
      hide Entries, Bundle, Read, WellPlaced;
      if changed != {} {
        if ManifestAt(root) !in files { return false; }
        var entries := ManifestEntries(files[ManifestAt(root)]);
        if entries.None? || !(changed <= entries.value.Keys) { return false; }
      }
      ok := Seal(Some(changed));
    }

    /** `verify_manifest`. */
    method VerifyManifest() returns (ok: bool)
      ensures ok <==> Verifies(h, root, Snapshot())
    {
      hide Entries, Bundle, Digests;
      if ManifestAt(root) !in files { return false; }
      var expected := ManifestEntries(files[ManifestAt(root)]);
      if expected.None? || links { return false; }
      ok := SameDigests(h, expected.value, Bundle(Disk(files, folders), root));
    }
  }

  method SameDigests(h: Hash, expected: map<string, string>, bundle: map<string, string>) returns (same: bool)
    ensures same <==> expected == Digests(h, bundle)
  {
    var actual := Covered(bundle);
    if expected.Keys != actual { return false; }
    var pending := actual;
    while pending != {}
      invariant pending <= actual
      invariant forall n :: n in actual && n !in pending ==> h(bundle[n]) == expected[n]
    {
      var n :| n in pending;
      if h(bundle[n]) != expected[n] { return false; }
      pending := pending - {n};
    }
    same := true;
  }

  // ----- Over any history -----

  datatype Event = Edit(after: State) | SealNow | ResealNow(changed: set<string>)

  /** An edit may do anything to the disk but touch the manifest. */
  ghost predicate Next(h: Hash, root: Path, s: State, e: Event, s': State)
  {
    match e
    case Edit(after) =>
      s' == after && WellPlaced(root, after) && ManifestText(root, after) == ManifestText(root, s)
    case SealNow =>
      if ManifestText(root, s).None? && Sealable(root, s) then Rewritten(h, root, s, s') else s' == s
    case ResealNow(changed) =>
      if MayReseal(h, root, s, changed) then Rewritten(h, root, s, s') else s' == s
  }

  ghost predicate IsRun(h: Hash, root: Path, states: seq<State>, events: seq<Event>)
  {
    && |states| == |events| + 1 && WellPlaced(root, states[0])
    && (forall i :: 0 <= i < |events| ==> Next(h, root, states[i], events[i], states[i + 1]))
  }

  lemma NextWellPlaced(h: Hash, root: Path, s: State, e: Event, s': State)
    requires WellPlaced(root, s) && Next(h, root, s, e, s')
    ensures WellPlaced(root, s')
  {
    hide WellPlaced, IsManifest, WithManifest;
    if s' != s && !e.Edit? {
      var text :| IsManifest(h, Files(root, s), text) && s' == WithManifest(root, s, text);
      SealKeepsShape(root, s, text);
    }
  }

  lemma {:induction false} AlwaysWellPlaced(h: Hash, root: Path, states: seq<State>, events: seq<Event>, i: nat)
    requires IsRun(h, root, states, events) && i < |states|
    ensures WellPlaced(root, states[i])
  {
    hide WellPlaced, Next;
    if i > 0 {
      AlwaysWellPlaced(h, root, states, events, i - 1);
      NextWellPlaced(h, root, states[i - 1], events[i - 1], states[i]);
    }
  }

  predicate Renews(e: Event, p: string) { e.ResealNow? && p in e.changed }

  /** A name a covered file can have. */
  ghost predicate Coverable(p: string) { Plain(p) && BaseName(p) != MANIFEST }

  /** An entry that passes the reseal's own test stands in the next manifest. */
  lemma IntactStays(h: Hash, root: Path, s: State, s': State, changed: set<string>, p: string, digest: string)
    requires Sha256Like(h) && WellPlaced(root, s) && Coverable(p)
    requires ManifestText(root, s).Some? && Gives(ManifestText(root, s).value, p, digest)
    requires SealedIntact(h, root, s, changed) && Rewritten(h, root, s, s')
    ensures ManifestText(root, s').Some?
    ensures exists now :: Gives(ManifestText(root, s').value, p, now) && (now == digest || p in changed)
  {
    var text := ManifestText(root, s).value;
    var m := Entries(text).value;
    ParsedGives(text, m, p, digest);
    EntriesAreGood(SplitLines(text));
    GoodIsUnbroken(p);
    PlainRead(s.disk, root, p);
    BundleHas(s.disk, root, p);
    hide Gives, IsManifest, Entries, Read, Shaped, Split, BaseName, Bundle;
    assert IntactAt(h, root, s.disk, p, m[p], p in changed);
    var next :| IsManifest(h, Files(root, s), next) && s' == WithManifest(root, s, next);
    CoveredGives(h, Files(root, s), next, p);
    assert ManifestText(root, s') == Some(next);
  }

  /** A step keeps every entry, and its digest unless a reseal names it. */
  lemma StepKeeps(h: Hash, root: Path, s: State, e: Event, s': State, p: string, digest: string)
    requires Sha256Like(h) && WellPlaced(root, s) && Next(h, root, s, e, s') && Coverable(p)
    requires ManifestText(root, s).Some? && Gives(ManifestText(root, s).value, p, digest)
    ensures ManifestText(root, s').Some?
    ensures exists now :: Gives(ManifestText(root, s').value, p, now) && (now == digest || Renews(e, p))
  {
    hide Gives, WellPlaced, Coverable, Rewritten, SealedIntact, Sealable, Entries;
    if e.ResealNow? && MayReseal(h, root, s, e.changed) {
      IntactStays(h, root, s, s', e.changed, p, digest);
    } else {
      assert ManifestText(root, s') == ManifestText(root, s);
    }
  }

  /** Over any run of edits, seals and reseals: a name once in the manifest
      never leaves it, and keeps its digest until a reseal names it. */
  lemma {:induction false} SealedForever(h: Hash, root: Path, states: seq<State>, events: seq<Event>, i: nat, j: nat,
                                         p: string, digest: string)
    requires Sha256Like(h) && IsRun(h, root, states, events) && i <= j < |states| && Coverable(p)
    requires ManifestText(root, states[i]).Some? && Gives(ManifestText(root, states[i]).value, p, digest)
    ensures ManifestText(root, states[j]).Some?
    ensures exists now :: Gives(ManifestText(root, states[j]).value, p, now) &&
                          (now == digest || exists k :: i <= k < j && Renews(events[k], p))
  {
    hide Gives, WellPlaced, Coverable, Next, ManifestText, Names;
    if i < j {
      SealedForever(h, root, states, events, i, j - 1, p, digest);
      var before :| Gives(ManifestText(root, states[j - 1]).value, p, before) &&
                    (before == digest || exists k :: i <= k < j - 1 && Renews(events[k], p));
      AlwaysWellPlaced(h, root, states, events, j - 1);
      StepKeeps(h, root, states[j - 1], events[j - 1], states[j], p, before);
    }
  }

  /** The manifest just written verifies against the tree it was written from,
      exactly when every covered name is in the accepted class. */
  lemma SealThenVerify(h: Hash, root: Path, s: State, s': State)
    requires Sha256Like(h) && Sealable(root, s) && Rewritten(h, root, s, s')
    ensures Verifies(h, root, s') <==> forall n :: n in Covered(Files(root, s)) ==> GoodName(n)
  {
    var text :| IsManifest(h, Files(root, s), text) && s' == WithManifest(root, s, text);
    SealKeepsCovered(h, root, s, text);
    hide Covered, IsManifest, Entries, GoodName, Bundle;
    ManifestRoundTrip(h, Files(root, s), text);
    assert ManifestText(root, s') == Some(text);
  }

  lemma SealKeepsOne(root: Path, s: State, text: string, n: string)
    ensures var s' := WithManifest(root, s, text);
            && (n in Covered(Files(root, s')) <==> n in Covered(Files(root, s)))
            && (n in Covered(Files(root, s)) ==> Files(root, s')[n] == Files(root, s)[n])
  {
    var s' := WithManifest(root, s, text);
    BundleHas(s.disk, root, n);
    BundleHas(s'.disk, root, n);
    hide Bundle, BaseName, Split;
    if root + Split(n, '/') == ManifestAt(root) { AtManifest(root, n); }
  }

  /** Writing the manifest changes no covered file. */
  lemma SealKeepsCovered(h: Hash, root: Path, s: State, text: string)
    ensures Digests(h, Files(root, WithManifest(root, s, text))) == Digests(h, Files(root, s))
  {
    var before, after := Files(root, s), Files(root, WithManifest(root, s, text));
    hide Bundle, Covered, WithManifest, Files;
    forall n ensures n in Covered(after) <==> n in Covered(before)
             ensures n in Covered(before) ==> after[n] == before[n]
    {
      SealKeepsOne(root, s, text, n);
    }
  }

  lemma AtManifest(root: Path, name: string)
    requires root + Split(name, '/') == ManifestAt(root)
    ensures BaseName(name) == MANIFEST
  {
    var parts := Split(name, '/');
    assert parts == (root + parts)[|root|..];
    assert ManifestAt(root)[|root|..] == [MANIFEST];
  }

  // ----- Names with line breaks -----

  /** Whatever disk a reseal is allowed on, the sealed path is still covered. */
  ghost predicate Stays(h: Hash, root: Path, text: string, p: string)
  {
    forall s, changed ::
      WellPlaced(root, s) && ManifestText(root, s) == Some(text) && MayReseal(h, root, s, changed) ==>
      p in Covered(Files(root, s))
  }

  /** All the names can be files of one disk that has the manifest in its place
      and no temporary. */
  ghost predicate Realisable(root: Path, names: set<string>)
  {
    && Compatible(root, names)
    && !Demanded(root, names, ManifestAt(root)) && !Demanded(root, names, TemporaryAt(root))
    && forall n :: n in names ==> Spot(root, n) != TemporaryAt(root)
  }

  lemma ResealRealises(h: Hash, root: Path, s: State, text: string, changed: set<string>)
    requires WellPlaced(root, s) && ManifestText(root, s) == Some(text) && MayReseal(h, root, s, changed)
    ensures Entries(text).Some? && Realisable(root, Entries(text).value.Keys)
  {
    var m := Entries(text).value;
    forall n | n in m.Keys ensures Read(s.disk, root, n).Some? {
      assert IntactAt(h, root, s.disk, n, m[n], n in changed);
    }
    hide Read, Entries, Demanded, Compatible, Spot;
    ReadableCompatible(s.disk, root, m.Keys);
    if Demanded(root, m.Keys, ManifestAt(root)) { FoldersDemanded(s.disk, root, m.Keys, ManifestAt(root)); }
    if Demanded(root, m.Keys, TemporaryAt(root)) { FoldersDemanded(s.disk, root, m.Keys, TemporaryAt(root)); }
    forall n | n in m.Keys ensures Spot(root, n) != TemporaryAt(root) { ReadAtSpot(s.disk, root, n); }
  }

  function Spots(root: Path, names: set<string>): set<Path> { set n | n in names :: Spot(root, n) }

  /** The disk with just these names as files, and the manifest. */
  function Built(root: Path, names: set<string>, text: string): Disk
  {
    Disk((map p | p in Spots(root, names) :: "")[ManifestAt(root) := text], Skeleton(root, names))
  }

  lemma {:induction false} DemandedParent(root: Path, names: set<string>, p: Path)
    requires Components(root) && Demanded(root, names, p) && p != []
    ensures Demanded(root, names, p[..|p| - 1]) && IsComponent(p[|p| - 1])
  {
    hide IsComponent, Way;
    if !Prefix(p, root) {
      var n, q :| n in names && q in Way(root, n) && Prefix(p, q);
      SpotEnds(root, n);
      assert q[..|p| - 1] == p[..|p| - 1] && q[|p| - 1] == p[|p| - 1];
      assert q in Way(root, n) && Prefix(p[..|p| - 1], q);
      assert Components(q);
    } else {
      assert root[..|p| - 1] == p[..|p| - 1] && root[|p| - 1] == p[|p| - 1];
    }
  }

  lemma SpotParent(root: Path, names: set<string>, n: string)
    requires Components(root) && n in names && !Demanded(root, names, Spot(root, n))
    ensures var p := Spot(root, n);
            p != [] && Demanded(root, names, p[..|p| - 1]) && IsComponent(p[|p| - 1])
  {
    hide IsComponent, Way, Spot;
    SpotEnds(root, n);
    var p := Spot(root, n);
    assert Prefix([], root);
    assert Prefix(p[..|p| - 1], p[..|p| - 1]);
  }

  lemma BuiltShaped(root: Path, names: set<string>, text: string)
    requires Components(root) && Realisable(root, names)
    ensures Shaped(Built(root, names, text)) && root in Skeleton(root, names)
  {
    var d := Built(root, names, text);
    hide IsComponent, Demanded, Skeleton, Spot;
    forall p ensures p in d.folders <==> Demanded(root, names, p) { SkeletonDemanded(root, names, p); }
    TopDemanded(root, names);
    ManifestIsShort();
    forall p | d.Exists(p) && p != [] ensures p[..|p| - 1] in d.folders && IsComponent(p[|p| - 1]) {
      if p in d.folders {
        DemandedParent(root, names, p);
      } else if p == ManifestAt(root) {
        assert p[..|p| - 1] == root;
      } else {
        var n :| n in names && p == Spot(root, n);
        SpotParent(root, names, n);
      }
    }
  }

  lemma TopDemanded(root: Path, names: set<string>)
    ensures Demanded(root, names, []) && Demanded(root, names, root)
  {
    assert Prefix([], root) && Prefix(root, root);
  }

  lemma BuiltReads(root: Path, names: set<string>, text: string, n: string)
    requires n in names
    ensures Read(Built(root, names, text), root, n).Some?
  {
    var d := Built(root, names, text);
    hide Read, Skeleton, Way, Spot;
    ReadAtSpot(d, root, n);
    forall q | q in Way(root, n) ensures q in d.folders {
      SkeletonDemanded(root, names, q);
      assert Prefix(q, q);
    }
    assert Spot(root, n) in Spots(root, names);
  }

  ghost predicate UnbrokenFrom(k: nat, p: Path) { forall i :: k <= i < |p| ==> Unbroken(p[i]) }

  lemma {:induction false} ClimbUnbroken(root: Path, at: Path, parts: seq<string>)
    requires UnbrokenFrom(|root|, at) && forall c :: c in parts ==> Unbroken(c)
    ensures UnbrokenFrom(|root|, Climb(at, parts))
    decreases |parts|
  {
    hide Unbroken;
    if parts != [] {
      assert parts[0] in parts;
      var next := Step(at, parts[0]);
      assert forall i :: 0 <= i < |next| && i < |at| ==> next[i] == at[i];
      ClimbUnbroken(root, next, parts[1..]);
    }
  }

  lemma {:induction false} JoinUnbroken(parts: seq<string>)
    ensures Unbroken(Join(parts, '/')) <==> forall c :: c in parts ==> Unbroken(c)
  {
    if |parts| == 1 {
      assert parts[0] in parts;
    } else if parts != [] {
      JoinUnbroken(parts[1..]);
      var first, rest := parts[0], Join(parts[1..], '/');
      assert parts == [first] + parts[1..];
      UnbrokenAround(first, rest);
    }
  }

  lemma UnbrokenAround(a: string, b: string)
    ensures Unbroken(a + ['/'] + b) <==> Unbroken(a) && Unbroken(b)
  {
    var s := a + ['/'] + b;
    if Unbroken(s) {
      assert forall i :: 0 <= i < |a| ==> s[i] == a[i];
      forall i | 0 <= i < |b| ensures !IsBreak(b[i]) { assert s[|a| + 1 + i] == b[i]; }
    }
  }

  /** A name of the accepted class leads below the root only to unbroken names. */
  lemma SpotUnbroken(root: Path, n: string, p: string)
    requires GoodName(n) && root + Split(p, '/') == Spot(root, n)
    ensures Unbroken(p)
  {
    GoodIsUnbroken(n);
    JoinSplit(n, '/');
    JoinUnbroken(Split(n, '/'));
    KeptPieces(Split(n, '/'));
    ClimbUnbroken(root, Start(root, n), Pieces(n));
    var parts, end := Split(p, '/'), Spot(root, n);
    assert UnbrokenFrom(|root|, end);
    hide Unbroken, GoodName, Spot, Split;
    forall c | c in parts ensures Unbroken(c) {
      var i :| 0 <= i < |parts| && parts[i] == c;
      assert end[|root| + i] == c;
    }
    JoinSplit(p, '/');
    JoinUnbroken(parts);
  }

  lemma BuiltLacks(root: Path, names: set<string>, text: string, p: string)
    requires !Unbroken(p) && forall n :: n in names ==> GoodName(n)
    ensures p !in Bundle(Built(root, names, text), root)
  {
    var d := Built(root, names, text);
    hide Unbroken, Skeleton, Spot, GoodName, Bundle;
    BundleHas(d, root, p);
    var at := root + Split(p, '/');
    if at in d.files {
      if at == ManifestAt(root) {
        ManifestUnbroken(root, p);
      } else {
        var n :| n in names && at == Spot(root, n);
        SpotUnbroken(root, n, p);
      }
    }
  }

  lemma ManifestUnbroken(root: Path, p: string)
    requires root + Split(p, '/') == ManifestAt(root)
    ensures Unbroken(p)
  {
    hide Split, Unbroken, Join;
    var parts := Split(p, '/');
    assert parts == (root + parts)[|root|..] && ManifestAt(root)[|root|..] == [MANIFEST];
    JoinSplit(p, '/');
    OnePiece(MANIFEST);
    PlainLetters();
  }

  lemma OnePiece(s: string)
    ensures Join([s], '/') == s
  {
  }

  lemma PlainLetters()
    ensures Unbroken(MANIFEST)
  {
  }

  lemma BuiltReseals(h: Hash, root: Path, names: set<string>, text: string)
    requires Entries(text).Some? && names == Entries(text).value.Keys && Realisable(root, names)
    ensures var s := State(Built(root, names, text), false);
            ManifestText(root, s) == Some(text) && MayReseal(h, root, s, names)
  {
    var s := State(Built(root, names, text), false);
    SkeletonDemanded(root, names, ManifestAt(root));
    SkeletonDemanded(root, names, TemporaryAt(root));
    ManifestIsShort();
    hide Demanded, Compatible, Entries, Skeleton, Spot, Read;
    assert TemporaryAt(root)[|root|] == TEMPORARY && ManifestAt(root)[|root|] == MANIFEST;
    assert !s.disk.Exists(TemporaryAt(root));
    forall n | n in names ensures IntactAt(h, root, s.disk, n, Entries(text).value[n], n in names) {
      BuiltReads(root, names, text, n);
    }
  }

  /** On the disk built for the manifest's own names a reseal drops the path. */
  lemma BuiltDrops(h: Hash, root: Path, text: string, p: string)
    requires Components(root) && !Unbroken(p) && Entries(text).Some? && Realisable(root, Entries(text).value.Keys)
    ensures !Stays(h, root, text, p)
  {
    var names := Entries(text).value.Keys;
    var s := State(Built(root, names, text), false);
    EntriesAreGood(SplitLines(text));
    hide Shaped, Unbroken, Realisable, Entries, Bundle, Built, Skeleton, MayReseal, ManifestText;
    BuiltShaped(root, names, text);
    BuiltFolders(root, names, text);
    BuiltLacks(root, names, text, p);
    BuiltReseals(h, root, names, text);
    assert WellPlaced(root, s);
  }

  lemma BuiltFolders(root: Path, names: set<string>, text: string)
    ensures Built(root, names, text).folders == Skeleton(root, names)
  {
  }

  lemma UnbrokenStays(h: Hash, root: Path, files: map<string, string>, text: string, p: string, s: State, changed: set<string>)
    requires Sha256Like(h) && IsManifest(h, files, text) && p in Covered(files) && Unbroken(p) && Plain(p)
    requires WellPlaced(root, s) && ManifestText(root, s) == Some(text) && MayReseal(h, root, s, changed)
    ensures p in Covered(Files(root, s))
  {
    CoveredGives(h, files, text, p);
    var m := Entries(text).value;
    ParsedGives(text, m, p, h(files[p]));
    PlainRead(s.disk, root, p);
    BundleHas(s.disk, root, p);
    hide Gives, IsManifest, Entries, Read, Shaped, Split, BaseName, Bundle;
    assert IntactAt(h, root, s.disk, p, m[p], p in changed);
  }

  /** A sealed path stays whatever the disk does, exactly when its own name holds
      no line break, or no reseal of this manifest can ever be allowed: it does
      not parse, or its names cannot all be files of one disk. */
  lemma LeavesExactly(h: Hash, root: Path, sealed: State, text: string, p: string)
    requires Sha256Like(h) && WellPlaced(root, sealed)
    requires IsManifest(h, Files(root, sealed), text) && p in Covered(Files(root, sealed))
    ensures Stays(h, root, text, p) <==>
            Unbroken(p) || Entries(text).None? || !Realisable(root, Entries(text).value.Keys)
  {
    BundlePlain(sealed.disk, root, p);
    RootComponents(root, sealed);
    hide IsManifest, Entries, Realisable, Unbroken, Plain, Covered, Bundle, WellPlaced, MayReseal, ManifestText;
    if Unbroken(p) || Entries(text).None? || !Realisable(root, Entries(text).value.Keys) {
      forall s, changed | WellPlaced(root, s) && ManifestText(root, s) == Some(text) && MayReseal(h, root, s, changed)
        ensures p in Covered(Files(root, s))
      {
        ResealRealises(h, root, s, text, changed);
        UnbrokenStays(h, root, Files(root, sealed), text, p, s, changed);
      }
    } else {
      BuiltDrops(h, root, text, p);
    }
  }

  lemma RootComponents(root: Path, s: State)
    requires WellPlaced(root, s)
    ensures Components(root)
  {
    forall i | 0 <= i < |root| ensures IsComponent(root[i]) { Ancestors(s.disk, root, i); }
  }

  // ----- A file named with a line break -----

  const CORPUS: Path := ["corpus"]

  function OneFile(name: string, x: string): State
  {
    State(Disk(map[CORPUS + [name] := x], {[], CORPUS}), false)
  }

  function TwoFiles(x: string, y: string, text: string): State
  {
    State(Disk(map[CORPUS + ["x"] := x, CORPUS + ["y"] := y, CORPUS + [MANIFEST] := text], {[], CORPUS}), false)
  }

  lemma OnlyFiles(s: State)
    requires s.disk.folders == {[], CORPUS}
    requires forall p :: p in s.disk.files ==> |p| == 2 && p[0] == CORPUS[0] && IsComponent(p[1])
    ensures WellPlaced(CORPUS, s)
  {
    assert CORPUS[..0] == [];
    forall p | p in s.disk.files ensures p[..1] == CORPUS {}
  }

  lemma OneFileNamed(name: string, x: string)
    requires IsComponent(name)
    ensures WellPlaced(CORPUS, OneFile(name, x)) && Files(CORPUS, OneFile(name, x)) == map[name := x]
  {
    var s := OneFile(name, x);
    OnlyFiles(s);
    hide IsComponent, Bundle;
    forall n ensures n in Files(CORPUS, s) <==> n == name
             ensures n == name ==> Files(CORPUS, s)[n] == x
    {
      BundleHas(s.disk, CORPUS, n);
      PieceBelow(n, name);
    }
  }

  /** A name stands directly below the root as the one component it is. */
  lemma PieceBelow(n: string, name: string)
    requires '/' !in name
    ensures CORPUS + Split(n, '/') == CORPUS + [name] <==> n == name
  {
    hide Split, Join;
    JoinSplit(n, '/');
    SplitPrepend(name, "", '/');
    OnePiece(name);
    assert (CORPUS + Split(n, '/'))[1..] == Split(n, '/') && (CORPUS + [name])[1..] == [name];
  }

  lemma Letters()
    ensures "x" != "y" && |"x"| == 1 && |"y"| == 1 && IsComponent("x") && IsComponent("y")
  {
    assert "x"[0] != "y"[0];
  }

  lemma Apart(a: string, b: string)
    requires a != b
    ensures CORPUS + [a] != CORPUS + [b]
  {
    assert (CORPUS + [a])[1] == a && (CORPUS + [b])[1] == b;
  }

  lemma AllApart()
    ensures CORPUS + ["x"] != CORPUS + ["y"] && CORPUS + ["x"] != ManifestAt(CORPUS) && CORPUS + ["y"] != ManifestAt(CORPUS)
    ensures TemporaryAt(CORPUS) !in {CORPUS + ["x"], CORPUS + ["y"], ManifestAt(CORPUS)}
  {
    Letters();
    ManifestIsShort();
    hide IsComponent;
    Apart("x", "y");
    Apart("x", MANIFEST);
    Apart("y", MANIFEST);
    Apart(TEMPORARY, "x");
    Apart(TEMPORARY, "y");
    Apart(TEMPORARY, MANIFEST);
  }

  lemma TwoFilesPlaced(x: string, y: string, text: string)
    ensures var s := TwoFiles(x, y, text);
            && WellPlaced(CORPUS, s) && Sealable(CORPUS, s) && ManifestText(CORPUS, s) == Some(text)
            && CORPUS + ["x"] in s.disk.files && s.disk.files[CORPUS + ["x"]] == x
            && CORPUS + ["y"] in s.disk.files && s.disk.files[CORPUS + ["y"]] == y
  {
    AllApart();
    TwoFilesShaped(x, y, text);
    hide WellPlaced, IsComponent;
    assert |ManifestAt(CORPUS)| == 2 && |TemporaryAt(CORPUS)| == 2;
  }

  lemma TwoFilesShaped(x: string, y: string, text: string)
    ensures WellPlaced(CORPUS, TwoFiles(x, y, text))
  {
    var s := TwoFiles(x, y, text);
    Letters();
    ManifestIsShort();
    hide IsComponent, WellPlaced;
    forall p | p in s.disk.files ensures |p| == 2 && p[0] == CORPUS[0] && IsComponent(p[1]) {
      assert p in {CORPUS + ["x"], CORPUS + ["y"], CORPUS + [MANIFEST]};
    }
    OnlyFiles(s);
  }

  lemma ReadBelow(s: State, name: string)
    requires WellPlaced(CORPUS, s) && IsComponent(name) && CORPUS + [name] in s.disk.files
    ensures Read(s.disk, CORPUS, name) == Some(s.disk.files[CORPUS + [name]])
  {
    OneComponent(name);
    PieceBelow(name, name);
    hide Read, Shaped, IsComponent;
    PlainRead(s.disk, CORPUS, name);
  }

  lemma OneComponent(name: string)
    requires IsComponent(name)
    ensures Plain(name)
  {
    SplitPrepend(name, "", '/');
  }

  lemma TwoFilesLack(x: string, y: string, text: string, name: string)
    requires !Unbroken(name)
    ensures name !in Files(CORPUS, TwoFiles(x, y, text))
  {
    var s := TwoFiles(x, y, text);
    hide Bundle, Split;
    BundleHas(s.disk, CORPUS, name);
    PieceBelow(name, "x");
    PieceBelow(name, "y");
    if CORPUS + Split(name, '/') == ManifestAt(CORPUS) { ManifestUnbroken(CORPUS, name); }
  }

  /** A file named with a line break, replaced by two plain files with the bytes
      the two lines promise, is gone from the next manifest: the reseal is
      allowed with nothing named. */
  lemma BrokenNameLeaves(h: Hash, x: string, y: string) returns (text: string)
    requires Sha256Like(h)
    ensures var name := "x\n" + Line(h(y), "y");
            var sealed, later := OneFile(name, x), TwoFiles(x, y, text);
            && WellPlaced(CORPUS, sealed) && WellPlaced(CORPUS, later)
            && IsManifest(h, Files(CORPUS, sealed), text) && ManifestText(CORPUS, later) == Some(text)
            && MayReseal(h, CORPUS, later, {})
            && name in Covered(Files(CORPUS, sealed)) && name !in Covered(Files(CORPUS, later))
  {
    hide IsManifest, Covered, Line, IsDigest;
    var name := "x\n" + Line(h(y), "y");
    text := BrokenText(h, x, y);
    OneFileNamed(name, x);
    TwoFilesPlaced(x, y, text);
    TwoFilesLack(x, y, text, name);
    TwoFilesIntact(h, x, y, text);
  }

  lemma TwoFilesIntact(h: Hash, x: string, y: string, text: string)
    requires Entries(text) == Some(map["x" := h(x), "y" := h(y)])
    ensures MayReseal(h, CORPUS, TwoFiles(x, y, text), {})
  {
    var s := TwoFiles(x, y, text);
    Letters();
    TwoFilesPlaced(x, y, text);
    hide Read, Entries, Sealable, ManifestText, TwoFiles, IsComponent, WellPlaced;
    ReadBelow(s, "x");
    ReadBelow(s, "y");
  }
}
