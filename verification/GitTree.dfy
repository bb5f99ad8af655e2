/** Git tree objects over nested directories: looking paths up, inserting a
    file, and the object id of a tree for an arbitrary 20-byte hash. The sorted
    encoding is uniquely decodable, so equal ids mean equal trees or an explicit
    pair of different hashed objects with one hash. */
module GitTree {
  import opened Seqs

  type Hash = string -> string

  ghost predicate TwentyBytes(h: Hash)
  {
    forall x :: |h(x)| == 20
  }

  datatype Leaf = Leaf(mode: string, oid: string)

  datatype Node = File(leaf: Leaf) | Folder(entries: map<string, Node>)

  const EMPTY := Folder(map[])

  // ----- Paths in a tree -----

  function Lookup(node: Node, path: seq<string>): (leaf: Option<Leaf>)
    decreases |path|
  {
    if path == [] then (if node.File? then Some(node.leaf) else None)
    else if node.File? || path[0] !in node.entries then None
    else Lookup(node.entries[path[0]], path[1..])
  }

  /** No empty directory below the root. */
  ghost predicate Normal(node: Node)
  {
    node.Folder? ==>
      forall name :: name in node.entries ==>
        && Normal(node.entries[name])
        && (node.entries[name].Folder? ==> node.entries[name] != EMPTY)
  }

  /** Walks down, making directories, and binds the last name: `None` where a
      file stands in the way or the last name is taken. */
  function Insert(node: Node, path: seq<string>, leaf: Leaf): (r: Option<Node>)
    requires node.Folder? && path != []
    ensures r.Some? ==> r.value.Folder?
    decreases |path|
  {
    var name := path[0];
    if |path| == 1 then
      if name in node.entries then None else Some(Folder(node.entries[name := File(leaf)]))
    else
      var child := if name in node.entries then node.entries[name] else EMPTY;
      if child.File? then None
      else match Insert(child, path[1..], leaf)
        case None => None
        case Some(grown) => Some(Folder(node.entries[name := grown]))
  }

  lemma {:induction false} HasPath(node: Node) returns (path: seq<string>)
    requires Normal(node) && node != EMPTY
    ensures Lookup(node, path).Some? && (node.Folder? ==> path != [])
    decreases node
  {
    if node.File? {
      path := [];
    } else {
      assert node.entries != map[];
      var name :| name in node.entries;
      var rest := HasPath(node.entries[name]);
      path := [name] + rest;
    }
  }

  /** A path already in the tree that ends on the way to `path` or goes on below it. */
  ghost predicate Meets(node: Node, path: seq<string>, other: seq<string>)
  {
    Lookup(node, other).Some? && (other <= path || path <= other)
  }

  ghost predicate Blocked(node: Node, path: seq<string>)
  {
    exists other :: Meets(node, path, other)
  }

  /** `after` holds what `before` held and `leaf` at `path`. */
  ghost predicate Binds(before: Node, after: Node, path: seq<string>, leaf: Leaf)
  {
    && Normal(after) && after.Folder? && after != EMPTY
    && forall other :: Lookup(after, other) == (if other == path then Some(leaf) else Lookup(before, other))
  }

  /** Insertion fails exactly against a path that ends on the way or goes on
      below; otherwise it binds that path and no other. */
  lemma {:induction false} InsertMeaning(node: Node, path: seq<string>, leaf: Leaf)
    requires node.Folder? && path != [] && Normal(node)
    ensures Insert(node, path, leaf).None? <==> Blocked(node, path)
    ensures Insert(node, path, leaf).Some? ==> Binds(node, Insert(node, path, leaf).value, path, leaf)
    decreases |path|
  {
    var name, rest := path[0], path[1..];
    assert path == [name] + rest;
    if |path| == 1 {
      assert path == [name];
      InsertLast(node, name, leaf);
    } else {
      var child := if name in node.entries then node.entries[name] else EMPTY;
      if child.File? {
        assert [name][1..] == [] && [name] <= path;
        assert Meets(node, path, [name]);
      } else {
        InsertMeaning(child, rest, leaf);
        BlockedBelow(node, path, child);
        if Insert(child, rest, leaf).Some? {
          BindsBelow(node, path, leaf, child, Insert(child, rest, leaf).value);
        }
      }
    }
  }

  lemma InsertLast(node: Node, name: string, leaf: Leaf)
    requires node.Folder? && Normal(node)
    ensures name in node.entries <==> Blocked(node, [name])
    ensures name !in node.entries ==> Binds(node, Folder(node.entries[name := File(leaf)]), [name], leaf)
  {
    if name in node.entries {
      var below := HasPath(node.entries[name]);
      var other := [name] + below;
      assert other[1..] == below && [name] <= other;
      assert Meets(node, [name], other);
    } else {
      var grown := Folder(node.entries[name := File(leaf)]);
      assert name in grown.entries && Normal(File(leaf));
      forall n | n in grown.entries ensures Normal(grown.entries[n]) {
        assert n != name ==> grown.entries[n] == node.entries[n];
      }
      forall other ensures Lookup(grown, other) == (if other == [name] then Some(leaf) else Lookup(node, other)) {
        if other != [] && other[0] == name {
          assert Lookup(grown, other) == Lookup(File(leaf), other[1..]);
          assert other[1..] == [] <==> other == [name];
        }
      }
    }
  }

  lemma BlockedBelow(node: Node, path: seq<string>, child: Node)
    requires node.Folder? && |path| > 1
    requires child == (if path[0] in node.entries then node.entries[path[0]] else EMPTY) && child.Folder?
    ensures Blocked(node, path) <==> Blocked(child, path[1..])
  {
    var name, rest := path[0], path[1..];
    assert path == [name] + rest;
    if other :| Meets(node, path, other) {
      assert other == [name] + other[1..];
      assert Meets(child, rest, other[1..]);
    }
    if below :| Meets(child, rest, below) {
      var other := [name] + below;
      assert other[1..] == below;
      assert Meets(node, path, other);
    }
  }

  lemma BindsBelow(node: Node, path: seq<string>, leaf: Leaf, child: Node, grown: Node)
    requires node.Folder? && |path| > 1 && Normal(node)
    requires child == (if path[0] in node.entries then node.entries[path[0]] else EMPTY) && child.Folder?
    requires Binds(child, grown, path[1..], leaf)
    ensures Binds(node, Folder(node.entries[path[0] := grown]), path, leaf)
  {
    var name, rest := path[0], path[1..];
    var now := Folder(node.entries[name := grown]);
    assert path == [name] + rest && name in now.entries;
    forall other ensures Lookup(now, other) == (if other == path then Some(leaf) else Lookup(node, other)) {
      if other != [] {
        assert other == [other[0]] + other[1..];
        if other[0] == name {
          assert Lookup(now, other) == Lookup(grown, other[1..]);
          assert Lookup(node, other) == Lookup(child, other[1..]);
        }
      }
    }
  }

  /** Directories without empty ones below are determined by their files. */
  lemma {:induction false} NormalUnique(a: Node, b: Node)
    requires Normal(a) && Normal(b) && a != EMPTY && b != EMPTY
    requires forall path :: Lookup(a, path) == Lookup(b, path)
    ensures a == b
    decreases a
  {
    assert Lookup(a, []) == Lookup(b, []);
    if a.Folder? && b.Folder? {
      forall name | name in a.entries || name in b.entries
        ensures name in a.entries && name in b.entries && a.entries[name] == b.entries[name]
      {
        if name in a.entries {
          var below := HasPath(a.entries[name]);
          SameBelow(a, b, name, below);
        } else {
          var below := HasPath(b.entries[name]);
          SameBelow(b, a, name, below);
        }
        forall path ensures Lookup(a.entries[name], path) == Lookup(b.entries[name], path) {
          assert ([name] + path)[1..] == path;
          assert Lookup(a, [name] + path) == Lookup(b, [name] + path);
        }
        NormalUnique(a.entries[name], b.entries[name]);
      }
      assert a.entries == b.entries;
    }
  }

  lemma SameBelow(a: Node, b: Node, name: string, below: seq<string>)
    requires a.Folder? && b.Folder? && name in a.entries && Lookup(a.entries[name], below).Some?
    requires forall path :: Lookup(a, path) == Lookup(b, path)
    ensures name in b.entries
  {
    assert ([name] + below)[1..] == below;
    assert Lookup(a, [name] + below) == Lookup(b, [name] + below);
  }

  // ----- The object id -----

  datatype Entry = Entry(name: string, node: Node)

  /** Git's order: a directory sorts as if its name ended in `/`. */
  function Key(e: Entry): string { if e.node.Folder? then e.name + "/" else e.name }

  function Mode(node: Node): string { if node.Folder? then "40000" else node.leaf.mode }

  ghost predicate IsListing(node: Node, listing: seq<Entry>)
    requires node.Folder?
  {
    && Ascending(listing, Key)
    && forall e :: e in listing <==> e.name in node.entries && node.entries[e.name] == e.node
  }

  function Decimal(n: nat): (s: string)
    ensures '\0' !in s
  {
    var digit := ['0' + (n % 10) as char];
    if n < 10 then digit else Decimal(n / 10) + digit
  }

  function Framed(kind: string, body: string): string { kind + " " + Decimal(|body|) + "\0" + body }

  /** Names fit to stand in a tree object, leaves fit to be referenced. */
  ghost predicate Sound(node: Node)
  {
    match node
    case File(leaf) => leaf.mode in {"100644", "100755", "120000"} && |leaf.oid| == 20
    case Folder(entries) =>
      forall name :: name in entries ==> '/' !in name && '\0' !in name && Sound(entries[name])
  }

  // ----- What the header and the order are -----

  /** The value of a decimal numeral, most significant digit first. */
  function Numeral(s: string): (n: nat)
    requires forall i :: 0 <= i < |s| ==> '0' <= s[i] <= '9'
  {
    if s == [] then 0 else 10 * Numeral(s[..|s| - 1]) + (s[|s| - 1] as nat - '0' as nat)
  }

  predicate IsNumeral(s: string)
  {
    s != [] && (forall i :: 0 <= i < |s| ==> '0' <= s[i] <= '9') && (s[0] == '0' ==> |s| == 1)
  }

  /** The size in a header is the decimal numeral of the length, without a
      leading zero. */
  lemma {:induction false} DecimalExact(n: nat)
    ensures IsNumeral(Decimal(n)) && Numeral(Decimal(n)) == n
    ensures n > 0 ==> Decimal(n)[0] != '0'
  {
    var s := Decimal(n);
    var last := s[|s| - 1];
    assert last == '0' + (n % 10) as char;
    if n >= 10 {
      DecimalExact(n / 10);
      assert s[..|s| - 1] == Decimal(n / 10) && s[0] == Decimal(n / 10)[0];
    } else {
      assert s[..0] == [] && s == [last];
    }
  }

  /** What follows the common length of two names in Git's comparison: the next
      character, or the end, which counts as `/` for a directory. */
  function After(e: Entry, k: nat): char
    requires k <= |e.name|
  {
    if k < |e.name| then e.name[k] else if e.node.Folder? then '/' else '\0'
  }

  /** Git's comparison of two entries: the shared length byte by byte, then what
      follows it. */
  predicate GitBefore(a: Entry, b: Entry)
  {
    var k := if |a.name| <= |b.name| then |a.name| else |b.name|;
    if a.name[..k] != b.name[..k] then Less(a.name[..k], b.name[..k]) else After(a, k) < After(b, k)
  }

  lemma {:induction false} LessConcat(a: string, x: string, b: string, y: string)
    requires |a| == |b|
    ensures Less(a + x, b + y) <==> if a != b then Less(a, b) else Less(x, y)
  {
    if a == [] {
      assert a + x == x && b + y == y;
    } else {
      assert (a + x)[1..] == a[1..] + x && (b + y)[1..] == b[1..] + y;
      LessConcat(a[1..], x, b[1..], y);
      assert a == [a[0]] + a[1..] && b == [b[0]] + b[1..];
    }
  }

  lemma KeyAfter(e: Entry, k: nat)
    requires k <= |e.name|
    ensures Key(e) == e.name[..k] + Key(Entry(e.name[k..], e.node))
    ensures var rest := Key(Entry(e.name[k..], e.node)); rest == [] || rest[0] == After(e, k)
    ensures Key(Entry(e.name[k..], e.node)) == [] ==> After(e, k) == '\0'
  {
    assert e.name == e.name[..k] + e.name[k..];
  }

  /** Sorting by the key is sorting by Git's comparison. */
  lemma OrderIsGits(a: Entry, b: Entry)
    requires a.name != b.name && '/' !in a.name && '/' !in b.name && '\0' !in a.name && '\0' !in b.name
    ensures Less(Key(a), Key(b)) <==> GitBefore(a, b)
  {
    var k := if |a.name| <= |b.name| then |a.name| else |b.name|;
    KeyAfter(a, k);
    KeyAfter(b, k);
    var x, y := Key(Entry(a.name[k..], a.node)), Key(Entry(b.name[k..], b.node));
    LessConcat(a.name[..k], x, b.name[..k], y);
    if a.name[..k] == b.name[..k] {
      TailsDiffer(a, b, k);
      assert Less(x, y) <==> After(a, k) < After(b, k);
    }
  }

  lemma TailsDiffer(a: Entry, b: Entry, k: nat)
    requires a.name != b.name && k <= |a.name| && k <= |b.name| && (k == |a.name| || k == |b.name|)
    requires a.name[..k] == b.name[..k]
    requires '/' !in a.name && '/' !in b.name && '\0' !in a.name && '\0' !in b.name
    ensures After(a, k) != After(b, k)
  {
    assert a.name == a.name[..k] + a.name[k..] && b.name == b.name[..k] + b.name[k..];
    if k < |a.name| { assert a.name[k] in a.name; }
    if k < |b.name| { assert b.name[k] in b.name; }
  }

  /** The entries of a tree object stand in Git's order. */
  lemma ListingInGitOrder(node: Node, listing: seq<Entry>, i: nat, j: nat)
    requires Sound(node) && node.Folder? && IsListing(node, listing) && i < j < |listing|
    ensures GitBefore(listing[i], listing[j])
  {
    var a, b := listing[i], listing[j];
    assert a in listing && b in listing;
    LessTotal(Key(a), Key(a));
    assert a.name == b.name ==> a == b;
    hide Less, GitBefore;
    OrderIsGits(a, b);
  }

  lemma SlashInKey(e: Entry)
    requires '/' !in e.name
    ensures '/' in Key(e) <==> e.node.Folder?
  {
    if e.node.Folder? { assert Key(e)[|e.name|] == '/'; }
  }

  lemma KeyInjective(a: Entry, b: Entry)
    requires '/' !in a.name && '/' !in b.name && Key(a) == Key(b)
    ensures a.name == b.name
  {
    SlashInKey(a);
    SlashInKey(b);
    if a.node.Folder? {
      assert a.name == Key(a)[..|Key(a)| - 1] && b.name == Key(b)[..|Key(b)| - 1];
    }
  }

  ghost predicate SlashFree(node: Node)
  {
    node.Folder? ==> forall name :: name in node.entries ==> '/' !in name && SlashFree(node.entries[name])
  }

  lemma {:induction false} ListingExists(node: Node) returns (listing: seq<Entry>)
    requires node.Folder? && forall name :: name in node.entries ==> '/' !in name
    ensures IsListing(node, listing)
    decreases |node.entries|
  {
    if node.entries == map[] {
      listing := [];
    } else {
      var name :| name in node.entries;
      var fewer := Folder(node.entries - {name});
      assert fewer.entries.Keys == node.entries.Keys - {name};
      var rest := ListingExists(fewer);
      var e := Entry(name, node.entries[name]);
      forall i | 0 <= i < |rest| ensures Key(rest[i]) != Key(e) {
        assert rest[i] in rest;
        if Key(rest[i]) == Key(e) { KeyInjective(rest[i], e); }
      }
      var k := PlaceOf(rest, e, Key);
      InsertAscending(rest, k, e, Key);
      listing := rest[..k] + [e] + rest[k..];
    }
  }

  lemma HasListing(node: Node)
    requires node.Folder? && forall name :: name in node.entries ==> '/' !in name
    ensures exists listing :: IsListing(node, listing)
  {
    var listing := ListingExists(node);
  }

  ghost function Listing(node: Node): (listing: seq<Entry>)
    requires SlashFree(node) && node.Folder?
    ensures IsListing(node, listing)
  {
    HasListing(node);
    var listing :| IsListing(node, listing);
    listing
  }

  lemma ListingUnique(node: Node, listing: seq<Entry>)
    requires SlashFree(node) && node.Folder? && IsListing(node, listing)
    ensures listing == Listing(node)
  {
    AscendingUnique(listing, Listing(node), Key);
  }

  /** The tree object's body: mode, name and id of each entry in order. */
  ghost function Encode(h: Hash, node: Node, listing: seq<Entry>): (body: string)
    requires node.Folder? && SlashFree(node)
    requires forall e :: e in listing ==> e.name in node.entries && node.entries[e.name] == e.node
    decreases node, |listing|
  {
    if listing == [] then ""
    else
      var e := listing[0];
      assert e in listing;
      Mode(e.node) + " " + (e.name + "\0" + (Id(h, e.node) + Encode(h, node, listing[1..])))
  }

  ghost function Id(h: Hash, node: Node): (id: string)
    requires SlashFree(node)
    decreases node
  {
    match node
    case File(leaf) => leaf.oid
    case Folder(_) => h(Object(h, node))
  }

  /** The bytes hashed for a directory. */
  ghost function Object(h: Hash, node: Node): (bytes: string)
    requires SlashFree(node) && node.Folder?
    decreases node, |Listing(node)| + 1
  {
    Framed("tree", Encode(h, node, Listing(node)))
  }

  /** The bytes of a tree object as Git defines them. */
  lemma ObjectBytes(h: Hash, node: Node)
    requires SlashFree(node) && node.Folder?
    ensures var body := Encode(h, node, Listing(node));
            Object(h, node) == "tree " + Decimal(|body|) + "\0" + body && Id(h, node) == h(Object(h, node))
    ensures Listing(node) != [] ==>
              var e := Listing(node)[0];
              Encode(h, node, Listing(node)) ==
                (if e.node.Folder? then "40000" else e.node.leaf.mode) + " " +
                (e.name + "\0" + (Id(h, e.node) + Encode(h, node, Listing(node)[1..])))
  {
    assert "tree" + " " == "tree ";
    if Listing(node) != [] { assert forall e :: e in Listing(node)[1..] ==> e in Listing(node); }
    hide Decimal;
  }

  /** Every byte string hashed for the directories of a tree. */
  ghost predicate Hashed(h: Hash, node: Node, bytes: string)
    requires SlashFree(node)
    decreases node
  {
    node.Folder? &&
    (bytes == Object(h, node) || exists name :: name in node.entries && Hashed(h, node.entries[name], bytes))
  }

  /** Two different byte strings, hashed for the two trees, with one hash. */
  ghost predicate Collide(h: Hash, a: Node, b: Node)
    requires SlashFree(a) && SlashFree(b)
  {
    exists x, y :: Hashed(h, a, x) && Hashed(h, b, y) && x != y && h(x) == h(y)
  }

  lemma FramedInjective(kind: string, x: string, y: string)
    requires '\0' !in kind && Framed(kind, x) == Framed(kind, y)
    ensures x == y
  {
    DelimitedInjective(kind + " " + Decimal(|x|), x, kind + " " + Decimal(|y|), y, '\0');
  }

  ghost predicate SoundEntries(s: seq<Entry>)
  {
    forall i :: 0 <= i < |s| ==> Sound(s[i].node) && '/' !in s[i].name && '\0' !in s[i].name
  }

  lemma {:induction false} SoundIsSlashFree(node: Node)
    requires Sound(node)
    ensures SlashFree(node)
  {
    if node.Folder? {
      forall name | name in node.entries ensures SlashFree(node.entries[name]) {
        SoundIsSlashFree(node.entries[name]);
      }
    }
  }

  lemma ModeIsPlain(node: Node)
    requires Sound(node)
    ensures ' ' !in Mode(node) && (Mode(node) == "40000" <==> node.Folder?)
  {
  }

  lemma IdLength(h: Hash, node: Node)
    requires TwentyBytes(h) && Sound(node) && SlashFree(node)
    ensures |Id(h, node)| == 20
  {
  }

  /** The first entry can be read off an encoding. */
  lemma FirstDecodes(h: Hash, e: Entry, x: string, f: Entry, y: string)
    requires TwentyBytes(h) && SoundEntries([e]) && SoundEntries([f]) && SlashFree(e.node) && SlashFree(f.node)
    requires Mode(e.node) + " " + (e.name + "\0" + (Id(h, e.node) + x)) ==
             Mode(f.node) + " " + (f.name + "\0" + (Id(h, f.node) + y))
    ensures Mode(e.node) == Mode(f.node) && e.name == f.name && Id(h, e.node) == Id(h, f.node) && x == y
  {
    hide Id, Mode, Sound;
    assert [e][0] == e && [f][0] == f;
    ModeIsPlain(e.node);
    ModeIsPlain(f.node);
    IdLength(h, e.node);
    IdLength(h, f.node);
    var restE, restF := Id(h, e.node) + x, Id(h, f.node) + y;
    DelimitedInjective(Mode(e.node), e.name + "\0" + restE, Mode(f.node), f.name + "\0" + restF, ' ');
    DelimitedInjective(e.name, restE, f.name, restF, '\0');
    assert Id(h, e.node) == restE[..20] && Id(h, f.node) == restF[..20];
    assert x == restE[20..] && y == restF[20..];
  }

  /** Equal bodies list equal entries, unless two hashed objects collide. */
  lemma {:induction false} EncodeInjective(h: Hash, a: Node, s: seq<Entry>, b: Node, t: seq<Entry>)
    requires TwentyBytes(h) && Sound(a) && Sound(b) && SlashFree(a) && SlashFree(b) && a.Folder? && b.Folder?
    requires forall e :: e in s ==> e.name in a.entries && a.entries[e.name] == e.node
    requires forall e :: e in t ==> e.name in b.entries && b.entries[e.name] == e.node
    requires Encode(h, a, s) == Encode(h, b, t)
    ensures s == t || Collide(h, a, b)
    decreases a, |s|
  {
    hide Collide, Id, Mode;
    if s != [] && t != [] {
      var e, f := s[0], t[0];
      assert e in s && f in t;
      assert [e][0] == e && [f][0] == f;
      FirstDecodes(h, e, Encode(h, a, s[1..]), f, Encode(h, b, t[1..]));
      SameNode(h, a, e, b, f);
      EncodeInjective(h, a, s[1..], b, t[1..]);
      assert s == [e] + s[1..] && t == [f] + t[1..];
    }
  }

  lemma SameNode(h: Hash, a: Node, e: Entry, b: Node, f: Entry)
    requires TwentyBytes(h) && Sound(a) && Sound(b) && SlashFree(a) && SlashFree(b) && a.Folder? && b.Folder?
    requires e.name in a.entries && a.entries[e.name] == e.node && f.name in b.entries && b.entries[f.name] == f.node
    requires Mode(e.node) == Mode(f.node) && Id(h, e.node) == Id(h, f.node)
    ensures e.node == f.node || Collide(h, a, b)
    decreases a, 0
  {
    ModeIsPlain(e.node);
    ModeIsPlain(f.node);
    if e.node.Folder? {
      IdInjective(h, e.node, f.node);
      if Collide(h, e.node, f.node) {
        var x, y :| Hashed(h, e.node, x) && Hashed(h, f.node, y) && x != y && h(x) == h(y);
        assert Hashed(h, a, x) && Hashed(h, b, y);
      }
    }
  }

  /** Equal ids: equal trees, or an explicit collision among the objects hashed. */
  lemma {:induction false} IdInjective(h: Hash, a: Node, b: Node)
    requires TwentyBytes(h) && Sound(a) && Sound(b) && SlashFree(a) && SlashFree(b) && a.Folder? && b.Folder?
    requires Id(h, a) == Id(h, b)
    ensures a == b || Collide(h, a, b)
    decreases a, |Listing(a)| + 1
  {
    var s, t := Listing(a), Listing(b);
    var x, y := Object(h, a), Object(h, b);
    assert Hashed(h, a, x) && Hashed(h, b, y);
    if x == y {
      FramedInjective("tree", Encode(h, a, s), Encode(h, b, t));
      EncodeInjective(h, a, s, b, t);
      if s == t {
        SameListing(a, b, s);
      }
    }
  }

  lemma SameListing(a: Node, b: Node, s: seq<Entry>)
    requires a.Folder? && b.Folder? && IsListing(a, s) && IsListing(b, s)
    ensures a == b
  {
    forall name ensures (name in a.entries <==> name in b.entries) {
      if name in a.entries { assert Entry(name, a.entries[name]) in s; }
      if name in b.entries { assert Entry(name, b.entries[name]) in s; }
    }
    forall name | name in a.entries ensures a.entries[name] == b.entries[name] {
      assert Entry(name, a.entries[name]) in s;
    }
    assert a.entries == b.entries;
  }

  // ----- Computing the id -----

  method Items(node: Node) returns (items: seq<Entry>)
    requires node.Folder?
    ensures forall e :: e in items <==> e.name in node.entries && node.entries[e.name] == e.node
    ensures forall i, j :: 0 <= i < j < |items| ==> items[i].name != items[j].name
  {
    items := [];
    var pending := node.entries.Keys;
    while pending != {}
      invariant pending <= node.entries.Keys
      invariant forall e :: e in items <==> e.name in node.entries && e.name !in pending && node.entries[e.name] == e.node
      invariant forall i, j :: 0 <= i < j < |items| ==> items[i].name != items[j].name
    {
      var name :| name in pending;
      assert forall i :: 0 <= i < |items| ==> items[i] in items;
      items := items + [Entry(name, node.entries[name])];
      pending := pending - {name};
    }
  }

  /** The recursive digest: sort the entries, encode them, hash the object. */
  method Digest(h: Hash, node: Node) returns (id: string)
    requires node.Folder? && SlashFree(node)
    ensures id == Id(h, node)
    decreases node
  {
    var items := Items(node);
    forall i, j | 0 <= i < j < |items| ensures Key(items[i]) != Key(items[j]) {
      assert items[i] in items && items[j] in items;
      if Key(items[i]) == Key(items[j]) { KeyInjective(items[i], items[j]); }
    }
    var sorted := SortBy(items, Key);
    ListingUnique(node, sorted);
    var encoded := EncodeSorted(h, node, sorted);
    id := h(Framed("tree", encoded));
  }

  method EncodeSorted(h: Hash, node: Node, sorted: seq<Entry>) returns (encoded: string)
    requires node.Folder? && SlashFree(node)
    requires forall e :: e in sorted ==> e.name in node.entries && node.entries[e.name] == e.node
    ensures encoded == Encode(h, node, sorted)
    decreases node, 0
  {
    encoded := "";
    for i := 0 to |sorted|
      invariant encoded + Encode(h, node, sorted[i..]) == Encode(h, node, sorted)
    {
      var e := sorted[i];
      assert sorted[i..][0] == e && sorted[i..][1..] == sorted[i + 1..] && e in sorted;
      var oid;
      if e.node.Folder? {
        oid := Digest(h, e.node);
      } else {
        oid := e.node.leaf.oid;
      }
      Regroup(encoded, Mode(e.node), e.name, oid, Encode(h, node, sorted[i + 1..]));
      encoded := encoded + Mode(e.node) + " " + e.name + "\0" + oid;
    }
    assert sorted[|sorted|..] == [];
  }

  lemma Regroup(a: string, mode: string, name: string, oid: string, rest: string)
    ensures a + (mode + " " + (name + "\0" + (oid + rest))) == (a + mode + " " + name + "\0" + oid) + rest
  {
  }
}
