/** The corpus manifest as text: one line per covered file, digest and name,
    what its parser reads back, and what a line break in a name does to both. */
module CorpusManifest {
  import opened Seqs

  type Hash = string -> string

  const MANIFEST := "SHA256SUMS"

  predicate IsHexDigit(c: char) { '0' <= c <= '9' || 'a' <= c <= 'f' }

  predicate IsDigest(s: string) { |s| == 64 && forall i :: 0 <= i < 64 ==> IsHexDigit(s[i]) }

  ghost predicate Sha256Like(h: Hash) { forall x :: IsDigest(h(x)) }

  predicate NameCharacter(c: char)
  {
    'A' <= c <= 'Z' || 'a' <= c <= 'z' || '0' <= c <= '9' || c in {'_', '.', '/', '+', '-'}
  }

  predicate GoodName(s: string) { s != [] && forall i :: 0 <= i < |s| ==> NameCharacter(s[i]) }

  // ----- Lines -----

  /** The characters `str.splitlines` breaks at. */
  predicate IsBreak(c: char)
  {
    var n := c as int;
    0x0A <= n <= 0x0D || 0x1C <= n <= 0x1E || n == 0x85 || n == 0x2028 || n == 0x2029
  }

  predicate Unbroken(s: string) { forall i :: 0 <= i < |s| ==> !IsBreak(s[i]) }

  function BreakAt(s: string): (n: nat)
    ensures n <= |s| && Unbroken(s[..n]) && (n < |s| ==> IsBreak(s[n]))
  {
    if s == [] || IsBreak(s[0]) then 0
    else
      var n := 1 + BreakAt(s[1..]);
      assert s[..n] == [s[0]] + s[1..][..n - 1];
      n
  }

  /** Where the line after the break at `n` starts; `\r\n` is one break. */
  function NextLine(s: string, n: nat): (next: nat)
    requires n < |s|
    ensures n < next <= |s|
  {
    if s[n] == '\r' && n + 1 < |s| && s[n + 1] == '\n' then n + 2 else n + 1
  }

  function SplitLines(s: string): (lines: seq<string>)
    decreases |s|
  {
    if s == [] then []
    else
      var n := BreakAt(s);
      if n == |s| then [s]
      else [s[..n]] + SplitLines(s[NextLine(s, n)..])
  }

  lemma {:induction false} BreakAfter(line: string, rest: string)
    requires Unbroken(line)
    ensures BreakAt(line + "\n" + rest) == |line|
  {
    var s := line + "\n" + rest;
    if line != [] {
      assert s[1..] == line[1..] + "\n" + rest;
      assert !IsBreak(line[0]);
      BreakAfter(line[1..], rest);
    }
  }

  lemma SplitFirst(line: string, rest: string)
    requires Unbroken(line)
    ensures SplitLines(line + "\n" + rest) == [line] + SplitLines(rest)
  {
    var s := line + "\n" + rest;
    BreakAfter(line, rest);
    assert s[..|line|] == line && s[|line|] == '\n' && s[|line| + 1..] == rest;
  }

  // ----- The manifest -----

  function Line(digest: string, name: string): string { digest + "  " + name }

  function Written(h: Hash, files: map<string, string>, names: seq<string>): (text: string)
    requires forall i :: 0 <= i < |names| ==> names[i] in files
  {
    if names == [] then [] else Line(h(files[names[0]]), names[0]) + "\n" + Written(h, files, names[1..])
  }

  function BaseName(path: string): string
  {
    var parts := Split(path, '/');
    parts[|parts| - 1]
  }

  /** The files a seal covers. */
  function Covered(files: map<string, string>): (names: set<string>)
    ensures names <= files.Keys
  {
    set n | n in files && BaseName(n) != MANIFEST
  }

  /** `text` is the manifest a seal of `files` writes. */
  ghost predicate IsManifest(h: Hash, files: map<string, string>, text: string)
  {
    exists names: seq<string> ::
      && Ascending(names, (n: string) => n)
      && (forall n :: n in names <==> n in Covered(files))
      && text == WrittenFor(h, files, names)
  }

  function WrittenFor(h: Hash, files: map<string, string>, names: seq<string>): string
  {
    if forall i :: 0 <= i < |names| ==> names[i] in files then Written(h, files, names) else ""
  }

  datatype Entry = Entry(digest: string, name: string)

  function Parse(line: string): (entry: Option<Entry>)
  {
    if |line| > 66 && IsDigest(line[..64]) && line[64..66] == "  " && GoodName(line[66..])
    then Some(Entry(line[..64], line[66..])) else None
  }

  function EntriesOf(lines: seq<string>): (entries: Option<map<string, string>>)
  {
    if lines == [] then Some(map[])
    else
      var before, entry := EntriesOf(lines[..|lines| - 1]), Parse(lines[|lines| - 1]);
      if before.None? || entry.None? || entry.value.name in before.value then None
      else Some(before.value[entry.value.name := entry.value.digest])
  }

  function Entries(text: string): (entries: Option<map<string, string>>) { EntriesOf(SplitLines(text)) }

  method ManifestEntries(text: string) returns (entries: Option<map<string, string>>)
    ensures entries == Entries(text)
  {
    var lines := SplitLines(text);
    var expected: map<string, string> := map[];
    for i := 0 to |lines|
      invariant EntriesOf(lines[..i]) == Some(expected)
    {
      assert lines[..i + 1][..i] == lines[..i];
      EntriesFail(lines, i + 1);
      var entry := Parse(lines[i]);
      if entry.None? || entry.value.name in expected { return None; }
      expected := expected[entry.value.name := entry.value.digest];
    }
    assert lines[..|lines|] == lines;
    entries := Some(expected);
  }

  lemma {:induction false} EntriesFail(lines: seq<string>, k: nat)
    requires k <= |lines|
    ensures EntriesOf(lines[..k]).None? ==> EntriesOf(lines).None?
    decreases |lines|
  {
    if k == |lines| {
      assert lines[..k] == lines;
    } else {
      assert lines[..|lines| - 1][..k] == lines[..k];
      EntriesFail(lines[..|lines| - 1], k);
    }
  }

  // ----- What a manifest lists -----

  /** `text` gives `name` the digest `digest` on a line of its own. */
  ghost predicate Gives(text: string, name: string, digest: string)
  {
    IsDigest(digest) && Line(digest, name) in SplitLines(text)
  }

  ghost predicate UnbrokenNames(files: map<string, string>)
  {
    forall n :: n in Covered(files) ==> Unbroken(n)
  }

  function LinesFor(h: Hash, files: map<string, string>, names: seq<string>): (lines: seq<string>)
    requires forall i :: 0 <= i < |names| ==> names[i] in files
    ensures |lines| == |names|
    ensures forall i :: 0 <= i < |names| ==> lines[i] == Line(h(files[names[i]]), names[i])
  {
    if names == [] then [] else [Line(h(files[names[0]]), names[0])] + LinesFor(h, files, names[1..])
  }

  lemma DigestUnbroken(digest: string, name: string)
    requires IsDigest(digest) && Unbroken(name)
    ensures Unbroken(Line(digest, name))
  {
    var line := Line(digest, name);
    forall i | 0 <= i < |line| ensures !IsBreak(line[i]) {
      if i < 64 { assert line[i] == digest[i]; }
      else if i >= 66 { assert line[i] == name[i - 66]; }
    }
  }

  /** Each covered file stands on its own line of the manifest. */
  lemma {:induction false} WrittenLines(h: Hash, files: map<string, string>, names: seq<string>)
    requires Sha256Like(h) && forall i :: 0 <= i < |names| ==> names[i] in files && Unbroken(names[i])
    ensures SplitLines(Written(h, files, names)) == LinesFor(h, files, names)
  {
    if names != [] {
      WrittenLines(h, files, names[1..]);
      assert IsDigest(h(files[names[0]]));
      DigestUnbroken(h(files[names[0]]), names[0]);
      SplitFirst(Line(h(files[names[0]]), names[0]), Written(h, files, names[1..]));
    }
  }

  lemma LineInjective(d: string, n: string, e: string, m: string)
    requires |d| == 64 && |e| == 64 && Line(d, n) == Line(e, m)
    ensures d == e && n == m
  {
    assert d == Line(d, n)[..64] && e == Line(e, m)[..64];
    assert n == Line(d, n)[66..] && m == Line(e, m)[66..];
  }

  /** A manifest written from names without line breaks gives each covered file
      its digest, and gives nothing else. */
  lemma ManifestGives(h: Hash, files: map<string, string>, text: string, name: string, digest: string)
    requires Sha256Like(h) && IsManifest(h, files, text) && UnbrokenNames(files)
    ensures Gives(text, name, digest) <==> name in Covered(files) && digest == h(files[name])
  {
    var names: seq<string> :|
      && Ascending(names, (n: string) => n)
      && (forall n :: n in names <==> n in Covered(files))
      && text == WrittenFor(h, files, names);
    NamesInFiles(files, names);
    WrittenLines(h, files, names);
    hide Covered, Written, SplitLines;
    var lines := LinesFor(h, files, names);
    if Gives(text, name, digest) {
      var i :| 0 <= i < |lines| && lines[i] == Line(digest, name);
      assert IsDigest(h(files[names[i]]));
      LineInjective(digest, name, h(files[names[i]]), names[i]);
      assert names[i] in names;
    }
    if name in Covered(files) && digest == h(files[name]) {
      assert name in names;
      var i :| 0 <= i < |names| && names[i] == name;
      assert lines[i] == Line(digest, name);
    }
  }

  lemma NamesInFiles(files: map<string, string>, names: seq<string>)
    requires UnbrokenNames(files) && forall n :: n in names <==> n in Covered(files)
    ensures forall i :: 0 <= i < |names| ==> names[i] in files && Unbroken(names[i])
  {
    forall i | 0 <= i < |names| ensures names[i] in files && Unbroken(names[i]) {
      assert names[i] in names;
    }
  }

  // ----- A name without a line break keeps its line -----

  lemma FirstLine(s: string)
    requires BreakAt(s) < |s|
    ensures SplitLines(s) == [s[..BreakAt(s)]] + SplitLines(s[NextLine(s, BreakAt(s))..])
  {
  }

  /** Text written before a line leaves the lines after it as they are. */
  lemma {:induction false} LaterLines(a: string, rest: string, line: string)
    requires line in SplitLines(rest)
    ensures line in SplitLines(a + "\n" + rest)
    decreases |a|
  {
    hide SplitLines, IsBreak;
    if Unbroken(a) {
      SplitFirst(a, rest);
    } else {
      hide Unbroken, BreakAt;
      var s := a + "\n" + rest;
      BreakInside(a, rest);
      var next := NextLine(s, BreakAt(s));
      FirstLine(s);
      if next <= |a| {
        assert s[next..] == a[next..] + "\n" + rest;
        LaterLines(a[next..], rest, line);
      } else {
        assert s[next..] == rest;
      }
    }
  }

  lemma {:induction false} BreakInside(a: string, rest: string)
    requires !Unbroken(a)
    ensures BreakAt(a + "\n" + rest) < |a|
  {
    var s := a + "\n" + rest;
    if !IsBreak(a[0]) {
      assert s[1..] == a[1..] + "\n" + rest;
      assert !Unbroken(a[1..]) by { var i :| 0 <= i < |a| && IsBreak(a[i]); assert a[1..][i - 1] == a[i]; }
      BreakInside(a[1..], rest);
    }
  }

  /** Whatever the other names hold, a name without a line break has its own line. */
  lemma {:induction false} OwnLine(h: Hash, files: map<string, string>, names: seq<string>, i: nat)
    requires Sha256Like(h) && (forall k :: 0 <= k < |names| ==> names[k] in files)
    requires i < |names| && Unbroken(names[i])
    ensures Line(h(files[names[i]]), names[i]) in SplitLines(Written(h, files, names))
  {
    hide SplitLines, Line, IsDigest;
    var first, rest := Line(h(files[names[0]]), names[0]), Written(h, files, names[1..]);
    if i == 0 {
      DigestUnbroken(h(files[names[0]]), names[0]);
      SplitFirst(first, rest);
    } else {
      assert names[1..][i - 1] == names[i];
      OwnLine(h, files, names[1..], i - 1);
      LaterLines(first, rest, Line(h(files[names[i]]), names[i]));
    }
  }

  lemma CoveredGives(h: Hash, files: map<string, string>, text: string, name: string)
    requires Sha256Like(h) && IsManifest(h, files, text) && name in Covered(files) && Unbroken(name)
    ensures Gives(text, name, h(files[name]))
  {
    var names: seq<string> :|
      && Ascending(names, (n: string) => n)
      && (forall n :: n in names <==> n in Covered(files))
      && text == WrittenFor(h, files, names);
    assert forall i :: 0 <= i < |names| ==> names[i] in names;
    hide SplitLines, Covered, Ascending;
    assert name in names;
    var i :| 0 <= i < |names| && names[i] == name;
    OwnLine(h, files, names, i);
  }

  // ----- Parsing what was written -----

  lemma ParseLine(line: string, name: string, digest: string)
    ensures Parse(line) == Some(Entry(digest, name)) <==> line == Line(digest, name) && IsDigest(digest) && GoodName(name)
  {
    if line == Line(digest, name) && IsDigest(digest) && GoodName(name) {
      assert line[..64] == digest && line[64..66] == "  " && line[66..] == name;
    }
    if Parse(line) == Some(Entry(digest, name)) {
      assert line == line[..64] + line[64..66] + line[66..];
    }
  }

  predicate Binds(m: map<string, string>, name: string, digest: string) { name in m && m[name] == digest }

  /** A parsed manifest holds exactly what its lines give. */
  lemma {:induction false} ParsedLines(lines: seq<string>, m: map<string, string>, name: string, digest: string)
    requires EntriesOf(lines) == Some(m)
    ensures Binds(m, name, digest) <==> IsDigest(digest) && Line(digest, name) in lines
  {
    hide IsDigest, GoodName;
    if lines != [] {
      var before, last := lines[..|lines| - 1], lines[|lines| - 1];
      var m0, entry := EntriesOf(before).value, Parse(last).value;
      ParsedLines(before, m0, name, digest);
      ParseLine(last, entry.name, entry.digest);
      assert lines == before + [last];
      if Line(digest, name) == last && IsDigest(digest) {
        DigestLength(digest);
        DigestLength(entry.digest);
        LineInjective(digest, name, entry.digest, entry.name);
      }
    }
  }

  lemma DigestLength(digest: string)
    requires IsDigest(digest)
    ensures |digest| == 64
  {
  }

  lemma ParsedGives(text: string, m: map<string, string>, name: string, digest: string)
    requires Entries(text) == Some(m)
    ensures Binds(m, name, digest) <==> Gives(text, name, digest)
  {
    ParsedLines(SplitLines(text), m, name, digest);
  }

  lemma LinesSnoc(h: Hash, files: map<string, string>, names: seq<string>)
    requires names != [] && forall i :: 0 <= i < |names| ==> names[i] in files
    ensures var lines, last := LinesFor(h, files, names), names[|names| - 1];
            && lines[..|lines| - 1] == LinesFor(h, files, names[..|names| - 1])
            && lines[|lines| - 1] == Line(h(files[last]), last)
  {
  }

  lemma {:induction false} GoodLinesParse(h: Hash, files: map<string, string>, names: seq<string>)
    requires Sha256Like(h) && forall i :: 0 <= i < |names| ==> names[i] in files && GoodName(names[i])
    requires forall i, j :: 0 <= i < j < |names| ==> names[i] != names[j]
    ensures EntriesOf(LinesFor(h, files, names)).Some?
    decreases |names|
  {
    hide IsDigest, GoodName, Parse, LinesFor;
    if names != [] {
      var before, last := names[..|names| - 1], names[|names| - 1];
      GoodLinesParse(h, files, before);
      LinesSnoc(h, files, names);
      ParseLine(Line(h(files[last]), last), last, h(files[last]));
      var m := EntriesOf(LinesFor(h, files, before)).value;
      if last in m { LastRepeats(h, files, before, last, m); }
    }
  }

  lemma LastRepeats(h: Hash, files: map<string, string>, before: seq<string>, last: string, m: map<string, string>)
    requires Sha256Like(h) && forall i :: 0 <= i < |before| ==> before[i] in files
    requires EntriesOf(LinesFor(h, files, before)) == Some(m) && last in m
    ensures last in before
  {
    var lines := LinesFor(h, files, before);
    ParsedLines(lines, m, last, m[last]);
    var i :| 0 <= i < |lines| && lines[i] == Line(m[last], last);
    assert IsDigest(h(files[before[i]]));
    LineInjective(m[last], last, h(files[before[i]]), before[i]);
  }

  lemma AscendingDistinct(names: seq<string>)
    requires Ascending(names, (n: string) => n)
    ensures forall i, j :: 0 <= i < j < |names| ==> names[i] != names[j]
  {
    var key := (n: string) => n;
    forall i, j | 0 <= i < j < |names| ensures names[i] != names[j] {
      assert Less(key(names[i]), key(names[j]));
      LessTotal(names[i], names[i]);
    }
  }

  lemma GoodIsUnbroken(name: string)
    requires GoodName(name)
    ensures Unbroken(name)
  {
    forall i | 0 <= i < |name| ensures !IsBreak(name[i]) { assert NameCharacter(name[i]); }
  }

  lemma {:induction false} EntriesAreGood(lines: seq<string>)
    requires EntriesOf(lines).Some?
    ensures forall n :: n in EntriesOf(lines).value ==> GoodName(n)
  {
    if lines != [] {
      EntriesAreGood(lines[..|lines| - 1]);
      hide GoodName;
      ParseGood(lines[|lines| - 1]);
    }
  }

  lemma ParseGood(line: string)
    ensures Parse(line).Some? ==> GoodName(Parse(line).value.name)
  {
  }

  function Digests(h: Hash, files: map<string, string>): map<string, string>
  {
    map n | n in Covered(files) :: h(files[n])
  }

  lemma GoodNamesParse(h: Hash, files: map<string, string>, text: string)
    requires Sha256Like(h) && IsManifest(h, files, text) && forall n :: n in Covered(files) ==> GoodName(n)
    ensures Entries(text) == Some(Digests(h, files))
  {
    forall n | n in Covered(files) ensures Unbroken(n) { GoodIsUnbroken(n); }
    var names: seq<string> :|
      && Ascending(names, (n: string) => n)
      && (forall n :: n in names <==> n in Covered(files))
      && text == WrittenFor(h, files, names);
    NamesInFiles(files, names);
    AscendingDistinct(names);
    WrittenLines(h, files, names);
    hide Covered, SplitLines, GoodName;
    assert forall i :: 0 <= i < |names| ==> names[i] in names;
    GoodLinesParse(h, files, names);
    var m := Entries(text).value;
    forall n, d ensures Binds(m, n, d) <==> n in Covered(files) && d == h(files[n]) {
      ParsedGives(text, m, n, d);
      ManifestGives(h, files, text, n, d);
    }
    SameMap(h, files, m);
  }

  /** The manifest just written parses back to the digests of the covered files
      exactly when every covered name is in the accepted class. */
  lemma ManifestRoundTrip(h: Hash, files: map<string, string>, text: string)
    requires Sha256Like(h) && IsManifest(h, files, text)
    ensures Entries(text) == Some(Digests(h, files)) <==> forall n :: n in Covered(files) ==> GoodName(n)
  {
    hide GoodName, IsManifest, Covered;
    if Entries(text) == Some(Digests(h, files)) { EntriesAreGood(SplitLines(text)); }
    if forall n :: n in Covered(files) ==> GoodName(n) { GoodNamesParse(h, files, text); }
  }

  lemma SameMap(h: Hash, files: map<string, string>, m: map<string, string>)
    requires forall n, d :: Binds(m, n, d) <==> n in Covered(files) && d == h(files[n])
    ensures m == Digests(h, files)
  {
    hide Covered;
    forall n | n in m ensures n in Covered(files) && m[n] == h(files[n]) { assert Binds(m, n, m[n]); }
    forall n | n in Covered(files) ensures n in m { assert Binds(m, n, h(files[n])); }
  }

  /** The accepted class, letter by letter. */
  lemma AcceptedClass(name: string)
    ensures GoodName(name) <==>
            name != [] && forall i :: 0 <= i < |name| ==>
              name[i] in CAPITALS || name[i] in SMALL_LETTERS || name[i] in DECIMAL_DIGITS || name[i] in "_./+-"
  {
    forall i | 0 <= i < |name|
      ensures NameCharacter(name[i]) <==>
              name[i] in CAPITALS || name[i] in SMALL_LETTERS || name[i] in DECIMAL_DIGITS || name[i] in "_./+-"
    {
      CapitalsAre(name[i]);
      SmallLettersAre(name[i]);
      DigitsAre(name[i]);
      MarksAre(name[i]);
    }
  }

  lemma MarksAre(c: char)
    ensures c in {'_', '.', '/', '+', '-'} <==> c in "_./+-"
  {
    var marks := "_./+-";
    assert marks[0] == '_' && marks[1] == '.' && marks[2] == '/' && marks[3] == '+' && marks[4] == '-';
  }

  /** A digest is 64 of the digits `0` to `9` and `a` to `f`. */
  lemma DigestMeans(s: string)
    ensures IsDigest(s) <==> |s| == 64 && forall i :: 0 <= i < 64 ==> s[i] in DECIMAL_DIGITS || s[i] in "abcdef"
  {
    forall i | 0 <= i < |s| ensures IsHexDigit(s[i]) <==> s[i] in DECIMAL_DIGITS || s[i] in "abcdef" {
      DigitsAre(s[i]);
      HexLettersAre(s[i]);
    }
  }

  lemma HexLettersAre(c: char)
    ensures 'a' <= c <= 'f' <==> c in "abcdef"
  {
    if 'a' <= c <= 'f' { assert "abcdef"[(c - 'a') as nat] == c; }
  }

  // ----- What the lines of a text are -----

  /** The characters a line ends at. */
  lemma BreaksAre(c: char)
    ensures IsBreak(c) <==>
            c as int in {0x0A, 0x0B, 0x0C, 0x0D, 0x1C, 0x1D, 0x1E, 0x85, 0x2028, 0x2029}
  {
  }

  /** A text without a break is one line, and the empty text none. */
  lemma OneLine(s: string)
    requires Unbroken(s)
    ensures SplitLines(s) == if s == [] then [] else [s]
  {
  }

  lemma {:induction false} BreakFound(line: string, rest: string)
    requires Unbroken(line) && rest != [] && IsBreak(rest[0])
    ensures BreakAt(line + rest) == |line|
  {
    var s := line + rest;
    if line == [] {
      assert s == rest;
    } else {
      assert s[1..] == line[1..] + rest && !IsBreak(line[0]);
      BreakFound(line[1..], rest);
    }
  }

  /** A line ends at any break, and `\r\n` is one break. */
  lemma LineEnds(line: string, end: string, rest: string)
    requires Unbroken(line)
    requires end == "\r\n" || (|end| == 1 && IsBreak(end[0]) && !(end == "\r" && rest != [] && rest[0] == '\n'))
    ensures SplitLines(line + end + rest) == [line] + SplitLines(rest)
  {
    var s := line + end + rest;
    assert s == line + (end + rest);
    BreakFound(line, end + rest);
    assert s[..|line|] == line && s[|line|..] == end + rest && s[|line| + |end|..] == rest;
    hide BreakAt, Unbroken;
    assert NextLine(s, |line|) == |line| + |end|;
    FirstLine(s);
  }

  // ----- A name that reads as two lines -----

  lemma OneNamed(h: Hash, name: string, x: string, y: string)
    requires Sha256Like(h) && name == "x\n" + Line(h(y), "y")
    ensures IsManifest(h, map[name := x], Line(h(x), name) + "\n") && Covered(map[name := x]) == {name}
  {
    var tree, names := map[name := x], [name];
    NoSlashBase(h(y));
    hide BaseName, Line, Less;
    assert names[1..] == [] && Written(h, tree, []) == "";
    assert Written(h, tree, names) == Line(h(x), name) + "\n" + Written(h, tree, names[1..]);
    assert Ascending(names, (n: string) => n);
    assert WrittenFor(h, tree, names) == Line(h(x), name) + "\n";
  }

  /** The one line of the broken name reads as the lines of two plain files. */
  lemma TwoLines(dx: string, dy: string)
    requires IsDigest(dx) && IsDigest(dy)
    ensures SplitLines(Line(dx, "x") + "\n" + (Line(dy, "y") + "\n" + "")) == [Line(dx, "x"), Line(dy, "y")]
  {
    DigestUnbroken(dx, "x");
    DigestUnbroken(dy, "y");
    var first, second := Line(dx, "x"), Line(dy, "y");
    hide Line, IsDigest;
    SplitFirst(first, second + "\n" + "");
    SplitFirst(second, "");
  }

  lemma TwoEntries(dx: string, dy: string, text: string)
    requires IsDigest(dx) && IsDigest(dy) && SplitLines(text) == [Line(dx, "x"), Line(dy, "y")]
    ensures Entries(text) == Some(map["x" := dx, "y" := dy])
  {
    var first, second := Line(dx, "x"), Line(dy, "y");
    ParseLine(first, "x", dx);
    ParseLine(second, "y", dy);
    hide Line, IsDigest, Parse, SplitLines;
    assert [first, second][..1] == [first] && [first][..0] == [];
    assert EntriesOf([first]) == Some(map["x" := dx]);
  }

  /** One file's manifest that parses as the manifest of two others. */
  lemma BrokenText(h: Hash, x: string, y: string) returns (text: string)
    requires Sha256Like(h)
    ensures var name := "x\n" + Line(h(y), "y");
            && IsManifest(h, map[name := x], text) && Covered(map[name := x]) == {name}
            && Entries(text) == Some(map["x" := h(x), "y" := h(y)])
            && !Unbroken(name) && '/' !in name && |name| > 2
  {
    var name := "x\n" + Line(h(y), "y");
    text := Line(h(x), name) + "\n";
    assert IsBreak(name[1]);
    assert |name| > 2;
    OneNamed(h, name, x, y);
    NoSlashBase(h(y));
    hide IsManifest, Entries, Covered, SplitLines, IsDigest, BaseName;
    TwoLines(h(x), h(y));
    assert text == Line(h(x), "x") + "\n" + (Line(h(y), "y") + "\n" + "");
    TwoEntries(h(x), h(y), text);
  }

  lemma NoSlashBase(digest: string)
    requires IsDigest(digest)
    ensures BaseName("x\n" + Line(digest, "y")) == "x\n" + Line(digest, "y")
    ensures "x\n" + Line(digest, "y") != MANIFEST && '/' !in "x\n" + Line(digest, "y")
  {
    var name := "x\n" + Line(digest, "y");
    forall i | 0 <= i < |name| ensures name[i] != '/' {
      if 2 <= i < 66 { assert name[i] == digest[i - 2]; }
    }
    SplitPrepend(name, "", '/');
    assert |name| != |MANIFEST|;
  }
}
