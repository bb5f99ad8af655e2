/** The artifact pattern matcher: the dialect its documentation defines, the
    table-and-backtracking evaluation the agent runs against it, and the
    matching budget every evaluation is charged to. */
module Glob {
  import opened Seqs

  // ----- The documented dialect -----

  /** Within a segment `*` stands for any run of characters and `?` for one. */
  ghost predicate Wild(pattern: string, name: string)
  {
    if pattern == [] then name == []
    else if pattern[0] == '*' then
      exists k :: 0 <= k <= |name| && Wild(pattern[1..], name[k..])
    else
      && name != []
      && (pattern[0] == '?' || pattern[0] == name[0])
      && Wild(pattern[1..], name[1..])
  }

  /** Across segments `**` stands for zero or more whole segments. */
  ghost predicate Dialect(pattern: seq<string>, path: seq<string>)
  {
    if pattern == [] then path == []
    else if pattern[0] == "**" then
      exists k :: 0 <= k <= |path| && Dialect(pattern[1..], path[k..])
    else
      path != [] && Wild(pattern[0], path[0]) && Dialect(pattern[1..], path[1..])
  }

  // ----- The matcher as functions: what it answers and what it charges -----

  datatype Segment = Recursive | Literal(text: string)

  /** An answer and the number of charges made to reach it. */
  datatype Run = Run(matched: bool, steps: nat)

  function Charged(run: Run): (r: Run) { run.(steps := run.steps + 1) }

  /** The trailing `*`s, one charge each. */
  function ScanTail(pattern: string, p: nat): (run: Run)
    requires p <= |pattern|
    decreases |pattern| - p
  {
    if p < |pattern| && pattern[p] == '*' then Charged(ScanTail(pattern, p + 1))
    else Run(p == |pattern|, 0)
  }

  /** The backtracking scan from `(p, n)`, with the last `*` met and where the
      name stood when it was met. A literal comparison is tried before `*`. */
  function Scan(pattern: string, name: string, p: nat, n: nat, star: Option<(nat, nat)>): (run: Run)
    requires p <= |pattern| && n <= |name|
    requires star.Some? ==> star.value.0 < p && star.value.1 <= n
    decreases if star.Some? then |name| - star.value.1 else |name| + 1, |pattern| - p
  {
    if n == |name| then ScanTail(pattern, p)
    else if p < |pattern| && (pattern[p] == '?' || pattern[p] == name[n]) then
      Charged(Scan(pattern, name, p + 1, n + 1, star))
    else if p < |pattern| && pattern[p] == '*' then
      Charged(Scan(pattern, name, p + 1, n, Some((p, n))))
    else match star
      case Some(at) => Charged(Scan(pattern, name, at.0 + 1, at.1 + 1, Some((at.0, at.1 + 1))))
      case None => Run(false, 1)
  }

  /** Reading the name costs one charge a character, then the scan. */
  function SegmentRun(pattern: string, name: string): (run: Run)
  {
    var scan := Scan(pattern, name, 0, 0, None);
    Run(scan.matched, |name| + scan.steps)
  }

  predicate SegmentOk(pattern: string, name: string) { SegmentRun(pattern, name).matched }

  /** What the table holds for the pattern's tail against the path's tail; with
      `descent`, whether the path runs out while pattern is left. */
  predicate Reaches(pattern: seq<Segment>, path: seq<string>, descent: bool)
    decreases |pattern| + |path|
  {
    if pattern == [] then !descent && path == []
    else if descent && path == [] then true
    else match pattern[0]
      case Recursive =>
        || Reaches(pattern[1..], path, descent)
        || (path != [] && Reaches(pattern, path[1..], descent))
      case Literal(text) =>
        && path != []
        && Reaches(pattern[1..], path[1..], descent)
        && SegmentOk(text, path[0])
  }

  /** The charges for one row of the table, from the path's tail on. */
  function RowCost(pattern: seq<Segment>, path: seq<string>, descent: bool): (cost: nat)
    requires pattern != []
    decreases |path|
  {
    if path == [] then 1
    else
      var token :=
        if pattern[0].Literal? && Reaches(pattern[1..], path[1..], descent)
        then SegmentRun(pattern[0].text, path[0]).steps else 0;
      1 + token + RowCost(pattern, path[1..], descent)
  }

  function TableCost(pattern: seq<Segment>, path: seq<string>, descent: bool): (cost: nat)
  {
    if pattern == [] then |path| + 1
    else TableCost(pattern[1..], path, descent) + RowCost(pattern, path, descent)
  }

  /** Consecutive `**` segments are compiled to one. */
  function Compile(pattern: seq<string>): (compiled: seq<Segment>)
  {
    if pattern == [] then []
    else
      var rest := Compile(pattern[1..]);
      if pattern[0] != "**" then [Literal(pattern[0])] + rest
      else if rest != [] && rest[0].Recursive? then rest
      else [Recursive] + rest
  }

  datatype Declaration = Declaration(name: string, patterns: seq<seq<Segment>>)

  predicate MatchesAny(patterns: seq<seq<Segment>>, path: seq<string>, descent: bool)
  {
    exists i :: 0 <= i < |patterns| && Reaches(patterns[i], path, descent)
  }

  /** The declarations a path belongs to, in declaration order. */
  function Matched(declarations: seq<Declaration>, path: seq<string>): (names: seq<string>)
  {
    if declarations == [] then []
    else
      var last := declarations[|declarations| - 1];
      Matched(declarations[..|declarations| - 1], path) +
      (if MatchesAny(last.patterns, path, false) then [last.name] else [])
  }

  predicate Descends(declarations: seq<Declaration>, path: seq<string>)
  {
    exists i :: 0 <= i < |declarations| && MatchesAny(declarations[i].patterns, path, true)
  }

  /** The charges for the first patterns of a declaration: matching stops at the
      first hit, descent at the first hit of any declaration. */
  function PatternsCost(patterns: seq<seq<Segment>>, path: seq<string>, descends: bool): (cost: nat)
  {
    if patterns == [] then 0
    else
      var before, last := patterns[..|patterns| - 1], patterns[|patterns| - 1];
      PatternsCost(before, path, descends) +
      (if MatchesAny(before, path, false) then 0 else TableCost(last, path, false)) +
      (if descends || MatchesAny(before, path, true) then 0 else TableCost(last, path, true))
  }

  function ClassifyCost(declarations: seq<Declaration>, path: seq<string>): (cost: nat)
  {
    if declarations == [] then 0
    else
      var before, last := declarations[..|declarations| - 1], declarations[|declarations| - 1];
      ClassifyCost(before, path) + PatternsCost(last.patterns, path, Descends(before, path))
  }

  // ----- One segment: the scan against the dialect -----

  lemma WildStar(rest: string, name: string)
    ensures Wild("*" + rest, name) <==>
            Wild(rest, name) || (name != [] && Wild("*" + rest, name[1..]))
  {
    var pattern := "*" + rest;
    assert pattern[1..] == rest;
    if Wild(pattern, name) {
      var k :| 0 <= k <= |name| && Wild(rest, name[k..]);
      if k == 0 {
        assert name[0..] == name;
      } else {
        assert name[1..][k - 1..] == name[k..];
      }
    }
    if Wild(rest, name) { assert name[0..] == name; }
    if name != [] && Wild(pattern, name[1..]) {
      var k :| 0 <= k <= |name[1..]| && Wild(rest, name[1..][k..]);
      assert name[1..][k..] == name[k + 1..];
    }
  }

  lemma StarStart(rest: string, name: string) returns (k: nat)
    requires Wild("*" + rest, name)
    ensures k <= |name| && Wild(rest, name[k..])
  {
    assert ("*" + rest)[1..] == rest;
    k :| 0 <= k <= |name| && Wild(rest, name[k..]);
  }

  /** A `*` may swallow any prefix. */
  lemma WildSwallow(rest: string, name: string, k: nat)
    requires k <= |name| && Wild("*" + rest, name[k..])
    ensures Wild("*" + rest, name)
  {
    var j := StarStart(rest, name[k..]);
    assert ("*" + rest)[1..] == rest;
    assert name[k..][j..] == name[k + j..];
  }

  /** A stretch of pattern without `*` consumes exactly its own length. */
  lemma {:induction false} WildStretch(stretch: string, rest: string, name: string)
    requires '*' !in stretch && Wild(stretch + rest, name)
    ensures |stretch| <= |name| && Wild(rest, name[|stretch|..])
  {
    if stretch == [] {
      assert stretch + rest == rest;
      assert name[0..] == name;
    } else {
      assert (stretch + rest)[1..] == stretch[1..] + rest;
      WildStretch(stretch[1..], rest, name[1..]);
      assert name[1..][|stretch| - 1..] == name[|stretch|..];
    }
  }

  lemma {:induction false} TailIsWild(pattern: string, p: nat)
    requires p <= |pattern|
    ensures ScanTail(pattern, p).matched == Wild(pattern[p..], [])
    decreases |pattern| - p
  {
    if p < |pattern| && pattern[p] == '*' {
      TailIsWild(pattern, p + 1);
      assert pattern[p..] == "*" + pattern[p + 1..];
      WildStar(pattern[p + 1..], []);
    }
  }

  /** Whatever the scan accepts from a state, the dialect accepts from the
      current position or from the remembered `*`. */
  lemma {:induction false} ScanSound(pattern: string, name: string, p: nat, n: nat, star: Option<(nat, nat)>)
    requires p <= |pattern| && n <= |name|
    requires star.Some? ==> star.value.0 < p && star.value.1 <= n && pattern[star.value.0] == '*'
    requires Scan(pattern, name, p, n, star).matched
    ensures Wild(pattern[p..], name[n..]) ||
            (star.Some? && Wild(pattern[star.value.0..], name[star.value.1..]))
    decreases if star.Some? then |name| - star.value.1 else |name| + 1, |pattern| - p
  {
    if n == |name| {
      TailIsWild(pattern, p);
      assert name[n..] == [];
    } else if p < |pattern| && (pattern[p] == '?' || pattern[p] == name[n]) {
      ScanSound(pattern, name, p + 1, n + 1, star);
      assert pattern[p..][1..] == pattern[p + 1..] && name[n..][1..] == name[n + 1..];
      if pattern[p] == '*' && Wild(pattern[p + 1..], name[n + 1..]) {
        assert name[n..][1..] == name[n + 1..];
      }
    } else if p < |pattern| && pattern[p] == '*' {
      ScanSound(pattern, name, p + 1, n, Some((p, n)));
      assert pattern[p..] == "*" + pattern[p + 1..];
      WildStar(pattern[p + 1..], name[n..]);
    } else {
      var (sp, sn) := star.value;
      ScanSound(pattern, name, sp + 1, sn + 1, Some((sp, sn + 1)));
      assert pattern[sp..] == "*" + pattern[sp + 1..] && name[sn..][1..] == name[sn + 1..];
      WildStar(pattern[sp + 1..], name[sn + 1..]);
      WildStar(pattern[sp + 1..], name[sn..]);
    }
  }

  /** Between the remembered `*` and the current position lies a stretch
      without `*` that has matched so far. */
  ghost predicate OnTrack(pattern: string, name: string, p: nat, n: nat, star: Option<(nat, nat)>)
  {
    && p <= |pattern| && n <= |name|
    && (star.Some? ==>
          var (sp, sn) := star.value;
          && sp < p && pattern[sp] == '*' && '*' !in pattern[sp + 1..p]
          && sn <= n && n - sn == p - sp - 1
          && (Wild(pattern[sp + 1..], name[sn..]) <==> Wild(pattern[p..], name[n..])))
  }

  /** What remains to be decided: the current position, or the `*` moved on. */
  ghost predicate Hope(pattern: string, name: string, p: nat, n: nat, star: Option<(nat, nat)>)
    requires OnTrack(pattern, name, p, n, star)
  {
    if star.Some? then Wild(pattern[star.value.0..], name[star.value.1..])
    else Wild(pattern[p..], name[n..])
  }

  lemma HopeAtEnd(pattern: string, name: string, p: nat, star: Option<(nat, nat)>)
    requires OnTrack(pattern, name, p, |name|, star)
    ensures Hope(pattern, name, p, |name|, star) == Wild(pattern[p..], [])
  {
    assert name[|name|..] == [];
    if star.Some? {
      var (sp, sn) := star.value;
      assert pattern[sp..] == "*" + pattern[sp + 1..];
      WildStar(pattern[sp + 1..], name[sn..]);
      if sn < |name| && Wild(pattern[sp..], name[sn..][1..]) {
        assert pattern[sp..][1..] == pattern[sp + 1..];
        var k :| 0 <= k <= |name[sn..][1..]| && Wild(pattern[sp + 1..], name[sn..][1..][k..]);
        assert pattern[sp + 1..] == pattern[sp + 1..p] + pattern[p..];
        WildStretch(pattern[sp + 1..p], pattern[p..], name[sn..][1..][k..]);
        assert false;
      }
    }
  }

  /** A later start of the remembered `*` is a later start of the next one. */
  lemma StarSuperseded(pattern: string, name: string, sp: nat, p: nat, k: nat)
    requires sp < p < |pattern| && pattern[p] == '*' && '*' !in pattern[sp + 1..p]
    requires p - sp - 1 <= |name| && k <= |name| && Wild(pattern[sp + 1..], name[k..])
    ensures Wild(pattern[p..], name[p - sp - 1..])
  {
    var stretch := pattern[sp + 1..p];
    assert pattern[sp + 1..] == stretch + pattern[p..];
    WildStretch(stretch, pattern[p..], name[k..]);
    assert name[k..][|stretch|..] == name[|stretch|..][k..];
    assert pattern[p..] == "*" + pattern[p + 1..];
    WildSwallow(pattern[p + 1..], name[|stretch|..], k);
  }

  /** Meeting a second `*` makes the first one irrelevant. */
  lemma HopeAtStar(pattern: string, name: string, p: nat, n: nat, star: Option<(nat, nat)>)
    requires OnTrack(pattern, name, p, n, star) && p < |pattern| && pattern[p] == '*'
    ensures Hope(pattern, name, p, n, star) == Wild(pattern[p..], name[n..])
  {
    hide Wild;
    if star.Some? {
      var (sp, sn) := star.value;
      assert pattern[sp..] == "*" + pattern[sp + 1..];
      WildStar(pattern[sp + 1..], name[sn..]);
      if Wild(pattern[sp..], name[sn..]) {
        var k := StarStart(pattern[sp + 1..], name[sn..]);
        StarSuperseded(pattern, name[sn..], sp, p, k);
        assert name[sn..][p - sp - 1..] == name[n..];
      }
    }
  }

  /** A failed stretch is given up by moving its `*` one character on. */
  lemma HopeAfterMismatch(pattern: string, name: string, p: nat, n: nat, sp: nat, sn: nat)
    requires OnTrack(pattern, name, p, n, Some((sp, sn))) && n < |name|
    requires !Wild(pattern[p..], name[n..])
    ensures OnTrack(pattern, name, sp + 1, sn + 1, Some((sp, sn + 1)))
    ensures Hope(pattern, name, sp + 1, sn + 1, Some((sp, sn + 1))) ==
            Hope(pattern, name, p, n, Some((sp, sn)))
  {
    assert pattern[sp..] == "*" + pattern[sp + 1..];
    WildStar(pattern[sp + 1..], name[sn..]);
    assert name[sn..][1..] == name[sn + 1..];
  }

  /** A character that fits keeps what remains to be decided. */
  lemma HopeAfterFit(pattern: string, name: string, p: nat, n: nat, star: Option<(nat, nat)>)
    requires OnTrack(pattern, name, p, n, star) && p < |pattern| && n < |name| && name[n] != '*'
    requires pattern[p] == '?' || pattern[p] == name[n]
    ensures OnTrack(pattern, name, p + 1, n + 1, star)
    ensures Hope(pattern, name, p + 1, n + 1, star) == Hope(pattern, name, p, n, star)
  {
    WildFit(pattern[p..], name[n..]);
    hide Wild;
    assert pattern[p..][1..] == pattern[p + 1..] && name[n..][1..] == name[n + 1..];
    if star.Some? {
      assert pattern[star.value.0 + 1..p + 1] == pattern[star.value.0 + 1..p] + [pattern[p]];
    }
  }

  lemma WildFit(pattern: string, name: string)
    requires pattern != [] && name != [] && name[0] != '*' && (pattern[0] == '?' || pattern[0] == name[0])
    ensures Wild(pattern, name) == Wild(pattern[1..], name[1..])
  {
  }

  /** Neither the character nor a `*` fits here. */
  lemma Mismatch(pattern: string, name: string, p: nat, n: nat)
    requires p <= |pattern| && n < |name|
    requires p < |pattern| ==> pattern[p] != '*' && pattern[p] != '?' && pattern[p] != name[n]
    ensures !Wild(pattern[p..], name[n..])
  {
  }

  lemma OnTrackAtStar(pattern: string, name: string, p: nat, n: nat)
    requires p < |pattern| && n <= |name| && pattern[p] == '*'
    ensures OnTrack(pattern, name, p + 1, n, Some((p, n)))
    ensures Hope(pattern, name, p + 1, n, Some((p, n))) == Wild(pattern[p..], name[n..])
  {
    hide Wild;
  }

  /** On a name without `*` the scan decides exactly the dialect. */
  lemma {:induction false} ScanExact(pattern: string, name: string, p: nat, n: nat, star: Option<(nat, nat)>)
    requires '*' !in name && OnTrack(pattern, name, p, n, star)
    ensures Scan(pattern, name, p, n, star).matched == Hope(pattern, name, p, n, star)
    decreases if star.Some? then |name| - star.value.1 else |name| + 1, |pattern| - p
  {
    hide Wild;
    if n == |name| {
      TailIsWild(pattern, p);
      HopeAtEnd(pattern, name, p, star);
    } else if p < |pattern| && (pattern[p] == '?' || pattern[p] == name[n]) {
      HopeAfterFit(pattern, name, p, n, star);
      ScanExact(pattern, name, p + 1, n + 1, star);
    } else if p < |pattern| && pattern[p] == '*' {
      HopeAtStar(pattern, name, p, n, star);
      OnTrackAtStar(pattern, name, p, n);
      ScanExact(pattern, name, p + 1, n, Some((p, n)));
    } else {
      Mismatch(pattern, name, p, n);
      if star.Some? {
        var (sp, sn) := star.value;
        HopeAfterMismatch(pattern, name, p, n, sp, sn);
        ScanExact(pattern, name, sp + 1, sn + 1, Some((sp, sn + 1)));
      }
    }
  }

  function Questions(n: nat): (s: string)
    ensures |s| == n && forall i :: 0 <= i < n ==> s[i] == '?'
  {
    if n == 0 then "" else "?" + Questions(n - 1)
  }

  lemma {:induction false} QuestionsMatch(name: string)
    ensures Wild(Questions(|name|), name)
  {
    if name != [] {
      QuestionsMatch(name[1..]);
      assert Questions(|name|)[1..] == Questions(|name| - 1);
    }
  }

  /** The pattern a name with a `*` at `at` defeats: the scan spends the
      pattern's `*` on the name's own. */
  function Defeating(name: string, at: nat): (pattern: string)
    requires at < |name|
    ensures |pattern| <= |name| + 1 && forall i :: 0 <= i < |pattern| ==> pattern[i] == if i == at then '*' else '?'
    ensures at < |pattern|
  {
    Questions(at) + (if at + 1 < |name| then "*" else "*?")
  }

  lemma {:induction false} DefeatedScan(name: string, at: nat, p: nat)
    requires at < |name| && name[at] == '*' && p <= at + 1
    ensures !Scan(Defeating(name, at), name, p, p, None).matched
    decreases |name| - p
  {
    if p <= at { DefeatedScan(name, at, p + 1); }
  }

  lemma WildAny(name: string)
    ensures Wild("*", name)
  {
    assert "*"[1..] == "" && name[|name|..] == "";
  }

  lemma DefeatedWild(name: string, at: nat)
    requires at < |name|
    ensures Wild(Defeating(name, at), name)
  {
    if at + 1 < |name| {
      WildAny(name[at..]);
      WildPrefix(at, "*", name);
    } else {
      assert name[at..][0..] == name[at..] && |name[at..]| == 1 && "*?"[1..] == "?" && "?"[1..] == "";
      assert Wild("?", name[at..]);
      WildPrefix(at, "*?", name);
    }
  }

  lemma {:induction false} WildPrefix(at: nat, rest: string, name: string)
    requires at <= |name| && Wild(rest, name[at..])
    ensures Wild(Questions(at) + rest, name)
  {
    if at == 0 {
      assert Questions(0) + rest == rest;
      assert name[0..] == name;
    } else {
      assert name[1..][at - 1..] == name[at..];
      WildPrefix(at - 1, rest, name[1..]);
      assert (Questions(at) + rest)[1..] == Questions(at - 1) + rest;
    }
  }

  /** The scan never accepts what the dialect refuses. It agrees with the
      dialect for every pattern exactly when the name holds no `*`. */
  lemma SegmentExact(name: string)
    ensures forall pattern :: SegmentOk(pattern, name) ==> Wild(pattern, name)
    ensures (forall pattern :: SegmentOk(pattern, name) == Wild(pattern, name)) <==> '*' !in name
  {
    forall pattern | SegmentOk(pattern, name) ensures Wild(pattern, name) {
      ScanSound(pattern, name, 0, 0, None);
      assert pattern[0..] == pattern && name[0..] == name;
    }
    if '*' !in name {
      forall pattern ensures SegmentOk(pattern, name) == Wild(pattern, name) {
        ScanExact(pattern, name, 0, 0, None);
        assert pattern[0..] == pattern && name[0..] == name;
      }
    } else {
      var at :| 0 <= at < |name| && name[at] == '*';
      DefeatedScan(name, at, 0);
      DefeatedWild(name, at);
      var pattern := Defeating(name, at);
      assert SegmentOk(pattern, name) != Wild(pattern, name);
    }
  }

  /** A file whose name starts with `*` is missed by `*.log`. */
  lemma StarNameMissed()
    ensures Wild("*.log", "*b.log") && !SegmentOk("*.log", "*b.log")
  {
    var pattern, name := "*.log", "*b.log";
    assert Scan(pattern, name, 1, 1, None) == Run(false, 1);
    assert Scan(pattern, name, 0, 0, None) == Run(false, 2);
    assert name[2..] == ".log" && pattern[1..] == ".log";
    LiteralItself(".log", 0);
    assert ".log"[0..] == ".log";
    ScanSound(".log", ".log", 0, 0, None);
  }

  /** Every pattern text matches itself. */
  lemma {:induction false} LiteralItself(text: string, p: nat)
    requires p <= |text|
    ensures Scan(text, text, p, p, None).matched
    decreases |text| - p
  {
    if p < |text| { LiteralItself(text, p + 1); }
  }

  // ----- Whole paths: the table against the dialect -----

  lemma {:induction false} RecursiveAny(rest: seq<Segment>, path: seq<string>)
    ensures Reaches([Recursive] + rest, path, false) <==>
            exists k :: 0 <= k <= |path| && Reaches(rest, path[k..], false)
    decreases |path|
  {
    var pattern := [Recursive] + rest;
    assert pattern[1..] == rest;
    assert path[0..] == path;
    if path != [] {
      RecursiveAny(rest, path[1..]);
      if k :| 0 <= k <= |path| && Reaches(rest, path[k..], false) {
        if k > 0 { assert path[1..][k - 1..] == path[k..]; }
      }
      if k :| 0 <= k <= |path[1..]| && Reaches(rest, path[1..][k..], false) {
        assert path[1..][k..] == path[k + 1..];
      }
    }
  }

  /** Collapsing `**` runs keeps the meaning of a leading `**`. */
  lemma CompiledStar(pattern: seq<string>, path: seq<string>)
    requires pattern != [] && pattern[0] == "**"
    ensures Reaches(Compile(pattern), path, false) <==>
            exists k :: 0 <= k <= |path| && Reaches(Compile(pattern[1..]), path[k..], false)
  {
    var rest := Compile(pattern[1..]);
    RecursiveAny(rest, path);
    if rest != [] && rest[0].Recursive? {
      assert path[0..] == path;
      if k :| 0 <= k <= |path| && Reaches(rest, path[k..], false) {
        assert rest == [Recursive] + rest[1..];
        RecursiveAny(rest[1..], path[k..]);
        var j :| 0 <= j <= |path[k..]| && Reaches(rest[1..], path[k..][j..], false);
        assert path[k..][j..] == path[k + j..];
        RecursiveAny(rest[1..], path);
      }
    }
  }

  lemma CompiledLiteral(pattern: seq<string>, path: seq<string>)
    requires pattern != [] && pattern[0] != "**"
    ensures Reaches(Compile(pattern), path, false) <==>
            path != [] && SegmentOk(pattern[0], path[0]) && Reaches(Compile(pattern[1..]), path[1..], false)
  {
    assert Compile(pattern)[1..] == Compile(pattern[1..]);
  }

  ghost predicate StarFree(path: seq<string>)
  {
    forall i :: 0 <= i < |path| ==> '*' !in path[i]
  }

  lemma {:induction false} PathDialect(pattern: seq<string>, path: seq<string>)
    ensures Reaches(Compile(pattern), path, false) ==> Dialect(pattern, path)
    ensures StarFree(path) ==> Reaches(Compile(pattern), path, false) == Dialect(pattern, path)
  {
    if pattern != [] {
      if pattern[0] == "**" {
        CompiledStar(pattern, path);
        forall k | 0 <= k <= |path|
          ensures Reaches(Compile(pattern[1..]), path[k..], false) ==> Dialect(pattern[1..], path[k..])
          ensures StarFree(path) ==>
                    Reaches(Compile(pattern[1..]), path[k..], false) == Dialect(pattern[1..], path[k..])
        {
          PathDialect(pattern[1..], path[k..]);
        }
      } else {
        CompiledLiteral(pattern, path);
        if path != [] {
          PathDialect(pattern[1..], path[1..]);
          SegmentExact(path[0]);
        }
      }
    }
  }

  ghost function DefeatingPath(path: seq<string>, at: nat, star: nat): (pattern: seq<string>)
    requires at < |path| && star < |path[at]|
  {
    seq(|path|, i requires 0 <= i < |path| => if i == at then Defeating(path[i], star) else "*")
  }

  ghost predicate NoRecursion(pattern: seq<string>)
  {
    forall i :: 0 <= i < |pattern| ==> pattern[i] != "**"
  }

  lemma {:induction false} AllWild(pattern: seq<string>, path: seq<string>)
    requires |pattern| == |path| && NoRecursion(pattern)
    requires forall i :: 0 <= i < |path| ==> Wild(pattern[i], path[i])
    ensures Dialect(pattern, path)
  {
    if pattern != [] { AllWild(pattern[1..], path[1..]); }
  }

  lemma {:induction false} OneFails(pattern: seq<string>, path: seq<string>, at: nat)
    requires |pattern| == |path| && NoRecursion(pattern)
    requires at < |path| && !SegmentOk(pattern[at], path[at])
    ensures !Reaches(Compile(pattern), path, false)
  {
    CompiledLiteral(pattern, path);
    if at > 0 { OneFails(pattern[1..], path[1..], at - 1); }
  }

  const MAX_ARTIFACT_PATTERN_BYTES: nat := 512
  const MAX_ARTIFACT_WALK_DEPTH: nat := 32

  predicate ValidSegment(s: string)
  {
    s != "" && s != "." && s != ".." && (s == "**" || forall i :: 0 <= i < |s| - 1 ==> !(s[i] == '*' && s[i + 1] == '*'))
  }

  /** A pattern a declaration may hold. */
  ghost predicate Declarable(pattern: string)
  {
    && 0 < Utf8Bytes(pattern) <= MAX_ARTIFACT_PATTERN_BYTES
    && (forall c :: c in pattern ==> 0x20 <= c as int && c as int != 0x7F && c != '\\')
    && pattern[0] != '/'
    && forall s :: s in Split(pattern, '/') ==> ValidSegment(s)
  }

  /** A path within the bounds of the walk, its names within those of a file system. */
  ghost predicate Walkable(path: seq<string>)
  {
    |path| <= MAX_ARTIFACT_WALK_DEPTH + 1 && forall i :: 0 <= i < |path| ==> |path[i]| <= 255
  }

  lemma {:induction false} AsciiBytes(s: string)
    requires forall i :: 0 <= i < |s| ==> s[i] as int < 0x80
    ensures Utf8Bytes(s) == |s|
  {
    if s != [] { AsciiBytes(s[1..]); }
  }

  ghost predicate Marks(s: string) { s != "" && forall c :: c in s ==> c == '*' || c == '?' }

  lemma {:induction false} JoinedMarks(parts: seq<string>, at: nat)
    requires at < |parts| && forall i :: 0 <= i < |parts| ==> Marks(parts[i]) && (i != at ==> |parts[i]| == 1)
    ensures |Join(parts, '/')| <= 2 * |parts| + |parts[at]| && Join(parts, '/') != [] && Join(parts, '/')[0] != '/'
    ensures forall c :: c in Join(parts, '/') ==> c == '*' || c == '?' || c == '/'
    decreases |parts|
  {
    assert parts[0][0] in parts[0];
    if |parts| > 1 {
      var rest := parts[1..];
      if at > 0 {
        JoinedMarks(rest, at - 1);
      } else {
        JoinedMarks(rest, 0);
      }
    }
  }

  lemma MarksDeclarable(pattern: seq<string>, at: nat)
    requires at < |pattern| <= MAX_ARTIFACT_WALK_DEPTH + 1 && |pattern[at]| <= 256
    requires forall i :: 0 <= i < |pattern| ==>
               Marks(pattern[i]) && (i != at ==> |pattern[i]| == 1) && ValidSegment(pattern[i]) && '/' !in pattern[i]
    ensures Declarable(Join(pattern, '/')) && Split(Join(pattern, '/'), '/') == pattern
  {
    hide Marks, ValidSegment, Join, Split;
    JoinedMarks(pattern, at);
    var text := Join(pattern, '/');
    forall i | 0 <= i < |text| ensures text[i] as int < 0x80 { assert text[i] in text; }
    AsciiBytes(text);
    SplitJoin(pattern, '/');
  }

  lemma DefeatingDeclarable(path: seq<string>, at: nat, star: nat)
    requires Walkable(path) && at < |path| && star < |path[at]|
    ensures var text := Join(DefeatingPath(path, at, star), '/');
            Declarable(text) && Split(text, '/') == DefeatingPath(path, at, star)
  {
    var pattern := DefeatingPath(path, at, star);
    assert |pattern| == |path|;
    hide Marks, ValidSegment, Defeating, DefeatingPath, Declarable;
    forall i | 0 <= i < |pattern|
      ensures Marks(pattern[i]) && (i != at ==> |pattern[i]| == 1) && ValidSegment(pattern[i]) && '/' !in pattern[i] {
      DefeatingSegment(path, at, star, i);
    }
    DefeatingSegment(path, at, star, at);
    MarksDeclarable(pattern, at);
  }

  lemma DefeatingSegment(path: seq<string>, at: nat, star: nat, i: nat)
    requires at < |path| && star < |path[at]| && i < |path|
    ensures var s := DefeatingPath(path, at, star)[i];
            && Marks(s) && (i != at ==> |s| == 1) && ValidSegment(s) && '/' !in s && s != "**"
            && (i == at ==> |s| <= |path[at]| + 1)
  {
    var s := DefeatingPath(path, at, star)[i];
    assert s[0] == '*' || s[0] == '?';
    if i == at {
      assert s == Defeating(path[at], star);
      assert s[0] == '?' || |s| == 1 || s[1] == '?';
    }
  }

  lemma Defeated(path: seq<string>, at: nat, star: nat)
    requires at < |path| && star < |path[at]| && path[at][star] == '*'
    ensures var pattern := DefeatingPath(path, at, star);
            Dialect(pattern, path) && !Reaches(Compile(pattern), path, false)
  {
    var pattern := DefeatingPath(path, at, star);
    forall i | 0 <= i < |path| ensures pattern[i] != "**" && Wild(pattern[i], path[i]) {
      DefeatingSegment(path, at, star, i);
      if i == at { DefeatedWild(path[at], star); } else { WildAny(path[i]); }
    }
    DefeatedScan(path[at], star, 0);
    hide Wild, Scan, Defeating, Dialect, Reaches, Compile;
    AllWild(pattern, path);
    OneFails(pattern, path, at);
  }

  ghost predicate Agrees(pattern: seq<string>, path: seq<string>)
  {
    Reaches(Compile(pattern), path, false) == Dialect(pattern, path)
  }

  /** The evaluation never accepts a path the dialect refuses. It agrees with
      the dialect on every pattern exactly when no name on the path holds `*`,
      and for a path the walk can meet the declarable patterns suffice to tell. */
  lemma PathExact(path: seq<string>)
    ensures forall pattern :: Reaches(Compile(pattern), path, false) ==> Dialect(pattern, path)
    ensures (forall pattern :: Agrees(pattern, path)) <==> StarFree(path)
    ensures Walkable(path) ==> ((forall text :: Declarable(text) ==> Agrees(Split(text, '/'), path)) <==> StarFree(path))
  {
    hide Dialect, Reaches, Compile, Declarable, Walkable;
    forall pattern
      ensures Reaches(Compile(pattern), path, false) ==> Dialect(pattern, path)
      ensures StarFree(path) ==> Agrees(pattern, path)
    {
      PathDialect(pattern, path);
    }
    if !StarFree(path) {
      var at :| 0 <= at < |path| && '*' in path[at];
      var star :| 0 <= star < |path[at]| && path[at][star] == '*';
      Defeated(path, at, star);
      assert !Agrees(DefeatingPath(path, at, star), path);
      if Walkable(path) { DefeatingDeclarable(path, at, star); }
    }
  }

  // ----- Descent: what pruning keeps -----

  /** A path that matches lets the walk through every proper ancestor. */
  lemma {:induction false} AncestorDescends(pattern: seq<Segment>, path: seq<string>, k: nat)
    requires k < |path| && Reaches(pattern, path, false)
    ensures Reaches(pattern, path[..k], true)
    decreases |pattern| + |path|
  {
    if k > 0 {
      match pattern[0]
      case Recursive =>
        if Reaches(pattern[1..], path, false) {
          AncestorDescends(pattern[1..], path, k);
        } else {
          AncestorDescends(pattern, path[1..], k - 1);
          assert path[..k][1..] == path[1..][..k - 1];
        }
      case Literal(text) =>
        AncestorDescends(pattern[1..], path[1..], k - 1);
        assert path[..k][1..] == path[1..][..k - 1];
    }
  }

  /** Names to add below a directory the pattern still has segments for. */
  lemma {:induction false} DescentWitness(pattern: seq<Segment>, path: seq<string>) returns (below: seq<string>)
    requires Reaches(pattern, path, true)
    ensures below != [] && Reaches(pattern, path + below, false)
    ensures forall name :: name in below ==> name == "x" || Literal(name) in pattern
    decreases |pattern| + |path|
  {
    if path == [] {
      if pattern[0].Recursive? {
        if |pattern| == 1 {
          below := ["x"];
          assert pattern[1..] == [] && below[1..] == [];
          assert Reaches(pattern, [], false);
        } else {
          below := DescentWitness(pattern[1..], []);
          assert [] + below == below;
        }
        assert path + below == below;
      } else {
        var rest := [];
        if |pattern| > 1 {
          rest := DescentWitness(pattern[1..], []);
          assert [] + rest == rest;
        }
        below := [pattern[0].text] + rest;
        LiteralItself(pattern[0].text, 0);
        assert path + below == below && below[1..] == rest;
      }
    } else {
      match pattern[0]
      case Recursive =>
        if Reaches(pattern[1..], path, true) {
          below := DescentWitness(pattern[1..], path);
        } else {
          below := DescentWitness(pattern, path[1..]);
          assert (path + below)[1..] == path[1..] + below;
        }
      case Literal(text) =>
        below := DescentWitness(pattern[1..], path[1..]);
        assert (path + below)[1..] == path[1..] + below;
    }
  }

  /** A directory is entered exactly when something below it could match. */
  lemma DescentExact(pattern: seq<Segment>, path: seq<string>)
    ensures Reaches(pattern, path, true) <==>
            exists below :: below != [] && Reaches(pattern, path + below, false)
  {
    if Reaches(pattern, path, true) {
      var below := DescentWitness(pattern, path);
    }
    if below :| below != [] && Reaches(pattern, path + below, false) {
      AncestorDescends(pattern, path + below, |path|);
      assert (path + below)[..|path|] == path;
    }
  }

  // ----- What is charged at least -----

  /** A scan that matches has been charged for every character left. */
  lemma {:induction false} ScanCharges(pattern: string, name: string, p: nat, n: nat, star: Option<(nat, nat)>)
    requires p <= |pattern| && n <= |name| && (star.Some? ==> star.value.0 < p && star.value.1 <= n)
    ensures Scan(pattern, name, p, n, star).matched ==> Scan(pattern, name, p, n, star).steps >= |name| - n
    ensures n < |name| ==> Scan(pattern, name, p, n, star).steps > 0
    decreases if star.Some? then |name| - star.value.1 else |name| + 1, |pattern| - p
  {
    if n < |name| {
      if p < |pattern| && (pattern[p] == '?' || pattern[p] == name[n]) {
        ScanCharges(pattern, name, p + 1, n + 1, star);
      } else if p < |pattern| && pattern[p] == '*' {
        ScanCharges(pattern, name, p + 1, n, Some((p, n)));
      } else if star.Some? {
        ScanCharges(pattern, name, star.value.0 + 1, star.value.1 + 1, Some((star.value.0, star.value.1 + 1)));
      }
    }
  }

  /** A segment costs its length, and its length again when it matches. */
  lemma SegmentCharges(pattern: string, name: string)
    ensures SegmentRun(pattern, name).steps >= |name|
    ensures SegmentRun(pattern, name).matched ==> SegmentRun(pattern, name).steps >= 2 * |name|
  {
    ScanCharges(pattern, name, 0, 0, None);
  }

  lemma {:induction false} RowCharges(pattern: seq<Segment>, path: seq<string>, descent: bool)
    requires pattern != []
    ensures RowCost(pattern, path, descent) >= |path| + 1
    ensures pattern[0].Recursive? ==> RowCost(pattern, path, descent) == |path| + 1
    decreases |path|
  {
    if path != [] { RowCharges(pattern, path[1..], descent); }
  }

  /** Every cell of the table is charged, the empty pattern's row included, and
      where no segment is compared nothing else is. */
  lemma {:induction false} CellsCharged(pattern: seq<Segment>, path: seq<string>, descent: bool)
    ensures TableCost(pattern, path, descent) >= (|pattern| + 1) * (|path| + 1)
    ensures (forall i :: 0 <= i < |pattern| ==> pattern[i].Recursive?) ==>
              TableCost(pattern, path, descent) == (|pattern| + 1) * (|path| + 1)
  {
    if pattern != [] {
      CellsCharged(pattern[1..], path, descent);
      RowCharges(pattern, path, descent);
      assert (|pattern| + 1) * (|path| + 1) == |pattern| * (|path| + 1) + (|path| + 1);
    }
  }

  /** Once a declaration is matched and descent granted, its other patterns cost
      nothing. */
  lemma {:induction false} SettledCostsNothing(patterns: seq<seq<Segment>>, more: seq<seq<Segment>>, path: seq<string>, descends: bool)
    requires MatchesAny(patterns, path, false) && (descends || MatchesAny(patterns, path, true))
    ensures PatternsCost(patterns + more, path, descends) == PatternsCost(patterns, path, descends)
    decreases |more|
  {
    hide Reaches, TableCost;
    if more == [] {
      assert patterns + more == patterns;
    } else {
      var fewer := more[..|more| - 1];
      SettledCostsNothing(patterns, fewer, path, descends);
      assert (patterns + more)[..|patterns + more| - 1] == patterns + fewer;
      AnyKept(patterns, fewer, path, false);
      AnyKept(patterns, fewer, path, true);
    }
  }

  lemma AnyKept(patterns: seq<seq<Segment>>, more: seq<seq<Segment>>, path: seq<string>, descent: bool)
    ensures MatchesAny(patterns, path, descent) ==> MatchesAny(patterns + more, path, descent)
  {
    hide Reaches;
    if i :| 0 <= i < |patterns| && Reaches(patterns[i], path, descent) { assert (patterns + more)[i] == patterns[i]; }
  }

  /** Both tables of every pattern, or only the first once descent is granted. */
  function AllTables(patterns: seq<seq<Segment>>, path: seq<string>, descends: bool): (cost: nat)
  {
    if patterns == [] then 0
    else TableCost(patterns[0], path, false) + (if descends then 0 else TableCost(patterns[0], path, true)) +
         AllTables(patterns[1..], path, descends)
  }

  lemma {:induction false} AllTablesSnoc(patterns: seq<seq<Segment>>, last: seq<Segment>, path: seq<string>, descends: bool)
    ensures AllTables(patterns + [last], path, descends) ==
            AllTables(patterns, path, descends) + TableCost(last, path, false) + if descends then 0 else TableCost(last, path, true)
  {
    hide TableCost;
    if patterns == [] {
      assert patterns + [last] == [last] && [last][1..] == [];
    } else {
      AllTablesSnoc(patterns[1..], last, path, descends);
      assert (patterns + [last])[1..] == patterns[1..] + [last];
    }
  }

  /** Where nothing hits, every pattern is charged in full. */
  lemma {:induction false} MissesCostAll(patterns: seq<seq<Segment>>, path: seq<string>, descends: bool)
    requires !MatchesAny(patterns, path, false) && !MatchesAny(patterns, path, true)
    ensures PatternsCost(patterns, path, descends) == AllTables(patterns, path, descends)
  {
    hide Reaches, TableCost;
    if patterns != [] {
      var before, last := patterns[..|patterns| - 1], patterns[|patterns| - 1];
      assert patterns == before + [last];
      AnyKept(before, [last], path, false);
      AnyKept(before, [last], path, true);
      MissesCostAll(before, path, descends);
      AllTablesSnoc(before, last, path, descends);
    }
  }
}
