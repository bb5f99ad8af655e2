/** The required-edge rule of the board verifier: tickets that share a boundary
    need a declared order or a recorded allowance. */
module BoardRules {
  import opened Seqs
  import opened BoardGraph

  const REMAINING_STATUSES := {"PENDING", "ACTIVE", "BLOCKED"}
  const TICKET_STATUSES := {"PENDING", "ACTIVE", "BLOCKED", "DONE", "DEFERRED"}
  const EXECUTION_CLASSES := {"SERIAL", "BATCH", "PARALLEL"}

  /** A ticket row: its status, its dependencies, the boundaries it names in
      backticks and the paths it names outside them. */
  datatype Row = Row(status: string, dependencies: seq<string>, tokens: set<string>, barePaths: set<string>)

  function GraphOf(rows: map<string, Row>): (g: Graph)
    ensures g.Keys == rows.Keys
    ensures forall t :: t in rows ==> g[t] == rows[t].dependencies
  {
    map t | t in rows :: rows[t].dependencies
  }

  predicate Remains(rows: map<string, Row>, t: string) { t in rows && rows[t].status in REMAINING_STATUSES }

  // ----- Required edges -----

  /** `rsplit("-", 1)[0]`: the name up to its last hyphen. */
  function Family(ticket: string): (r: string)
  {
    if '-' !in ticket then ticket
    else if ticket[|ticket| - 1] == '-' then ticket[..|ticket| - 1]
    else Family(ticket[..|ticket| - 1])
  }

  /** The family of a ticket is its name up to the last hyphen. */
  lemma {:induction false} FamilyMeans(stem: string, number: string)
    requires '-' !in number
    ensures Family(stem + "-" + number) == stem
    decreases |number|
  {
    var ticket := stem + "-" + number;
    assert ticket[|stem|] == '-';
    if number == [] {
      assert ticket[..|ticket| - 1] == stem;
    } else {
      assert number[|number| - 1] in number;
      assert ticket[..|ticket| - 1] == stem + "-" + number[..|number| - 1];
      FamilyMeans(stem, number[..|number| - 1]);
    }
  }

  lemma FamilyAlone(ticket: string)
    requires '-' !in ticket
    ensures Family(ticket) == ticket
  {
  }

  predicate Shares(rows: map<string, Row>, a: string, b: string)
    requires a in rows && b in rows
  {
    || rows[a].tokens * rows[b].tokens != {}
    || (Family(a) == Family(b) && Remains(rows, a) && Remains(rows, b))
  }

  ghost predicate Ordered(rows: map<string, Row>, a: string, b: string)
  {
    Reaches(GraphOf(rows), a, b) || Reaches(GraphOf(rows), b, a)
  }

  /** A pair that must carry an edge or an allowance. */
  ghost predicate Undecided(rows: map<string, Row>, a: string, b: string)
    requires a in rows && b in rows
  {
    (Remains(rows, a) || Remains(rows, b)) && !Ordered(rows, a, b) && Shares(rows, a, b)
  }

  /** An allowance that still excuses something. */
  ghost predicate Excuses(rows: map<string, Row>, pair: set<string>)
  {
    exists a, b :: a != b && pair == {a, b} && a in rows && b in rows && !Ordered(rows, a, b) && Shares(rows, a, b)
  }

  ghost predicate Settled(rows: map<string, Row>, allowed: set<set<string>>)
  {
    && (forall a, b :: a in rows && b in rows && a != b && Undecided(rows, a, b) ==> {a, b} in allowed)
    && (forall pair :: pair in allowed ==> Excuses(rows, pair))
  }

  lemma SharesSymmetric(rows: map<string, Row>, a: string, b: string)
    requires a in rows && b in rows
    ensures Shares(rows, a, b) == Shares(rows, b, a)
    ensures Ordered(rows, a, b) == Ordered(rows, b, a)
  {
    assert rows[a].tokens * rows[b].tokens == rows[b].tokens * rows[a].tokens;
  }

  /** On a settled board two different tickets, one of them remaining, carry an
      allowance exactly when they share a boundary and neither reaches the other. */
  lemma AllowanceExact(rows: map<string, Row>, allowed: set<set<string>>, a: string, b: string)
    requires Settled(rows, allowed) && a in rows && b in rows && a != b
    requires Remains(rows, a) || Remains(rows, b)
    ensures {a, b} in allowed <==> Shares(rows, a, b) && !Ordered(rows, a, b)
  {
    hide Ordered, Shares, Remains;
    if {a, b} in allowed {
      assert Excuses(rows, {a, b});
      var x, y :| x != y && {a, b} == {x, y} && x in rows && y in rows && !Ordered(rows, x, y) && Shares(rows, x, y);
      assert x in {a, b} && y in {a, b};
      SharesSymmetric(rows, a, b);
    }
  }

  /** The same with nothing left to look up: a common token, or one family with
      both remaining, and no path of dependencies either way. */
  lemma AllowanceMeans(rows: map<string, Row>, allowed: set<set<string>>, a: string, b: string)
    requires Settled(rows, allowed) && a in rows && b in rows && a != b
    requires rows[a].status in {"PENDING", "ACTIVE", "BLOCKED"}
    ensures {a, b} in allowed <==>
            && ((exists token :: token in rows[a].tokens && token in rows[b].tokens) ||
                (Family(a) == Family(b) && rows[b].status in {"PENDING", "ACTIVE", "BLOCKED"}))
            && !Reaches(GraphOf(rows), a, b) && !Reaches(GraphOf(rows), b, a)
  {
    AllowanceExact(rows, allowed, a, b);
    hide Reaches, Settled;
    if token :| token in rows[a].tokens && token in rows[b].tokens { assert token in rows[a].tokens * rows[b].tokens; }
    if token :| token in rows[a].tokens * rows[b].tokens { assert token in rows[b].tokens; }
  }

  datatype BoundaryError =
    | NoEdge(first: string, second: string)
    | StaleAllowance(pair: set<string>)
    | Unquoted(ticket: string, path: string)

  /** No ticket names a file of the repository outside backticks. */
  ghost predicate Quoted(rows: map<string, Row>, files: set<string>)
  {
    forall t :: t in rows ==> rows[t].barePaths !! files
  }

  /** The verifier has no complaint exactly when the board is settled and, with a
      repository at hand, every file is named in backticks. */
  method RequiredEdges(rows: map<string, Row>, allowed: set<set<string>>, repository: Option<set<string>>)
    returns (errors: seq<BoundaryError>)
    ensures errors == [] <==> Settled(rows, allowed) && (repository.Some? ==> Quoted(rows, repository.value))
  {
    var reachable := ReachableFromAll(GraphOf(rows));
    var names := SortedNames(rows.Keys);
    errors := [];
    if repository.Some? {
      errors := UnquotedPaths(rows, repository.value, names);
    }
    var missing := MissingEdges(rows, allowed, reachable, names);
    var stale := StaleAllowances(rows, allowed, reachable);
    errors := errors + missing + stale;
  }

  method UnquotedPaths(rows: map<string, Row>, files: set<string>, names: seq<string>) returns (errors: seq<BoundaryError>)
    requires forall t :: t in names <==> t in rows
    ensures errors == [] <==> Quoted(rows, files)
  {
    errors := [];
    for i := 0 to |names|
      invariant errors == [] <==> forall k :: 0 <= k < i ==> names[k] in rows && rows[names[k]].barePaths !! files
    {
      assert names[i] in names;
      var candidates := SortedNames(rows[names[i]].barePaths);
      ghost var before := errors;
      for j := 0 to |candidates|
        invariant errors == [] <==> before == [] && forall c :: c in candidates[..j] ==> c !in files
      {
        assert candidates[..j + 1] == candidates[..j] + [candidates[j]];
        if candidates[j] in files { errors := errors + [Unquoted(names[i], candidates[j])]; }
      }
      assert candidates[..|candidates|] == candidates;
      assert rows[names[i]].barePaths !! files <==> forall c :: c in candidates ==> c !in files;
    }
    assert forall t :: t in rows ==> t in names;
  }

  ghost predicate Closes(rows: map<string, Row>, reachable: map<string, set<string>>)
  {
    && reachable.Keys == rows.Keys
    && forall u, v :: u in rows ==> (v in reachable[u] <==> Reaches(GraphOf(rows), u, v))
  }

  method MissingEdges(rows: map<string, Row>, allowed: set<set<string>>, reachable: map<string, set<string>>, names: seq<string>)
    returns (errors: seq<BoundaryError>)
    requires Closes(rows, reachable) && Ascending(names, (t: string) => t)
    requires forall t :: t in names <==> t in rows
    ensures errors == [] <==>
            forall a, b :: a in rows && b in rows && a != b && Undecided(rows, a, b) ==> {a, b} in allowed
  {
    hide Shares, Remains, Ascending, PairSettled;
    errors := [];
    for i := 0 to |names|
      invariant errors == [] <==> forall x :: 0 <= x < i ==> LaterSettled(rows, allowed, names, x, |names|)
    {
      var more := MissingFor(rows, allowed, reachable, names, i);
      errors := errors + more;
    }
    AllPairs(rows, allowed, names);
  }

  ghost predicate LaterSettled(rows: map<string, Row>, allowed: set<set<string>>, names: seq<string>, x: nat, to: nat)
    requires x < |names| && to <= |names|
  {
    forall y :: x < y < to ==> PairSettled(rows, allowed, names[x], names[y])
  }

  method MissingFor(rows: map<string, Row>, allowed: set<set<string>>, reachable: map<string, set<string>>, names: seq<string>, i: nat)
    returns (errors: seq<BoundaryError>)
    requires Closes(rows, reachable) && i < |names| && forall t :: t in names <==> t in rows
    ensures errors == [] <==> LaterSettled(rows, allowed, names, i, |names|)
  {
    hide Shares, Remains, Reaches;
    errors := [];
    assert forall k :: 0 <= k < |names| ==> names[k] in names;
    for j := i + 1 to |names|
      invariant errors == [] <==> LaterSettled(rows, allowed, names, i, j)
    {
      var first, second := names[i], names[j];
      if !Remains(rows, first) && !Remains(rows, second) { continue; }
      if second in reachable[first] || first in reachable[second] { continue; }
      if {first, second} in allowed { continue; }
      if !Shares(rows, first, second) { continue; }
      errors := errors + [NoEdge(first, second)];
    }
  }

  ghost predicate PairSettled(rows: map<string, Row>, allowed: set<set<string>>, a: string, b: string)
  {
    a in rows && b in rows && Undecided(rows, a, b) ==> {a, b} in allowed
  }

  lemma AllPairs(rows: map<string, Row>, allowed: set<set<string>>, names: seq<string>)
    requires Ascending(names, (t: string) => t) && forall t :: t in names <==> t in rows
    ensures (forall x :: 0 <= x < |names| ==> LaterSettled(rows, allowed, names, x, |names|)) <==>
            forall a, b :: a in rows && b in rows && a != b && Undecided(rows, a, b) ==> {a, b} in allowed
  {
    hide Undecided;
    var key := (t: string) => t;
    if forall x :: 0 <= x < |names| ==> LaterSettled(rows, allowed, names, x, |names|) {
      forall a, b | a in rows && b in rows && a != b && Undecided(rows, a, b) ensures {a, b} in allowed {
        assert a in names && b in names;
        var x :| 0 <= x < |names| && names[x] == a;
        var y :| 0 <= y < |names| && names[y] == b;
        UndecidedSymmetric(rows, a, b);
        assert {b, a} == {a, b};
        if x < y {
          assert LaterSettled(rows, allowed, names, x, |names|) && PairSettled(rows, allowed, a, b);
        } else {
          assert LaterSettled(rows, allowed, names, y, |names|) && PairSettled(rows, allowed, b, a);
        }
      }
    }
    if forall a, b :: a in rows && b in rows && a != b && Undecided(rows, a, b) ==> {a, b} in allowed {
      forall x, y | 0 <= x < y < |names| ensures PairSettled(rows, allowed, names[x], names[y]) {
        assert Less(key(names[x]), key(names[y]));
        LessTotal(names[x], names[x]);
      }
    }
  }

  lemma UndecidedSymmetric(rows: map<string, Row>, a: string, b: string)
    requires a in rows && b in rows
    ensures Undecided(rows, a, b) == Undecided(rows, b, a)
  {
    SharesSymmetric(rows, a, b);
  }

  method StaleAllowances(rows: map<string, Row>, allowed: set<set<string>>, reachable: map<string, set<string>>)
    returns (errors: seq<BoundaryError>)
    requires Closes(rows, reachable)
    ensures errors == [] <==> forall pair :: pair in allowed ==> Excuses(rows, pair)
  {
    hide Shares;
    errors := [];
    var pending := allowed;
    while pending != {}
      invariant pending <= allowed
      invariant errors == [] <==> forall pair :: pair in allowed - pending ==> Excuses(rows, pair)
    {
      var pair :| pair in pending;
      pending := pending - {pair};
      var good := false;
      if |pair| == 2 {
        var first, second := TheTwo(pair);
        ExcusesThem(rows, first, second);
        good := first in rows && second in rows && second !in reachable[first] && first !in reachable[second] &&
                Shares(rows, first, second);
      } else {
        NotTwo(rows, pair);
      }
      if !good {
        errors := errors + [StaleAllowance(pair)];
      }
    }
  }

  lemma ExcusesThem(rows: map<string, Row>, first: string, second: string)
    ensures first != second && Excuses(rows, {first, second}) ==>
              first in rows && second in rows && !Ordered(rows, first, second) && Shares(rows, first, second)
  {
    if first != second && Excuses(rows, {first, second}) {
      var a, b :| a != b && {first, second} == {a, b} && a in rows && b in rows && !Ordered(rows, a, b) && Shares(rows, a, b);
      assert a in {first, second} && b in {first, second};
      SharesSymmetric(rows, a, b);
    }
  }

  method TheTwo(pair: set<string>) returns (first: string, second: string)
    requires |pair| == 2
    ensures first != second && pair == {first, second}
  {
    first :| first in pair;
    assert |pair - {first}| == 1;
    second :| second in pair - {first};
    assert |pair - {first} - {second}| == 0;
  }

  lemma NotTwo(rows: map<string, Row>, pair: set<string>)
    requires |pair| != 2
    ensures !Excuses(rows, pair)
  {
  }
}
