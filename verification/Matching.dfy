/** The matcher as it runs: loops over one mutable budget. Every method answers
    what the functions of `Glob` say and charges exactly what they count, or
    fails having spent the whole budget. */
module Matching {
  import opened Seqs
  import opened Glob

  class MatchingBudget {
    var remaining: nat
    var spent: nat

    constructor (cells: nat)
      ensures remaining == cells && spent == 0
    {
      remaining, spent := cells, 0;
    }

    /** The budget paid `cost`, or could not and is exhausted. */
    twostate predicate Settled(cost: nat, paid: bool)
      reads this
    {
      && paid == (cost <= old(remaining))
      && remaining == (if paid then old(remaining) - cost else 0)
      && spent == old(spent) + old(remaining) - remaining
    }

    method Charge() returns (paid: bool)
      modifies this
      ensures Settled(1, paid)
    {
      if remaining == 0 { return false; }
      remaining, spent := remaining - 1, spent + 1;
      return true;
    }
  }

  /** `None` is the matcher's `MatchingBudgetSpent`. */
  method SegmentMatches(pattern: string, name: string, budget: MatchingBudget) returns (answer: Option<bool>)
    modifies budget
    ensures budget.Settled(SegmentRun(pattern, name).steps, answer.Some?)
    ensures answer.Some? ==> answer.value == SegmentOk(pattern, name)
  {
    ghost var total := SegmentRun(pattern, name).steps;
    var chars := "";
    while |chars| < |name|
      invariant |chars| <= |name| && chars == name[..|chars|]
      invariant |chars| <= old(budget.remaining) && budget.Settled(|chars|, true)
      decreases |name| - |chars|
    {
      var paid := budget.Charge();
      if !paid { return None; }
      chars := chars + [name[|chars|]];
    }
    var p, n := 0, 0;
    var star: Option<(nat, nat)> := None;
    ghost var done: nat := |name|;
    while n < |chars|
      invariant p <= |pattern| && n <= |chars| && chars == name
      invariant star.Some? ==> star.value.0 < p && star.value.1 <= n
      invariant done + Scan(pattern, name, p, n, star).steps == total
      invariant Scan(pattern, name, p, n, star).matched == SegmentOk(pattern, name)
      invariant budget.Settled(done, true)
      decreases if star.Some? then |name| - star.value.1 else |name| + 1, |pattern| - p
    {
      var paid := budget.Charge();
      if !paid { return None; }
      done := done + 1;
      if p < |pattern| && (pattern[p] == '?' || pattern[p] == chars[n]) {
        p, n := p + 1, n + 1;
      } else if p < |pattern| && pattern[p] == '*' {
        star := Some((p, n));
        p := p + 1;
      } else if star.Some? {
        var (sp, sn) := star.value;
        p, n, star := sp + 1, sn + 1, Some((sp, sn + 1));
      } else {
        return Some(false);
      }
    }
    while p < |pattern| && pattern[p] == '*'
      invariant p <= |pattern|
      invariant done + ScanTail(pattern, p).steps == total
      invariant ScanTail(pattern, p).matched == SegmentOk(pattern, name)
      invariant budget.Settled(done, true)
    {
      var paid := budget.Charge();
      if !paid { return None; }
      done, p := done + 1, p + 1;
    }
    return Some(p == |pattern|);
  }

  /** One row holds, for every tail of the path, whether the pattern's tail reaches it. */
  ghost predicate IsRow(row: seq<bool>, pattern: seq<Segment>, path: seq<string>, descent: bool, from: nat)
  {
    && |row| == |path| + 1
    && forall j :: from <= j <= |path| ==> row[j] == Reaches(pattern, path[j..], descent)
  }

  method FillRow(pattern: seq<Segment>, path: seq<string>, descent: bool, next: seq<bool>, budget: MatchingBudget)
    returns (filled: Option<seq<bool>>)
    requires pattern != [] && IsRow(next, pattern[1..], path, descent, 0)
    modifies budget
    ensures budget.Settled(RowCost(pattern, path, descent), filled.Some?)
    ensures filled.Some? ==> IsRow(filled.value, pattern, path, descent, 0)
  {
    var n := |path|;
    var row := seq(n + 1, _ => false);
    ghost var done := 0;
    var j := n + 1;
    assert path[0..] == path;
    while j > 0
      invariant 0 <= j <= n + 1
      invariant IsRow(row, pattern, path, descent, j)
      invariant done == if j > n then 0 else RowCost(pattern, path[j..], descent)
      invariant done <= RowCost(pattern, path, descent)
      invariant budget.Settled(done, true)
    {
      j := j - 1;
      TailCost(pattern, path, descent, j);
      assert j < n ==> path[j..][0] == path[j] && path[j..][1..] == path[j + 1..];
      var paid := budget.Charge();
      if !paid { return None; }
      done := done + 1;
      var cell := descent && j == n;
      if !cell {
        match pattern[0]
        case Recursive =>
          cell := next[j] || (j < n && row[j + 1]);
        case Literal(text) =>
          if j < n && next[j + 1] {
            var answer := SegmentMatches(text, path[j], budget);
            if answer.None? { return None; }
            done := done + SegmentRun(text, path[j]).steps;
            cell := answer.value;
          }
      }
      row := row[j := cell];
    }
    filled := Some(row);
  }

  lemma {:induction false} TailCost(pattern: seq<Segment>, path: seq<string>, descent: bool, j: nat)
    requires pattern != [] && j <= |path|
    ensures RowCost(pattern, path[j..], descent) <= RowCost(pattern, path, descent)
    decreases j
  {
    if j == 0 {
      assert path[0..] == path;
    } else {
      TailCost(pattern, path[1..], descent, j - 1);
      assert path[1..][j - 1..] == path[j..];
    }
  }

  method Evaluate(pattern: seq<Segment>, path: seq<string>, descent: bool, budget: MatchingBudget)
    returns (answer: Option<bool>)
    modifies budget
    ensures budget.Settled(TableCost(pattern, path, descent), answer.Some?)
    ensures answer.Some? ==> answer.value == Reaches(pattern, path, descent)
  {
    var n := |path|;
    var next := [];
    assert pattern[|pattern|..] == [] && pattern[0..] == pattern && path[0..] == path;
    TableTail(pattern, path, descent, |pattern|);
    while |next| <= n
      invariant |next| <= n + 1
      invariant forall j :: 0 <= j < |next| ==> next[j] == (!descent && j == n)
      invariant |next| <= old(budget.remaining) && budget.Settled(|next|, true)
      decreases n + 1 - |next|
    {
      var paid := budget.Charge();
      if !paid { return None; }
      next := next + [!descent && |next| == n];
    }
    var k := |pattern|;
    while k > 0
      invariant 0 <= k <= |pattern|
      invariant IsRow(next, pattern[k..], path, descent, 0)
      invariant budget.Settled(TableCost(pattern[k..], path, descent), true)
    {
      k := k - 1;
      assert pattern[k..][1..] == pattern[k + 1..];
      TableTail(pattern, path, descent, k);
      var filled := FillRow(pattern[k..], path, descent, next, budget);
      if filled.None? { return None; }
      next := filled.value;
    }
    answer := Some(next[0]);
  }

  lemma {:induction false} TableTail(pattern: seq<Segment>, path: seq<string>, descent: bool, k: nat)
    requires k <= |pattern|
    ensures TableCost(pattern[k..], path, descent) <= TableCost(pattern, path, descent)
    decreases k
  {
    if k == 0 {
      assert pattern[0..] == pattern;
    } else {
      TableTail(pattern[1..], path, descent, k - 1);
      assert pattern[1..][k - 1..] == pattern[k..];
    }
  }

  // ----- Compilation -----

  function Push(compiled: seq<Segment>, text: string): (r: seq<Segment>)
  {
    if text != "**" then compiled + [Literal(text)]
    else if compiled != [] && compiled[|compiled| - 1].Recursive? then compiled
    else compiled + [Recursive]
  }

  lemma {:induction false} CompileSnoc(pattern: seq<string>, text: string)
    ensures Compile(pattern + [text]) == Push(Compile(pattern), text)
  {
    if pattern == [] {
      assert pattern + [text] == [text];
    } else {
      CompileSnoc(pattern[1..], text);
      assert (pattern + [text])[1..] == pattern[1..] + [text];
      var rest := Compile(pattern[1..]);
      if pattern[0] != "**" || rest == [] || !rest[0].Recursive? {
        var head := if pattern[0] == "**" then Recursive else Literal(pattern[0]);
        assert rest != [] ==> ([head] + rest)[|rest|] == rest[|rest| - 1];
        assert rest != [] ==> [head] + Push(rest, text) == Push([head] + rest, text);
      }
    }
  }

  method CompilePattern(pattern: string) returns (compiled: seq<Segment>)
    ensures compiled == Compile(Split(pattern, '/'))
  {
    var pieces := Split(pattern, '/');
    compiled := [];
    for i := 0 to |pieces|
      invariant compiled == Compile(pieces[..i])
    {
      CompileSnoc(pieces[..i], pieces[i]);
      assert pieces[..i + 1] == pieces[..i] + [pieces[i]];
      if pieces[i] == "**" {
        if compiled == [] || !compiled[|compiled| - 1].Recursive? {
          compiled := compiled + [Recursive];
        }
      } else {
        compiled := compiled + [Literal(pieces[i])];
      }
    }
    assert pieces[..|pieces|] == pieces;
  }

  // ----- Classification of one path -----

  lemma AnyNone(path: seq<string>)
    ensures !MatchesAny([], path, false) && !MatchesAny([], path, true)
  {
  }

  lemma AnySnoc(patterns: seq<seq<Segment>>, i: nat, path: seq<string>, descent: bool)
    requires i < |patterns|
    ensures patterns[..i + 1][..i] == patterns[..i] && patterns[..i + 1][i] == patterns[i]
    ensures MatchesAny(patterns[..i + 1], path, descent) <==>
            MatchesAny(patterns[..i], path, descent) || Reaches(patterns[i], path, descent)
  {
    var now := patterns[..i + 1];
    assert now[..i] == patterns[..i];
    if j :| 0 <= j < |now| && Reaches(now[j], path, descent) {
      assert j < i ==> patterns[..i][j] == now[j];
    }
    if j :| 0 <= j < i && Reaches(patterns[..i][j], path, descent) {
      assert now[j] == patterns[..i][j];
    }
    assert now[i] == patterns[i];
  }

  method ClassifyPatterns(patterns: seq<seq<Segment>>, path: seq<string>, descendsBefore: bool, budget: MatchingBudget)
    returns (answer: Option<(bool, bool)>)
    modifies budget
    ensures budget.Settled(PatternsCost(patterns, path, descendsBefore), answer.Some?)
    ensures answer.Some? ==>
              && answer.value.0 == MatchesAny(patterns, path, false)
              && answer.value.1 == (descendsBefore || MatchesAny(patterns, path, true))
  {
    hide MatchesAny, TableCost, Reaches;
    AnyNone(path);
    var matched, descends := false, descendsBefore;
    assert patterns[..|patterns|] == patterns;
    for i := 0 to |patterns|
      invariant matched == MatchesAny(patterns[..i], path, false)
      invariant descends == (descendsBefore || MatchesAny(patterns[..i], path, true))
      invariant budget.Settled(PatternsCost(patterns[..i], path, descendsBefore), true)
    {
      AnySnoc(patterns, i, path, false);
      AnySnoc(patterns, i, path, true);
      PatternsPrefix(patterns, path, descendsBefore, i + 1);
      if !matched {
        var answer' := Evaluate(patterns[i], path, false, budget);
        if answer'.None? { return None; }
        matched := answer'.value;
      }
      if !descends {
        var answer' := Evaluate(patterns[i], path, true, budget);
        if answer'.None? { return None; }
        descends := answer'.value;
      }
    }
    answer := Some((matched, descends));
  }

  lemma {:induction false} PatternsPrefix(patterns: seq<seq<Segment>>, path: seq<string>, descends: bool, k: nat)
    requires k <= |patterns|
    ensures PatternsCost(patterns[..k], path, descends) <= PatternsCost(patterns, path, descends)
    decreases |patterns|
  {
    if k == |patterns| {
      assert patterns[..k] == patterns;
    } else {
      PatternsPrefix(patterns[..|patterns| - 1], path, descends, k);
      assert patterns[..|patterns| - 1][..k] == patterns[..k];
    }
  }

  lemma {:induction false} ClassifyPrefix(declarations: seq<Declaration>, path: seq<string>, k: nat)
    requires k <= |declarations|
    ensures ClassifyCost(declarations[..k], path) <= ClassifyCost(declarations, path)
    decreases |declarations|
  {
    if k == |declarations| {
      assert declarations[..k] == declarations;
    } else {
      ClassifyPrefix(declarations[..|declarations| - 1], path, k);
      assert declarations[..|declarations| - 1][..k] == declarations[..k];
    }
  }

  lemma DescendsSnoc(declarations: seq<Declaration>, i: nat, path: seq<string>)
    requires i < |declarations|
    ensures declarations[..i + 1][..i] == declarations[..i] && declarations[..i + 1][i] == declarations[i]
    ensures Descends(declarations[..i + 1], path) <==>
            Descends(declarations[..i], path) || MatchesAny(declarations[i].patterns, path, true)
  {
    var now := declarations[..i + 1];
    assert now[..i] == declarations[..i];
    if j :| 0 <= j < |now| && MatchesAny(now[j].patterns, path, true) {
      assert j < i ==> declarations[..i][j] == now[j];
    }
    if j :| 0 <= j < i && MatchesAny(declarations[..i][j].patterns, path, true) {
      assert now[j] == declarations[..i][j];
    }
    assert now[i] == declarations[i];
  }

  /** The declarations a path belongs to and whether to look below it, at a
      cost that depends on the path and the declarations alone. */
  method Classify(declarations: seq<Declaration>, path: string, budget: MatchingBudget)
    returns (answer: Option<(seq<string>, bool)>)
    modifies budget
    ensures budget.Settled(ClassifyCost(declarations, Split(path, '/')), answer.Some?)
    ensures answer.Some? ==>
              answer.value == (Matched(declarations, Split(path, '/')), Descends(declarations, Split(path, '/')))
  {
    var segments := Split(path, '/');
    var names, descends := [], false;
    assert declarations[..|declarations|] == declarations;
    for i := 0 to |declarations|
      invariant names == Matched(declarations[..i], segments)
      invariant descends == Descends(declarations[..i], segments)
      invariant budget.Settled(ClassifyCost(declarations[..i], segments), true)
    {
      DescendsSnoc(declarations, i, segments);
      ClassifyPrefix(declarations, segments, i + 1);
      var answer' := ClassifyPatterns(declarations[i].patterns, segments, descends, budget);
      if answer'.None? { return None; }
      descends := answer'.value.1;
      if answer'.value.0 {
        names := names + [declarations[i].name];
      }
    }
    answer := Some((names, descends));
  }
}
