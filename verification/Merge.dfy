/** Recognising a combined log as an order-preserving merge of two streams by
    carrying the set of positions the merge may have reached. */
module Merge {

  /** `combined` interleaves `out` and `err`, keeping the order of each. */
  ghost predicate Interleaves<T>(combined: seq<T>, out: seq<T>, err: seq<T>)
    decreases |combined|
  {
    if combined == [] then out == [] && err == []
    else
      var before, last := combined[..|combined| - 1], combined[|combined| - 1];
      || (out != [] && out[|out| - 1] == last && Interleaves(before, out[..|out| - 1], err))
      || (err != [] && err[|err| - 1] == last && Interleaves(before, out, err[..|err| - 1]))
  }

  lemma {:induction false} InterleavesLength<T>(combined: seq<T>, out: seq<T>, err: seq<T>)
    requires Interleaves(combined, out, err)
    ensures |combined| == |out| + |err|
    decreases |combined|
  {
    if combined != [] {
      var before, last := combined[..|combined| - 1], combined[|combined| - 1];
      if out != [] && out[|out| - 1] == last && Interleaves(before, out[..|out| - 1], err) {
        InterleavesLength(before, out[..|out| - 1], err);
      } else {
        InterleavesLength(before, out, err[..|err| - 1]);
      }
    }
  }

  /** The items that came from one side. */
  ghost function Taken<T>(s: seq<T>, from: seq<bool>, side: bool): (items: seq<T>)
    requires |from| == |s|
  {
    if s == [] then []
    else Taken(s[..|s| - 1], from[..|s| - 1], side) + (if from[|s| - 1] == side then [s[|s| - 1]] else [])
  }

  lemma {:induction false} SplitsApart<T>(combined: seq<T>, out: seq<T>, err: seq<T>) returns (from: seq<bool>)
    requires Interleaves(combined, out, err)
    ensures |from| == |combined| && Taken(combined, from, true) == out && Taken(combined, from, false) == err
    decreases |combined|
  {
    from := [];
    if combined != [] {
      var before, last := combined[..|combined| - 1], combined[|combined| - 1];
      if out != [] && out[|out| - 1] == last && Interleaves(before, out[..|out| - 1], err) {
        var earlier := SplitsApart(before, out[..|out| - 1], err);
        from := earlier + [true];
        assert from[..|combined| - 1] == earlier && out == out[..|out| - 1] + [last];
      } else {
        var earlier := SplitsApart(before, out, err[..|err| - 1]);
        from := earlier + [false];
        assert from[..|combined| - 1] == earlier && err == err[..|err| - 1] + [last];
      }
    }
  }

  lemma {:induction false} PutsTogether<T>(combined: seq<T>, from: seq<bool>)
    requires |from| == |combined|
    ensures Interleaves(combined, Taken(combined, from, true), Taken(combined, from, false))
    decreases |combined|
  {
    if combined != [] {
      var n := |combined| - 1;
      PutsTogether(combined[..n], from[..n]);
      var side := Taken(combined, from, from[n]);
      assert side[..|side| - 1] == Taken(combined[..n], from[..n], from[n]);
      assert Taken(combined, from, !from[n]) == Taken(combined[..n], from[..n], !from[n]);
    }
  }

  /** Interleaving is giving every item of the combined sequence a side. */
  lemma InterleavesExact<T>(combined: seq<T>, out: seq<T>, err: seq<T>)
    ensures Interleaves(combined, out, err) <==>
            exists from :: |from| == |combined| && Taken(combined, from, true) == out && Taken(combined, from, false) == err
  {
    if Interleaves(combined, out, err) {
      var from := SplitsApart(combined, out, err);
    }
    if from :| |from| == |combined| && Taken(combined, from, true) == out && Taken(combined, from, false) == err {
      PutsTogether(combined, from);
    }
  }

  /** The positions an interleaving of the lines read so far can stand at. */
  ghost predicate At(lines: seq<string>, out: seq<string>, err: seq<string>, o: nat, e: nat)
  {
    o <= |out| && e <= |err| && Interleaves(lines, out[..o], err[..e])
  }

  lemma AtStep(lines: seq<string>, line: string, out: seq<string>, err: seq<string>, o: nat, e: nat)
    ensures At(lines + [line], out, err, o, e) <==>
            || (0 < o <= |out| && out[o - 1] == line && At(lines, out, err, o - 1, e))
            || (0 < e <= |err| && err[e - 1] == line && At(lines, out, err, o, e - 1))
  {
    var now := lines + [line];
    assert now[..|now| - 1] == lines && now[|now| - 1] == line;
    if 0 < o <= |out| { assert out[..o][..o - 1] == out[..o - 1]; }
    if 0 < e <= |err| { assert err[..e][..e - 1] == err[..e - 1]; }
  }

  // ----- Lines -----

  predicate Terminator(c: char) { c == '\n' || c == '\r' }

  /** A single line by its end: `\n`, `\r`, both, or the end of the text. */
  lemma OneLine(text: string)
    requires '\n' !in text && '\r' !in text
    ensures Lines(text + "\n") == [text + "\n"] && Lines(text + "\r") == [text + "\r"] && Lines(text + "\r\n") == [text + "\r\n"]
    ensures text != [] ==> Lines(text) == [text]
  {
    Ends(text, "\n");
    Ends(text, "\r");
    Ends(text, "\r\n");
    if text != [] {
      Ends(text, "");
      assert text + "" == text;
    }
  }

  lemma {:induction false} Ends(text: string, end: string)
    requires '\n' !in text && '\r' !in text && end in {"\n", "\r", "\r\n", ""} && text + end != []
    ensures LineLength(text + end) == |text + end| && Lines(text + end) == [text + end]
  {
    var s := text + end;
    if text == [] {
      assert s == end;
    } else if |s| > 1 {
      assert s[0] in text && s[1..] == text[1..] + end;
      Ends(text[1..], end);
    }
    assert s[..|s|] == s && s[|s|..] == [];
  }

  /** `splitlines(keepends=True)` on bytes: lines end after `\n`, `\r` or `\r\n`. */
  function Lines(s: string): (lines: seq<string>)
    decreases |s|
  {
    if s == [] then []
    else
      var n := LineLength(s);
      [s[..n]] + Lines(s[n..])
  }

  function LineLength(s: string): (n: nat)
    requires s != []
    ensures 0 < n <= |s|
  {
    if s[0] == '\r' && |s| > 1 && s[1] == '\n' then 2
    else if Terminator(s[0]) || |s| == 1 then 1
    else 1 + LineLength(s[1..])
  }

  function Flatten(lines: seq<string>): (s: string)
  {
    if lines == [] then [] else Flatten(lines[..|lines| - 1]) + lines[|lines| - 1]
  }

  lemma {:induction false} FlattenPrepend(head: string, lines: seq<string>)
    ensures Flatten([head] + lines) == head + Flatten(lines)
  {
    var all := [head] + lines;
    if lines == [] {
      assert all[..0] == [];
    } else {
      assert all[..|all| - 1] == [head] + lines[..|lines| - 1];
      FlattenPrepend(head, lines[..|lines| - 1]);
    }
  }

  /** Splitting into lines drops no byte. */
  lemma {:induction false} LinesKeepBytes(s: string)
    ensures Flatten(Lines(s)) == s
    decreases |s|
  {
    if s != [] {
      var n := LineLength(s);
      LinesKeepBytes(s[n..]);
      FlattenPrepend(s[..n], Lines(s[n..]));
      assert s == s[..n] + s[n..];
    }
  }

  // ----- What the lines are -----

  /** A line that ends: its terminator, `\n`, `\r` or `\r\n`, is at its end and
      nowhere else. */
  ghost predicate Ended(line: string)
  {
    && line != [] && Terminator(line[|line| - 1])
    && forall i :: 0 <= i < |line| - 1 && Terminator(line[i]) ==> i == |line| - 2 && line[i] == '\r' && line[i + 1] == '\n'
  }

  ghost predicate Unended(line: string) { line != [] && forall i :: 0 <= i < |line| ==> !Terminator(line[i]) }

  /** `\r` at the end of one and `\n` at the start of the other. */
  predicate Torn(line: string, next: string)
  {
    line != [] && line[|line| - 1] == '\r' && next != [] && next[0] == '\n'
  }

  /** The text cut after every terminator and nowhere else. */
  ghost predicate AreLines(lines: seq<string>, s: string)
  {
    && Flatten(lines) == s
    && (forall i :: 0 <= i < |lines| - 1 ==> Ended(lines[i]) && !Torn(lines[i], lines[i + 1]))
    && (lines != [] ==> Ended(lines[|lines| - 1]) || Unended(lines[|lines| - 1]))
  }

  lemma {:induction false} FirstLine(s: string)
    requires s != []
    ensures var n := LineLength(s);
            || (Ended(s[..n]) && !Torn(s[..n], s[n..]))
            || (Unended(s) && n == |s|)
  {
    var n := LineLength(s);
    var line := s[..n];
    if s[0] == '\r' && |s| > 1 && s[1] == '\n' {
      assert line == "\r\n";
    } else if !Terminator(s[0]) && |s| > 1 {
      FirstLine(s[1..]);
      var rest := s[1..][..n - 1];
      assert line == [s[0]] + rest && s[1..][n - 1..] == s[n..];
      assert forall i :: 0 < i < n ==> line[i] == rest[i - 1];
    }
  }

  lemma {:induction false} FirstLineOnly(line: string, rest: string)
    requires (Ended(line) && !Torn(line, rest)) || (Unended(line) && rest == [])
    ensures LineLength(line + rest) == |line|
  {
    var s := line + rest;
    if |line| > 1 && !Terminator(line[0]) {
      assert s[1..] == line[1..] + rest;
      assert forall i :: 0 <= i < |line| - 1 ==> line[1..][i] == line[i + 1];
      FirstLineOnly(line[1..], rest);
    }
  }

  lemma NextLine(s: string)
    requires s != []
    ensures Lines(s) == [s[..LineLength(s)]] + Lines(s[LineLength(s)..])
    ensures Lines(s)[0][0] == s[0]
  {
  }

  lemma {:induction false} LinesAreLines(s: string)
    ensures AreLines(Lines(s), s)
    decreases |s|
  {
    LinesKeepBytes(s);
    if s != [] {
      var n, lines := LineLength(s), Lines(s);
      NextLine(s);
      FirstLine(s);
      LinesAreLines(s[n..]);
      hide Ended, Unended, Flatten, Lines;
      var rest := Lines(s[n..]);
      assert forall i :: 0 < i < |lines| ==> lines[i] == rest[i - 1];
      assert s[..|s|] == s;
      if n < |s| { NextLine(s[n..]); } else { NoLines(s[n..]); }
    }
  }

  lemma NoLines(s: string)
    ensures Lines(s) == [] <==> s == []
  {
  }

  lemma {:induction false} LinesUnique(lines: seq<string>, s: string)
    requires AreLines(lines, s)
    ensures lines == Lines(s)
    decreases |lines|
  {
    if lines != [] {
      var first, later := lines[0], lines[1..];
      assert lines == [first] + later;
      FlattenPrepend(first, later);
      var rest := Flatten(later);
      hide Ended, Unended, Lines;
      assert forall i :: 0 <= i < |later| ==> later[i] == lines[i + 1];
      FirstOfRest(later);
      FirstLineOnly(first, rest);
      LineNonempty(first);
      NextLine(s);
      assert s[..|first|] == first && s[|first|..] == rest;
      LinesUnique(later, rest);
    }
  }

  lemma LineNonempty(line: string)
    requires Ended(line) || Unended(line)
    ensures line != []
  {
  }

  lemma FirstOfRest(lines: seq<string>)
    requires forall i :: 0 <= i < |lines| ==> Ended(lines[i]) || Unended(lines[i])
    ensures Flatten(lines) == [] <==> lines == []
    ensures lines != [] ==> Flatten(lines) != [] && lines[0] != [] && Flatten(lines)[0] == lines[0][0]
  {
    if lines != [] {
      assert lines == [lines[0]] + lines[1..];
      FlattenPrepend(lines[0], lines[1..]);
      LineNonempty(lines[0]);
    }
  }

  /** The lines of a text are the one cutting of it after every terminator and
      nowhere else. */
  lemma LinesExact(lines: seq<string>, s: string)
    ensures lines == Lines(s) <==> AreLines(lines, s)
  {
    LinesAreLines(s);
    if AreLines(lines, s) { LinesUnique(lines, s); }
  }

  // ----- The recogniser -----

  datatype Position = Position(out: nat, err: nat)

  ghost predicate Reached(positions: set<Position>, lines: seq<string>, out: seq<string>, err: seq<string>)
  {
    forall q: Position :: q in positions <==> At(lines, out, err, q.out, q.err)
  }

  predicate Moves(p: Position, q: Position, line: string, out: seq<string>, err: seq<string>)
  {
    || (p.out < |out| && out[p.out] == line && q == Position(p.out + 1, p.err))
    || (p.err < |err| && err[p.err] == line && q == Position(p.out, p.err + 1))
  }

  lemma MovesReach(positions: set<Position>, lines: seq<string>, line: string, out: seq<string>, err: seq<string>, q: Position)
    requires Reached(positions, lines, out, err)
    ensures (exists p :: p in positions && Moves(p, q, line, out, err)) <==> At(lines + [line], out, err, q.out, q.err)
  {
    AtStep(lines, line, out, err, q.out, q.err);
    if At(lines + [line], out, err, q.out, q.err) {
      if 0 < q.out <= |out| && out[q.out - 1] == line && At(lines, out, err, q.out - 1, q.err) {
        var p := Position(q.out - 1, q.err);
        assert p in positions && Moves(p, q, line, out, err);
      } else {
        var p := Position(q.out, q.err - 1);
        assert p in positions && Moves(p, q, line, out, err);
      }
    }
  }

  /** One line: advance every position that the line allows. Each position
      accounts for every line read. */
  method Advance(positions: set<Position>, line: string, out: seq<string>, err: seq<string>, ghost lines: seq<string>)
    returns (following: set<Position>)
    requires Reached(positions, lines, out, err)
    ensures Reached(following, lines + [line], out, err)
    ensures forall q: Position :: q in following ==> q.out + q.err == |lines| + 1
  {
    following := {};
    var pending := positions;
    while pending != {}
      invariant pending <= positions
      invariant forall q :: q in following <==> exists p :: p in positions - pending && Moves(p, q, line, out, err)
    {
      var p :| p in pending;
      ghost var before, left := following, pending;
      pending := pending - {p};
      if p.out < |out| && out[p.out] == line { following := following + {Position(p.out + 1, p.err)}; }
      if p.err < |err| && err[p.err] == line { following := following + {Position(p.out, p.err + 1)}; }
      forall q ensures q in following <==> exists r :: r in positions - pending && Moves(r, q, line, out, err) {
        if q in before {
          var r :| r in positions - left && Moves(r, q, line, out, err);
          assert r in positions - pending;
        }
        if Moves(p, q, line, out, err) { assert p in positions - pending; }
      }
    }
    forall q: Position ensures q in following <==> At(lines + [line], out, err, q.out, q.err) {
      assert positions - {} == positions;
      MovesReach(positions, lines, line, out, err, q);
    }
    forall q: Position | q in following ensures q.out + q.err == |lines| + 1 {
      InterleavesLength(lines + [line], out[..q.out], err[..q.err]);
    }
  }

  /** True exactly when the combined lines merge the two streams' lines; the
      positions after each line are exactly those an interleaving can stand at. */
  method MergedExact(combined: string, stdout: string, stderr: string) returns (merged: bool)
    ensures merged <==> Interleaves(Lines(combined), Lines(stdout), Lines(stderr))
    ensures merged ==> Interleaves(combined, stdout, stderr)
  {
    var lines, out, err := Lines(combined), Lines(stdout), Lines(stderr);
    var positions: set<Position> := {Position(0, 0)};
    AtStart(out, err);
    for k := 0 to |lines|
      invariant Reached(positions, lines[..k], out, err)
    {
      var following := Advance(positions, lines[k], out, err, lines[..k]);
      assert lines[..k + 1] == lines[..k] + [lines[k]];
      positions := following;
      if positions == {} {
        NowhereLeft(lines, out, err, k + 1);
        return false;
      }
    }
    assert lines[..|lines|] == lines && out[..|out|] == out && err[..|err|] == err;
    merged := Position(|out|, |err|) in positions;
    if merged {
      LinesKeepBytes(combined);
      LinesKeepBytes(stdout);
      LinesKeepBytes(stderr);
      BytesInterleave(lines, out, err);
    }
  }

  lemma AtStart(out: seq<string>, err: seq<string>)
    ensures Reached({Position(0, 0)}, [], out, err)
  {
    forall q: Position ensures q == Position(0, 0) <==> At([], out, err, q.out, q.err) {
      if q.out <= |out| && q.err <= |err| {
        assert out[..q.out] == [] <==> q.out == 0;
        assert err[..q.err] == [] <==> q.err == 0;
      }
    }
  }

  /** A merge of all the lines passes through a merge of the first `k`. */
  lemma {:induction false} PassesThrough<T>(lines: seq<T>, out: seq<T>, err: seq<T>, k: nat) returns (o: nat, e: nat)
    requires Interleaves(lines, out, err) && k <= |lines|
    ensures o <= |out| && e <= |err| && Interleaves(lines[..k], out[..o], err[..e])
    decreases |lines|
  {
    if k == |lines| {
      o, e := |out|, |err|;
      assert lines[..k] == lines && out[..o] == out && err[..e] == err;
    } else {
      var before, last := lines[..|lines| - 1], lines[|lines| - 1];
      assert before[..k] == lines[..k];
      if out != [] && out[|out| - 1] == last && Interleaves(before, out[..|out| - 1], err) {
        o, e := PassesThrough(before, out[..|out| - 1], err, k);
        assert out[..|out| - 1][..o] == out[..o];
      } else {
        o, e := PassesThrough(before, out, err[..|err| - 1], k);
        assert err[..|err| - 1][..e] == err[..e];
      }
    }
  }

  lemma NowhereLeft(lines: seq<string>, out: seq<string>, err: seq<string>, k: nat)
    requires k <= |lines| && Reached({}, lines[..k], out, err)
    ensures !Interleaves(lines, out, err)
  {
    if Interleaves(lines, out, err) {
      var o, e := PassesThrough(lines, out, err, k);
      assert At(lines[..k], out, err, Position(o, e).out, Position(o, e).err);
    }
  }

  // ----- From lines to bytes -----

  lemma {:induction false} AppendToOut<T>(combined: seq<T>, out: seq<T>, err: seq<T>, more: seq<T>)
    requires Interleaves(combined, out, err)
    ensures Interleaves(combined + more, out + more, err)
    decreases |more|
  {
    if more == [] {
      assert combined + more == combined && out + more == out;
    } else {
      var fewer, last := more[..|more| - 1], more[|more| - 1];
      AppendToOut(combined, out, err, fewer);
      assert (combined + more)[..|combined + more| - 1] == combined + fewer;
      assert (out + more)[..|out + more| - 1] == out + fewer;
    }
  }

  lemma {:induction false} AppendToErr<T>(combined: seq<T>, out: seq<T>, err: seq<T>, more: seq<T>)
    requires Interleaves(combined, out, err)
    ensures Interleaves(combined + more, out, err + more)
    decreases |more|
  {
    if more == [] {
      assert combined + more == combined && err + more == err;
    } else {
      var fewer, last := more[..|more| - 1], more[|more| - 1];
      AppendToErr(combined, out, err, fewer);
      assert (combined + more)[..|combined + more| - 1] == combined + fewer;
      assert (err + more)[..|err + more| - 1] == err + fewer;
    }
  }

  /** A merge of lines is a merge of their bytes: none dropped, none reordered. */
  lemma {:induction false} BytesInterleave(lines: seq<string>, out: seq<string>, err: seq<string>)
    requires Interleaves(lines, out, err)
    ensures Interleaves(Flatten(lines), Flatten(out), Flatten(err))
    decreases |lines|
  {
    if lines != [] {
      var before, last := lines[..|lines| - 1], lines[|lines| - 1];
      if out != [] && out[|out| - 1] == last && Interleaves(before, out[..|out| - 1], err) {
        BytesInterleave(before, out[..|out| - 1], err);
        AppendToOut(Flatten(before), Flatten(out[..|out| - 1]), Flatten(err), last);
      } else {
        BytesInterleave(before, out, err[..|err| - 1]);
        AppendToErr(Flatten(before), Flatten(out), Flatten(err[..|err| - 1]), last);
      }
    }
  }
}
