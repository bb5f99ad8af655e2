/** The board's pipe-table rows: cutting a line into cells at unescaped pipes,
    and the writer it undoes. */
module BoardRows {
  import opened Seqs

  function StripRight(s: string): (r: string)
  {
    if s != [] && IsSpace(s[|s| - 1]) then StripRight(s[..|s| - 1]) else s
  }

  function Strip(s: string): (r: string) { StripRight(StripLeft(s)) }

  /** Cut at each `|` that no `\` stands before; `escaped` says whether one
      stood just before this text. */
  function Cut(s: string, escaped: bool): (pieces: seq<string>)
    ensures |pieces| >= 1
  {
    if s == [] then [[]]
    else
      var rest := Cut(s[1..], s[0] == '\\');
      if s[0] == '|' && !escaped then [[]] + rest else [[s[0]] + rest[0]] + rest[1..]
  }

  /** `replace("\\|", "|")`. */
  function Unescape(s: string): (r: string)
  {
    if s == [] then []
    else if |s| >= 2 && s[0] == '\\' && s[1] == '|' then ['|'] + Unescape(s[2..])
    else [s[0]] + Unescape(s[1..])
  }

  function Cleaned(pieces: seq<string>): (cells: seq<string>)
    ensures |cells| == |pieces|
  {
    if pieces == [] then [] else [Strip(Unescape(pieces[0]))] + Cleaned(pieces[1..])
  }

  /** The cells between the first and the last cut. */
  function RowCells(line: string): (cells: seq<string>)
  {
    var pieces := Cut(line, false);
    if |pieces| < 2 then [] else Cleaned(pieces[1..|pieces| - 1])
  }

  // ----- The writer -----

  function Escaped(c: char): (s: string) { if c == '|' then "\\|" else [c] }

  function Escape(cell: string): (s: string)
  {
    if cell == [] then []
    else Escaped(cell[0]) + Escape(cell[1..])
  }

  /** A cell with the white space around it. */
  datatype Spaced = Spaced(left: string, cell: string, right: string)

  function Padded(c: Spaced): string { c.left + Escape(c.cell) + c.right }

  function WriteCells(cells: seq<Spaced>): (line: string)
  {
    if cells == [] then [] else Padded(cells[0]) + "|" + WriteCells(cells[1..])
  }

  function Evenly(cells: seq<string>): (spaced: seq<Spaced>) { seq(|cells|, i requires 0 <= i < |cells| => Spaced(" ", cells[i], " ")) }

  /** `| a | b |`, each pipe inside a cell escaped. */
  function WriteRow(cells: seq<string>): (line: string) { "|" + WriteCells(Evenly(cells)) }

  // ----- Reading undoes writing -----

  predicate Guarded(s: string, i: nat, escaped: bool)
    requires i < |s|
  {
    if i == 0 then escaped else s[i - 1] == '\\'
  }

  /** No cut falls inside this text. */
  ghost predicate Uncut(s: string, escaped: bool)
  {
    forall i :: 0 <= i < |s| && s[i] == '|' ==> Guarded(s, i, escaped)
  }

  lemma {:induction false} CutText(text: string, rest: string, escaped: bool)
    requires Uncut(text, escaped)
    requires if text == [] then !escaped else text[|text| - 1] != '\\'
    ensures Cut(text + "|" + rest, escaped) == [text] + Cut(rest, false)
  {
    var s := text + "|" + rest;
    if text == [] {
      assert s == "|" + rest && s[1..] == rest;
    } else {
      var tail := text[1..];
      assert s[1..] == tail + "|" + rest;
      forall i | 0 <= i < |tail| && tail[i] == '|' ensures Guarded(tail, i, text[0] == '\\') {
        assert text[i + 1] == '|' && Guarded(text, i + 1, escaped);
      }
      CutText(tail, rest, text[0] == '\\');
      assert text[0] == '|' ==> Guarded(text, 0, escaped);
      assert [text[0]] + tail == text;
    }
  }

  lemma {:induction false} EscapeUncut(cell: string)
    ensures Uncut(Escape(cell), false)
    ensures Escape(cell) != [] ==> Escape(cell)[0] != '|'
  {
    if cell != [] {
      EscapeUncut(cell[1..]);
      var rest := Escape(cell[1..]);
      var s := Escape(cell);
      var head := Escaped(cell[0]);
      forall i | 0 <= i < |s| && s[i] == '|' ensures Guarded(s, i, false) {
        if i >= |head| {
          assert s[i] == rest[i - |head|] && Guarded(rest, i - |head|, false);
          assert s[i - 1] == rest[i - |head| - 1];
        }
      }
    }
  }

  ghost predicate Blank(s: string) { forall i :: 0 <= i < |s| ==> IsSpace(s[i]) }

  /** Any white space, or none, on each side of a trimmed cell; a cell that ends
      in a backslash needs some on its right, or its pipe would be escaped. */
  ghost predicate WellSpaced(c: Spaced)
  {
    && Blank(c.left) && Blank(c.right) && Strip(c.cell) == c.cell
    && (c.right == [] && c.cell != [] ==> c.cell[|c.cell| - 1] != '\\')
  }

  lemma {:induction false} EscapeEnds(cell: string)
    requires cell != []
    ensures Escape(cell) != [] && Escape(cell)[|Escape(cell)| - 1] == cell[|cell| - 1]
  {
    if |cell| > 1 { EscapeEnds(cell[1..]); }
  }

  lemma PaddedUncut(c: Spaced)
    requires WellSpaced(c)
    ensures Uncut(Padded(c), false) && (Padded(c) != [] ==> Padded(c)[|Padded(c)| - 1] != '\\')
  {
    EscapeUncut(c.cell);
    var e, s, n := Escape(c.cell), Padded(c), |c.left|;
    forall i | 0 <= i < |s| && s[i] == '|' ensures Guarded(s, i, false) {
      assert n <= i < n + |e|;
      assert s[i] == e[i - n] && Guarded(e, i - n, false);
      assert s[i - 1] == e[i - n - 1];
    }
    if c.right != [] {
      assert s[|s| - 1] == c.right[|c.right| - 1];
    } else if c.cell != [] {
      EscapeEnds(c.cell);
      assert s[|s| - 1] == e[|e| - 1];
    } else if s != [] {
      assert s[|s| - 1] == c.left[n - 1];
    }
  }

  lemma UnescapeStep(c: char, tail: string)
    requires tail == [] || tail[0] != '|'
    ensures Unescape(Escaped(c) + tail) == [c] + Unescape(tail)
  {
    var s := Escaped(c) + tail;
    if c == '|' {
      assert s[0] == '\\' && s[1] == '|' && s[2..] == tail;
    } else {
      assert s[0] == c && s[1..] == tail;
    }
  }

  lemma EscapeStep(cell: string, rest: string)
    requires cell != []
    ensures Escape(cell) + rest == Escaped(cell[0]) + (Escape(cell[1..]) + rest)
  {
    hide Escaped;
  }

  lemma FirstApart(cell: string, rest: string)
    requires cell != []
    ensures cell + rest == [cell[0]] + (cell[1..] + rest)
  {
  }

  lemma {:induction false} UnescapeEscape(cell: string, rest: string)
    requires rest == [] || rest[0] != '|'
    ensures Unescape(Escape(cell) + rest) == cell + Unescape(rest)
  {
    if cell == [] {
      assert Escape(cell) + rest == rest && cell + Unescape(rest) == Unescape(rest);
    } else {
      var later := cell[1..];
      EscapeUncut(later);
      hide Unescape, Uncut, Escaped, Escape;
      TailKeepsClear(Escape(later), rest);
      EscapeStep(cell, rest);
      UnescapeStep(cell[0], Escape(later) + rest);
      UnescapeEscape(later, rest);
      FirstApart(cell, Unescape(rest));
    }
  }

  lemma TailKeepsClear(a: string, b: string)
    requires (a == [] || a[0] != '|') && (b == [] || b[0] != '|')
    ensures a + b == [] || (a + b)[0] != '|'
  {
  }

  lemma {:induction false} UnescapeBlank(blank: string, rest: string)
    requires Blank(blank)
    ensures Unescape(blank + rest) == blank + Unescape(rest)
  {
    if blank == [] {
      assert blank + rest == rest && blank + Unescape(rest) == Unescape(rest);
    } else {
      UnescapeBlank(blank[1..], rest);
      assert IsSpace(blank[0]) && (blank + rest)[1..] == blank[1..] + rest;
      FirstApart(blank, Unescape(rest));
    }
  }

  lemma {:induction false} StripLeftBlank(blank: string, s: string)
    requires Blank(blank)
    ensures StripLeft(blank + s) == StripLeft(s)
  {
    if blank == [] {
      assert blank + s == s;
    } else {
      StripLeftBlank(blank[1..], s);
      assert IsSpace(blank[0]) && (blank + s)[1..] == blank[1..] + s;
    }
  }

  lemma {:induction false} StripRightBlank(s: string, blank: string)
    requires Blank(blank)
    ensures StripRight(s + blank) == StripRight(s)
    decreases |blank|
  {
    if blank == [] {
      assert s + blank == s;
    } else {
      var last := |blank| - 1;
      StripRightBlank(s, blank[..last]);
      assert IsSpace(blank[last]) && (s + blank)[..|s + blank| - 1] == s + blank[..last];
    }
  }

  lemma PaddedReads(c: Spaced)
    requires WellSpaced(c)
    ensures Unescape(Padded(c)) == c.left + (c.cell + c.right)
  {
    hide Escape, Strip;
    UnescapeBlank(c.right, []);
    assert c.right + [] == c.right;
    RightClear(c);
    UnescapeEscape(c.cell, c.right);
    assert Padded(c) == c.left + (Escape(c.cell) + c.right);
    UnescapeBlank(c.left, Escape(c.cell) + c.right);
  }

  lemma RightClear(c: Spaced)
    requires WellSpaced(c)
    ensures c.right == [] || c.right[0] != '|'
  {
    if c.right != [] { assert IsSpace(c.right[0]); }
  }

  lemma PaddedStrips(c: Spaced)
    requires WellSpaced(c)
    ensures Strip(Unescape(Padded(c))) == c.cell
  {
    PaddedReads(c);
    TrimmedEnds(c.cell);
    StripLeftBlank(c.left, c.cell + c.right);
    StripRightBlank(c.cell, c.right);
    if c.cell == [] {
      assert c.cell + c.right == c.right && c.right + [] == c.right;
      StripLeftBlank(c.right, []);
    } else {
      assert StripLeft(c.cell + c.right) == c.cell + c.right;
    }
  }

  lemma {:induction false} StripLeftShorter(s: string)
    ensures |StripLeft(s)| <= |s| && (|StripLeft(s)| == |s| ==> StripLeft(s) == s)
  {
    if s != [] && IsSpace(s[0]) { StripLeftShorter(s[1..]); }
  }

  lemma {:induction false} StripRightShorter(s: string)
    ensures |StripRight(s)| <= |s| && (|StripRight(s)| == |s| ==> StripRight(s) == s)
  {
    if s != [] && IsSpace(s[|s| - 1]) { StripRightShorter(s[..|s| - 1]); }
  }

  /** A trimmed cell neither starts nor ends with a space. */
  lemma TrimmedEnds(cell: string)
    requires Strip(cell) == cell
    ensures StripLeft(cell) == cell && StripRight(cell) == cell
    ensures cell != [] ==> !IsSpace(cell[0]) && !IsSpace(cell[|cell| - 1])
  {
    StripLeftShorter(cell);
    StripRightShorter(StripLeft(cell));
    if cell != [] && IsSpace(cell[0]) { StripLeftShorter(cell[1..]); }
    if cell != [] && IsSpace(cell[|cell| - 1]) { StripRightShorter(cell[..|cell| - 1]); }
  }

  function Plain(cells: seq<Spaced>): (plain: seq<string>) { seq(|cells|, i requires 0 <= i < |cells| => cells[i].cell) }

  lemma {:induction false} CellsCut(cells: seq<Spaced>)
    requires forall i :: 0 <= i < |cells| ==> WellSpaced(cells[i])
    ensures var pieces := Cut(WriteCells(cells), false);
            |pieces| == |cells| + 1 && Cleaned(pieces[..|cells|]) == Plain(cells)
  {
    hide Strip, Unescape, Padded, Uncut, WellSpaced;
    if cells != [] {
      var rest := cells[1..];
      CellsCut(rest);
      PaddedUncut(cells[0]);
      CutText(Padded(cells[0]), WriteCells(rest), false);
      PaddedStrips(cells[0]);
      var pieces := Cut(WriteCells(cells), false);
      assert pieces[1..] == Cut(WriteCells(rest), false);
      assert pieces[..|cells|] == [pieces[0]] + pieces[1..][..|rest|];
      assert Plain(cells) == [cells[0].cell] + Plain(rest);
    }
  }

  lemma InnerPieces(inner: seq<string>)
    requires inner != []
    ensures ([""] + inner)[1..|inner|] == inner[..|inner| - 1]
  {
  }

  lemma RowCut(rest: string)
    ensures Cut("|" + rest, false) == [""] + Cut(rest, false)
  {
    CutText("", rest, false);
    assert "" + "|" + rest == "|" + rest;
  }

  /** A row of trimmed cells, pipes and backslashes anywhere in them, reads as
      its cells, whatever white space stands around each. */
  lemma SpacedRowReads(cells: seq<Spaced>)
    requires cells != [] && forall i :: 0 <= i < |cells| ==> WellSpaced(cells[i])
    ensures RowCells("|" + WriteCells(cells)) == Plain(cells)
  {
    hide WellSpaced, WriteCells, Cut, Cleaned;
    CellsCut(cells);
    RowCut(WriteCells(cells));
    InnerPieces(Cut(WriteCells(cells), false));
  }

  /** A row reads back as it was written. */
  lemma RowRoundTrip(cells: seq<string>)
    requires cells != [] && forall i :: 0 <= i < |cells| ==> Strip(cells[i]) == cells[i]
    ensures RowCells(WriteRow(cells)) == cells
  {
    SpacedRowReads(Evenly(cells));
    assert Plain(Evenly(cells)) == cells;
  }
}
