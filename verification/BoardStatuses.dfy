/** Two verifiers read one board: the closure verifier through its ticket
    tables, the board verifier line by line. When the first has no complaint
    both read the same tickets with the same statuses, one line each. */
module BoardStatuses {
  import opened Seqs
  import opened BoardRows
  import opened BoardRules

  const TICKET_TABLE_HEADER := "Ticket"
  const TICKET_TABLE_COLUMNS: nat := 4
  const MINIMUM_TICKET_ROWS: nat := 147

  predicate IsRow(line: string) { line != [] && line[0] == '|' }

  /** A pipe, then spaces, colons, pipes and hyphens, then a pipe. */
  predicate IsSeparator(line: string)
  {
    && |line| >= 3 && line[0] == '|' && line[|line| - 1] == '|'
    && forall i :: 0 < i < |line| - 1 ==> IsSpace(line[i]) || line[i] in {':', '|', '-'}
  }

  predicate IsTicketId(s: string)
  {
    && |s| >= 2 && 'A' <= s[0] <= 'Z'
    && forall i :: 0 < i < |s| ==> 'A' <= s[i] <= 'Z' || '0' <= s[i] <= '9' || s[i] == '-'
  }

  // ----- The board verifier: any line -----

  datatype Ticket = Ticket(id: string, status: string)

  function TicketRow(line: string): (row: Option<Ticket>)
  {
    if !IsRow(line) then None
    else
      var cells := RowCells(line);
      if |cells| < 4 || !IsTicketId(cells[0]) || cells[1] !in TICKET_STATUSES then None
      else Some(Ticket(cells[0], cells[1]))
  }

  /** Each ticket stands on one line only. */
  ghost predicate OneLineEach(lines: seq<string>)
  {
    forall n, m :: 0 <= n < m < |lines| && TicketRow(lines[n]).Some? && TicketRow(lines[m]).Some? ==>
      TicketRow(lines[n]).value.id != TicketRow(lines[m]).value.id
  }

  predicate Has(statuses: map<string, string>, id: string, status: string)
  {
    id in statuses && statuses[id] == status
  }

  predicate Says(lines: seq<string>, id: string, status: string)
  {
    exists n :: 0 <= n < |lines| && TicketRow(lines[n]) == Some(Ticket(id, status))
  }

  /** The map holds exactly what the lines say. */
  ghost predicate ReadFrom(lines: seq<string>, statuses: map<string, string>)
  {
    forall id, status :: Has(statuses, id, status) <==> Says(lines, id, status)
  }

  lemma ReadFromUnique(lines: seq<string>, a: map<string, string>, b: map<string, string>)
    requires ReadFrom(lines, a) && ReadFrom(lines, b)
    ensures a == b
  {
    hide Says;
    forall id | id in a ensures id in b && a[id] == b[id] {
      assert Has(a, id, a[id]);
    }
    forall id | id in b ensures id in a {
      assert Has(b, id, b[id]);
    }
  }

  /** The board verifier's own reading: the first row of a ticket counts, a
      second is a complaint. */
  method ReadBoard(lines: seq<string>) returns (tickets: map<string, string>, repeats: seq<string>)
    ensures repeats == [] <==> OneLineEach(lines)
    ensures repeats == [] ==> ReadFrom(lines, tickets)
  {
    hide TicketRow, ReadFrom, OneLineEach, Names;
    Empty();
    tickets, repeats := map[], [];
    for i := 0 to |lines|
      invariant forall id :: id in tickets <==> Names(lines[..i], id)
      invariant repeats == [] <==> OneLineEach(lines[..i])
      invariant repeats == [] ==> ReadFrom(lines[..i], tickets)
    {
      var row := TicketRow(lines[i]);
      assert lines[..i + 1] == lines[..i] + [lines[i]];
      OneLineSnoc(lines[..i], lines[i]);
      ReadFromSnoc(lines[..i], lines[i], tickets);
      NamesSnoc(lines[..i], lines[i]);
      if row.Some? {
        if row.value.id in tickets {
          repeats := repeats + [row.value.id];
        } else {
          tickets := tickets[row.value.id := row.value.status];
        }
      }
    }
    assert lines[..|lines|] == lines;
  }

  lemma Empty()
    ensures OneLineEach([]) && ReadFrom([], map[]) && forall id :: !Names([], id)
  {
  }

  ghost predicate Names(lines: seq<string>, id: string)
  {
    exists n :: 0 <= n < |lines| && TicketRow(lines[n]).Some? && TicketRow(lines[n]).value.id == id
  }

  lemma NamesSnoc(lines: seq<string>, line: string)
    ensures forall id :: Names(lines + [line], id) <==>
              Names(lines, id) || (TicketRow(line).Some? && TicketRow(line).value.id == id)
  {
    hide TicketRow;
    var now := lines + [line];
    forall id
      ensures Names(now, id) <==> Names(lines, id) || (TicketRow(line).Some? && TicketRow(line).value.id == id)
    {
      if n :| 0 <= n < |now| && TicketRow(now[n]).Some? && TicketRow(now[n]).value.id == id {
        if n < |lines| { assert now[n] == lines[n]; }
      }
      if n :| 0 <= n < |lines| && TicketRow(lines[n]).Some? && TicketRow(lines[n]).value.id == id {
        assert now[n] == lines[n];
      }
      assert now[|lines|] == line;
    }
  }

  lemma OneLineSnoc(lines: seq<string>, line: string)
    ensures OneLineEach(lines + [line]) <==>
            && OneLineEach(lines)
            && (TicketRow(line).Some? ==> !Names(lines, TicketRow(line).value.id))
  {
    hide TicketRow;
    var now := lines + [line];
    assert forall n :: 0 <= n < |lines| ==> now[n] == lines[n];
    assert now[|lines|] == line;
    if OneLineEach(now) {
      forall n, m | 0 <= n < m < |lines| && TicketRow(lines[n]).Some? && TicketRow(lines[m]).Some?
        ensures TicketRow(lines[n]).value.id != TicketRow(lines[m]).value.id
      {
        assert now[n] == lines[n] && now[m] == lines[m];
      }
      forall n | 0 <= n < |lines| && TicketRow(lines[n]).Some? && TicketRow(line).Some?
        ensures TicketRow(lines[n]).value.id != TicketRow(line).value.id
      {
        assert now[n] == lines[n];
      }
    }
  }

  lemma ReadFromSnoc(lines: seq<string>, line: string, statuses: map<string, string>)
    ensures ReadFrom(lines, statuses) && TicketRow(line).None? ==> ReadFrom(lines + [line], statuses)
    ensures ReadFrom(lines, statuses) && TicketRow(line).Some? && TicketRow(line).value.id !in statuses ==>
              ReadFrom(lines + [line], statuses[TicketRow(line).value.id := TicketRow(line).value.status])
  {
    hide TicketRow;
    if ReadFrom(lines, statuses) {
      var now := lines + [line];
      var row := TicketRow(line);
      if row.None? || row.value.id !in statuses {
        var more := if row.None? then statuses else statuses[row.value.id := row.value.status];
        forall id, status ensures Has(more, id, status) <==> Says(now, id, status) {
          assert Has(statuses, id, status) <==> Says(lines, id, status);
          if n :| 0 <= n < |now| && TicketRow(now[n]) == Some(Ticket(id, status)) {
            if n < |lines| { assert now[n] == lines[n]; } else { assert now[n] == line; }
          }
          if id in more && more[id] == status {
            if row.Some? && id == row.value.id {
              assert now[|lines|] == line;
            } else {
              var n :| 0 <= n < |lines| && TicketRow(lines[n]) == Some(Ticket(id, status));
              assert now[n] == lines[n];
            }
          }
        }
      }
    }
  }

  // ----- The closure verifier: the ticket tables -----

  /** A table's header line, and where its rows stop. */
  datatype Table = Table(head: nat, end: nat)

  function RowsEnd(lines: seq<string>, cursor: nat): (end: nat)
    requires cursor <= |lines|
    ensures cursor <= end <= |lines|
    ensures forall n :: cursor <= n < end ==> IsRow(lines[n])
    decreases |lines| - cursor
  {
    if cursor < |lines| && IsRow(lines[cursor]) then RowsEnd(lines, cursor + 1) else cursor
  }

  predicate StartsTable(lines: seq<string>, index: nat)
  {
    index + 1 < |lines| && IsRow(lines[index]) && IsSeparator(lines[index + 1])
  }

  predicate TableOk(lines: seq<string>, table: Table)
  {
    table.head + 2 <= table.end <= |lines| && forall n :: table.head + 2 <= n < table.end ==> IsRow(lines[n])
  }

  /** The tables from a line on: a row followed by a separator, then its rows. */
  function TablesFrom(lines: seq<string>, index: nat): (tables: seq<Table>)
    requires index <= |lines|
    ensures forall i :: 0 <= i < |tables| ==> TableOk(lines, tables[i])
    decreases |lines| - index
  {
    if index == |lines| then []
    else if StartsTable(lines, index) then
      var end := RowsEnd(lines, index + 2);
      [Table(index, end)] + TablesFrom(lines, end)
    else TablesFrom(lines, index + 1)
  }

  method Tables(lines: seq<string>) returns (found: seq<Table>)
    ensures found == TablesFrom(lines, 0)
  {
    found := [];
    var index := 0;
    while index < |lines|
      invariant index <= |lines| && TablesFrom(lines, 0) == found + TablesFrom(lines, index)
    {
      if IsRow(lines[index]) && index + 1 < |lines| && IsSeparator(lines[index + 1]) {
        var cursor := index + 2;
        while cursor < |lines| && IsRow(lines[cursor])
          invariant index + 2 <= cursor <= |lines| && RowsEnd(lines, cursor) == RowsEnd(lines, index + 2)
        {
          cursor := cursor + 1;
        }
        found := found + [Table(index, cursor)];
        index := cursor;
        continue;
      }
      index := index + 1;
    }
  }

  /** A ticket id: a capital, then capitals, digits and hyphens, at least one. */
  lemma TicketIdMeans(s: string)
    ensures IsTicketId(s) <==>
            |s| >= 2 && s[0] in CAPITALS && forall i :: 0 < i < |s| ==> s[i] in CAPITALS || s[i] in DECIMAL_DIGITS || s[i] == '-'
  {
    forall i | 0 <= i < |s| ensures ('A' <= s[i] <= 'Z' <==> s[i] in CAPITALS) && ('0' <= s[i] <= '9' <==> s[i] in DECIMAL_DIGITS) {
      CapitalsAre(s[i]);
      DigitsAre(s[i]);
    }
  }

  /** A separator is spaces, colons, pipes and hyphens between two pipes. */
  lemma SeparatorMeans(middle: string)
    ensures IsSeparator("|" + middle + "|") <==>
            middle != [] && forall i :: 0 <= i < |middle| ==> IsSpace(middle[i]) || middle[i] in ":|-"
  {
    var line := "|" + middle + "|";
    hide IsSpace;
    assert forall i :: 0 <= i < |middle| ==> line[i + 1] == middle[i];
    if IsSeparator(line) {
      forall i | 0 <= i < |middle| ensures IsSpace(middle[i]) || middle[i] in ":|-" {
        assert IsSpace(line[i + 1]) || line[i + 1] in {':', '|', '-'};
        MarksAre(middle[i]);
      }
    }
    if forall i :: 0 <= i < |middle| ==> IsSpace(middle[i]) || middle[i] in ":|-" {
      forall i | 0 < i < |line| - 1 ensures IsSpace(line[i]) || line[i] in {':', '|', '-'} {
        assert line[i] == middle[i - 1];
        MarksAre(middle[i - 1]);
      }
    }
  }

  lemma MarksAre(c: char)
    ensures c in {':', '|', '-'} <==> c in ":|-"
  {
    var marks := ":|-";
    assert marks[0] == ':' && marks[1] == '|' && marks[2] == '-';
  }

  lemma SeparatorShape(line: string)
    requires IsSeparator(line)
    ensures line == "|" + line[1..|line| - 1] + "|"
  {
  }

  /** A written row states its ticket exactly when it has an id, a status and two
      cells more. */
  lemma WrittenRowStates(cells: seq<string>)
    requires cells != [] && forall i :: 0 <= i < |cells| ==> Strip(cells[i]) == cells[i]
    ensures TicketRow(WriteRow(cells)) ==
            if |cells| >= 4 && IsTicketId(cells[0]) && cells[1] in {"PENDING", "ACTIVE", "BLOCKED", "DONE", "DEFERRED"}
            then Some(Ticket(cells[0], cells[1])) else None
  {
    RowRoundTrip(cells);
    hide RowCells, IsTicketId, Strip;
  }

  /** A table starts at a row with a separator under it and runs to the last row
      in one piece. */
  ghost predicate Whole(lines: seq<string>, table: Table)
  {
    && StartsTable(lines, table.head) && table.head + 2 <= table.end <= |lines|
    && (forall n :: table.head + 2 <= n < table.end ==> IsRow(lines[n]))
    && (table.end < |lines| ==> !IsRow(lines[table.end]))
  }

  predicate Covers(table: Table, n: nat) { table.head <= n < table.end }

  predicate Covered(tables: seq<Table>, n: nat) { exists i :: 0 <= i < |tables| && Covers(tables[i], n) }

  lemma CoveredCons(table: Table, tables: seq<Table>, n: nat)
    ensures Covered([table] + tables, n) <==> Covers(table, n) || Covered(tables, n)
  {
    var all := [table] + tables;
    if Covers(table, n) { assert Covers(all[0], n); }
    if Covered(tables, n) {
      var i :| 0 <= i < |tables| && Covers(tables[i], n);
      assert Covers(all[i + 1], n);
    }
    assert forall i :: 0 < i < |all| ==> all[i] == tables[i - 1];
  }

  /** Every table of a board is whole. */
  lemma {:induction false} TablesWhole(lines: seq<string>, index: nat)
    requires index <= |lines|
    ensures forall i :: 0 <= i < |TablesFrom(lines, index)| ==> Whole(lines, TablesFrom(lines, index)[i])
    decreases |lines| - index
  {
    hide IsRow, IsSeparator;
    if index < |lines| {
      if StartsTable(lines, index) {
        var end := RowsEnd(lines, index + 2);
        RowsEndMaximal(lines, index + 2);
        assert Whole(lines, Table(index, end));
        TablesWhole(lines, end);
        hide Whole, StartsTable, RowsEnd;
        assert TablesFrom(lines, index) == [Table(index, end)] + TablesFrom(lines, end);
      } else {
        TablesWhole(lines, index + 1);
      }
    }
  }

  /** And no start of a table lies outside them. */
  lemma {:induction false} StartsCovered(lines: seq<string>, index: nat, n: nat)
    requires index <= n && StartsTable(lines, n)
    ensures Covered(TablesFrom(lines, index), n)
    decreases |lines| - index
  {
    hide IsRow, IsSeparator, Covered;
    if StartsTable(lines, index) {
      var end := RowsEnd(lines, index + 2);
      CoveredCons(Table(index, end), TablesFrom(lines, end), n);
      if end <= n { StartsCovered(lines, end, n); }
    } else {
      StartsCovered(lines, index + 1, n);
    }
  }

  lemma {:induction false} RowsEndMaximal(lines: seq<string>, cursor: nat)
    requires cursor <= |lines|
    ensures RowsEnd(lines, cursor) < |lines| ==> !IsRow(lines[RowsEnd(lines, cursor)])
    decreases |lines| - cursor
  {
    if cursor < |lines| && IsRow(lines[cursor]) { RowsEndMaximal(lines, cursor + 1); }
  }

  predicate IsTicketTable(lines: seq<string>, table: Table)
    requires TableOk(lines, table)
  {
    var header := RowCells(lines[table.head]);
    header != [] && header[0] == TICKET_TABLE_HEADER
  }

  /** A ticket table is one whose header starts with `Ticket`. */
  lemma TicketTableMeans(lines: seq<string>, table: Table, header: seq<string>)
    requires TableOk(lines, table) && header != [] && lines[table.head] == WriteRow(header)
    requires forall i :: 0 <= i < |header| ==> Strip(header[i]) == header[i]
    ensures IsTicketTable(lines, table) <==> header[0] == "Ticket"
  {
    RowRoundTrip(header);
    hide RowCells, Strip;
  }

  /** A line among the rows of a ticket table. */
  ghost predicate Authoritative(lines: seq<string>, tables: seq<Table>, n: nat)
    requires forall i :: 0 <= i < |tables| ==> TableOk(lines, tables[i])
  {
    exists i :: 0 <= i < |tables| && IsTicketTable(lines, tables[i]) && tables[i].head + 2 <= n < tables[i].end
  }

  /** A row the closure verifier can read: four cells, an id and a status. */
  predicate ProperRow(line: string)
  {
    var row := RowCells(line);
    |row| == TICKET_TABLE_COLUMNS && IsTicketId(row[0]) && row[1] in TICKET_STATUSES
  }

  /** A line that looks like a ticket to the stray-row scan. */
  predicate LooksLikeTicket(line: string)
  {
    IsRow(line) && var row := RowCells(line); |row| >= 2 && row[1] in TICKET_STATUSES && IsTicketId(row[0])
  }

  /** What the closure verifier makes of a written row: any with an id and a
      status counts as a ticket to the scan, and only four cells can be read. */
  lemma WrittenRowLooks(cells: seq<string>)
    requires cells != [] && forall i :: 0 <= i < |cells| ==> Strip(cells[i]) == cells[i]
    ensures LooksLikeTicket(WriteRow(cells)) <==>
            |cells| >= 2 && IsTicketId(cells[0]) && cells[1] in {"PENDING", "ACTIVE", "BLOCKED", "DONE", "DEFERRED"}
    ensures ProperRow(WriteRow(cells)) <==> |cells| == 4 && LooksLikeTicket(WriteRow(cells))
  {
    RowRoundTrip(cells);
    hide RowCells, IsTicketId, Strip;
  }

  lemma ProperIsTicket(line: string)
    ensures ProperRow(line) && IsRow(line) ==>
              TicketRow(line) == Some(Ticket(RowCells(line)[0], RowCells(line)[1]))
    ensures TicketRow(line).Some? ==> LooksLikeTicket(line)
  {
  }

  ghost predicate Ascends(tables: seq<Table>, from: nat)
  {
    && (forall i :: 0 <= i < |tables| ==> from <= tables[i].head)
    && (forall i, j :: 0 <= i < j < |tables| ==> tables[i].end <= tables[j].head)
  }

  lemma {:induction false} TablesAscend(lines: seq<string>, index: nat)
    requires index <= |lines|
    ensures Ascends(TablesFrom(lines, index), index)
    decreases |lines| - index
  {
    if index < |lines| {
      if StartsTable(lines, index) {
        TablesAscend(lines, RowsEnd(lines, index + 2));
      } else {
        TablesAscend(lines, index + 1);
      }
    }
  }

  // ----- Reading the ticket tables -----

  predicate StatesAt(lines: seq<string>, n: nat, id: string, status: string)
  {
    n < |lines| && ProperRow(lines[n]) && RowCells(lines[n])[0] == id && RowCells(lines[n])[1] == status
  }

  predicate NamesAt(lines: seq<string>, n: nat, id: string)
  {
    n < |lines| && ProperRow(lines[n]) && RowCells(lines[n])[0] == id
  }

  /** The rows read so far are all proper and name different tickets. */
  ghost predicate Clean(lines: seq<string>, done: set<nat>)
  {
    && (forall n :: n in done ==> n < |lines| && ProperRow(lines[n]))
    && (forall n, m, id :: n in done && m in done && NamesAt(lines, n, id) && NamesAt(lines, m, id) ==> n == m)
  }

  /** The statuses are those of the rows read so far. */
  ghost predicate Gathered(lines: seq<string>, done: set<nat>, statuses: map<string, string>, fine: bool)
  {
    && (forall id :: id in statuses <==> exists n :: n in done && NamesAt(lines, n, id))
    && (fine <==> Clean(lines, done))
    && (fine ==> forall id, status :: Has(statuses, id, status) <==> exists n :: n in done && StatesAt(lines, n, id, status))
  }

  lemma NamedMore(lines: seq<string>, done: set<nat>, n: nat, id: string)
    ensures (exists k :: k in done + {n} && NamesAt(lines, k, id)) <==>
            (exists k :: k in done && NamesAt(lines, k, id)) || NamesAt(lines, n, id)
  {
    hide NamesAt;
    if k :| k in done && NamesAt(lines, k, id) { assert k in done + {n}; }
    assert n in done + {n};
  }

  lemma StatedMore(lines: seq<string>, done: set<nat>, n: nat, id: string, status: string)
    ensures (exists k :: k in done + {n} && StatesAt(lines, k, id, status)) <==>
            (exists k :: k in done && StatesAt(lines, k, id, status)) || StatesAt(lines, n, id, status)
  {
    hide StatesAt;
    if k :| k in done && StatesAt(lines, k, id, status) { assert k in done + {n}; }
    assert n in done + {n};
  }

  lemma CleanMore(lines: seq<string>, done: set<nat>, n: nat)
    requires n < |lines| && n !in done
    ensures Clean(lines, done + {n}) <==>
            && Clean(lines, done) && ProperRow(lines[n])
            && forall m, id :: m in done && NamesAt(lines, m, id) ==> !NamesAt(lines, n, id)
  {
    hide NamesAt, ProperRow;
    if Clean(lines, done + {n}) {
      assert forall m :: m in done ==> m in done + {n};
      assert n in done + {n};
    }
  }

  /** A row that cannot be read, or that repeats a ticket, is a complaint. */
  lemma GatherBad(lines: seq<string>, done: set<nat>, statuses: map<string, string>, fine: bool, n: nat)
    requires Gathered(lines, done, statuses, fine) && n < |lines| && n !in done
    requires !ProperRow(lines[n]) || RowCells(lines[n])[0] in statuses
    ensures Gathered(lines, done + {n}, statuses, false)
  {
    CleanMore(lines, done, n);
    ProperHasCells(lines[n]);
    hide ProperRow, RowCells, Clean;
    if ProperRow(lines[n]) {
      var id := RowCells(lines[n])[0];
      var m :| m in done && NamesAt(lines, m, id);
      assert NamesAt(lines, n, id);
    }
    forall id ensures id in statuses <==> exists k :: k in done + {n} && NamesAt(lines, k, id) {
      NamedMore(lines, done, n, id);
    }
  }

  lemma StatesKept(lines: seq<string>, done: set<nat>, statuses: map<string, string>, n: nat, id: string, status: string)
    requires Gathered(lines, done, statuses, true) && n < |lines| && ProperRow(lines[n])
    requires |RowCells(lines[n])| == TICKET_TABLE_COLUMNS && RowCells(lines[n])[0] !in statuses
    ensures Has(statuses[RowCells(lines[n])[0] := RowCells(lines[n])[1]], id, status) <==>
            exists k :: k in done + {n} && StatesAt(lines, k, id, status)
  {
    StatedMore(lines, done, n, id, status);
    hide ProperRow, RowCells, Clean;
    assert Has(statuses, id, status) <==> exists k :: k in done && StatesAt(lines, k, id, status);
  }

  lemma GatherGood(lines: seq<string>, done: set<nat>, statuses: map<string, string>, fine: bool, n: nat)
    requires Gathered(lines, done, statuses, fine) && n < |lines| && n !in done
    requires ProperRow(lines[n]) && RowCells(lines[n])[0] !in statuses
    ensures Gathered(lines, done + {n}, statuses[RowCells(lines[n])[0] := RowCells(lines[n])[1]], fine)
  {
    CleanMore(lines, done, n);
    ProperHasCells(lines[n]);
    hide ProperRow, RowCells, Clean, StatesAt;
    var row := RowCells(lines[n]);
    var more := statuses[row[0] := row[1]];
    forall id ensures id in more <==> exists k :: k in done + {n} && NamesAt(lines, k, id) {
      NamedMore(lines, done, n, id);
    }
    assert forall m, id :: m in done && NamesAt(lines, m, id) ==> id in statuses;
    if fine {
      forall id, status ensures Has(more, id, status) <==> exists k :: k in done + {n} && StatesAt(lines, k, id, status) {
        StatesKept(lines, done, statuses, n, id, status);
      }
    }
  }

  datatype Complaint = BadRow(line: nat) | StrayTicket(line: nat) | NoTickets | TooFewRows(rows: nat)

  function RowCount(lines: seq<string>, tables: seq<Table>): (rows: nat)
    requires forall i :: 0 <= i < |tables| ==> TableOk(lines, tables[i])
  {
    if tables == [] then 0
    else
      var last := tables[|tables| - 1];
      RowCount(lines, tables[..|tables| - 1]) + (if IsTicketTable(lines, last) then last.end - (last.head + 2) else 0)
  }

  ghost function Rows(lines: seq<string>, tables: seq<Table>): (rows: set<nat>)
    requires forall i :: 0 <= i < |tables| ==> TableOk(lines, tables[i])
  {
    set n | 0 <= n < |lines| && Authoritative(lines, tables, n)
  }

  /** A board the closure verifier reads without complaint. */
  ghost predicate Readable(lines: seq<string>)
  {
    var tables := TablesFrom(lines, 0);
    && Clean(lines, Rows(lines, tables))
    && (forall n :: 0 <= n < |lines| && !Authoritative(lines, tables, n) ==> !LooksLikeTicket(lines[n]))
    && Rows(lines, tables) != {}
    && RowCount(lines, tables) >= MINIMUM_TICKET_ROWS
  }

  ghost function Span(from: nat, to: nat): (s: set<nat>)
    ensures forall n :: n in s <==> from <= n < to
  {
    if from >= to then {} else Span(from, to - 1) + {to - 1}
  }

  method ReadTicketTable(lines: seq<string>, table: Table, statuses0: map<string, string>, errors0: seq<Complaint>, done0: set<nat>)
    returns (statuses: map<string, string>, errors: seq<Complaint>, done: set<nat>)
    requires TableOk(lines, table) && Gathered(lines, done0, statuses0, errors0 == [])
    requires forall n :: n in done0 ==> n < table.head + 2
    ensures done == done0 + Span(table.head + 2, table.end)
    ensures Gathered(lines, done, statuses, errors == [])
  {
    hide Gathered, ProperRow, RowCells;
    statuses, errors, done := statuses0, errors0, done0;
    for n := table.head + 2 to table.end
      invariant done == done0 + Span(table.head + 2, n)
      invariant Gathered(lines, done, statuses, errors == [])
    {
      var proper := ProperRow(lines[n]);
      ProperHasCells(lines[n]);
      if !proper || RowCells(lines[n])[0] in statuses {
        GatherBad(lines, done, statuses, errors == [], n);
        errors := errors + [BadRow(n)];
      } else {
        GatherGood(lines, done, statuses, errors == [], n);
        statuses := statuses[RowCells(lines[n])[0] := RowCells(lines[n])[1]];
      }
      done := done + {n};
    }
  }

  lemma ProperHasCells(line: string)
    ensures ProperRow(line) ==> |RowCells(line)| == TICKET_TABLE_COLUMNS
  {
  }

  lemma RowsSnoc(lines: seq<string>, tables: seq<Table>, i: nat)
    requires i < |tables| && forall k :: 0 <= k < |tables| ==> TableOk(lines, tables[k])
    ensures Rows(lines, tables[..i + 1]) ==
            Rows(lines, tables[..i]) + (if IsTicketTable(lines, tables[i]) then Span(tables[i].head + 2, tables[i].end) else {})
  {
    hide IsTicketTable;
    var before, now := tables[..i], tables[..i + 1];
    forall n | 0 <= n < |lines|
      ensures Authoritative(lines, now, n) <==>
              Authoritative(lines, before, n) || (IsTicketTable(lines, tables[i]) && tables[i].head + 2 <= n < tables[i].end)
    {
      if k :| 0 <= k < |now| && IsTicketTable(lines, now[k]) && now[k].head + 2 <= n < now[k].end {
        if k < i { assert before[k] == now[k]; }
      }
      if k :| 0 <= k < |before| && IsTicketTable(lines, before[k]) && before[k].head + 2 <= n < before[k].end {
        assert now[k] == before[k];
      }
      assert now[i] == tables[i];
    }
  }

  lemma RowsBelow(lines: seq<string>, tables: seq<Table>, i: nat)
    requires i < |tables| && Ascends(tables, 0) && forall k :: 0 <= k < |tables| ==> TableOk(lines, tables[k])
    ensures forall n :: n in Rows(lines, tables[..i]) ==> n < tables[i].head + 2
  {
  }

  /** The closure verifier complains exactly when the board is not readable;
      otherwise its statuses are those of its ticket rows. */
  method ReadStatuses(lines: seq<string>) returns (statuses: map<string, string>, errors: seq<Complaint>)
    ensures errors == [] <==> Readable(lines)
    ensures errors == [] ==> Gathered(lines, Rows(lines, TablesFrom(lines, 0)), statuses, true)
  {
    hide ProperRow, IsTicketTable, LooksLikeTicket, Gathered, Clean, Authoritative;
    var tables := Tables(lines);
    TablesAscend(lines, 0);
    statuses, errors := map[], [];
    GatherNone(lines);
    var rowsSeen: nat := 0;
    var authoritative: set<nat> := {};
    for i := 0 to |tables|
      invariant authoritative == Rows(lines, tables[..i]) && rowsSeen == RowCount(lines, tables[..i])
      invariant Gathered(lines, authoritative, statuses, errors == [])
    {
      RowsSnoc(lines, tables, i);
      RowsBelow(lines, tables, i);
      assert tables[..i + 1][..i] == tables[..i];
      if IsTicketTable(lines, tables[i]) {
        statuses, errors, authoritative := ReadTicketTable(lines, tables[i], statuses, errors, authoritative);
        rowsSeen := rowsSeen + (tables[i].end - (tables[i].head + 2));
      }
    }
    assert tables[..|tables|] == tables;
    ghost var read := errors == [];
    GatheredFine(lines, authoritative, statuses, read);
    for n := 0 to |lines|
      invariant errors == [] <==> read && forall k :: 0 <= k < n && k !in authoritative ==> !LooksLikeTicket(lines[k])
    {
      if n in authoritative { continue; }
      if LooksLikeTicket(lines[n]) {
        errors := errors + [StrayTicket(n)];
      }
    }
    NothingGathered(lines, authoritative, statuses, read);
    if statuses == map[] {
      errors := errors + [NoTickets];
    } else if rowsSeen < MINIMUM_TICKET_ROWS {
      errors := errors + [TooFewRows(rowsSeen)];
    }
  }

  lemma NothingGathered(lines: seq<string>, done: set<nat>, statuses: map<string, string>, fine: bool)
    requires Gathered(lines, done, statuses, fine)
    ensures fine ==> (statuses == map[] <==> done == {})
  {
    hide RowCells, ProperRow;
    if fine && done != {} {
      var n :| n in done;
      assert ProperRow(lines[n]);
      ProperHasCells(lines[n]);
      assert NamesAt(lines, n, RowCells(lines[n])[0]);
      assert RowCells(lines[n])[0] in statuses;
    }
    if done == {} { assert forall id :: id !in statuses; }
  }

  lemma {:induction false} SpanSize(from: nat, to: nat)
    requires from <= to
    ensures |Span(from, to)| == to - from
  {
    if from < to { SpanSize(from, to - 1); }
  }

  lemma {:induction false} RowsCounted(lines: seq<string>, tables: seq<Table>, i: nat)
    requires i <= |tables| && Ascends(tables, 0) && forall k :: 0 <= k < |tables| ==> TableOk(lines, tables[k])
    ensures |Rows(lines, tables[..i])| == RowCount(lines, tables[..i])
  {
    hide IsTicketTable, Authoritative, Rows, Span, TableOk, Ascends, RowCount;
    if i == 0 {
      NoRows(lines);
      assert tables[..0] == [];
    } else {
      RowsCounted(lines, tables, i - 1);
      RowsSnoc(lines, tables, i - 1);
      RowsBelow(lines, tables, i - 1);
      CountSnoc(lines, tables, i - 1);
      var table := tables[i - 1];
      if IsTicketTable(lines, table) { BelowSpan(Rows(lines, tables[..i - 1]), table.head + 2, table.end); }
    }
  }

  lemma NoRows(lines: seq<string>)
    ensures Rows(lines, []) == {} && RowCount(lines, []) == 0
  {
  }

  lemma CountSnoc(lines: seq<string>, tables: seq<Table>, i: nat)
    requires i < |tables| && forall k :: 0 <= k < |tables| ==> TableOk(lines, tables[k])
    ensures tables[i].head + 2 <= tables[i].end
    ensures RowCount(lines, tables[..i + 1]) ==
            RowCount(lines, tables[..i]) + if IsTicketTable(lines, tables[i]) then tables[i].end - (tables[i].head + 2) else 0
  {
    hide IsTicketTable;
    assert tables[..i + 1][..i] == tables[..i];
  }

  lemma BelowSpan(below: set<nat>, from: nat, to: nat)
    requires from <= to && forall n :: n in below ==> n < from
    ensures |below + Span(from, to)| == |below| + (to - from)
  {
    SpanSize(from, to);
    assert below !! Span(from, to);
  }

  /** Sets matched one to one have one size. */
  lemma {:induction false} OneToOne(rows: set<nat>, ids: set<string>, name: nat -> string)
    requires forall n :: n in rows ==> name(n) in ids
    requires forall id :: id in ids ==> exists n :: n in rows && name(n) == id
    requires forall n, m :: n in rows && m in rows && name(n) == name(m) ==> n == m
    ensures |rows| == |ids|
    decreases |rows|
  {
    if rows == {} {
      assert ids == {};
    } else {
      var n :| n in rows;
      OneToOne(rows - {n}, ids - {name(n)}, name);
    }
  }

  function NameOf(lines: seq<string>, n: nat): string
  {
    if n < |lines| && RowCells(lines[n]) != [] then RowCells(lines[n])[0] else ""
  }

  /** A board read without complaint states as many tickets as its ticket tables
      have rows, and at least 147. */
  lemma EnoughTickets(lines: seq<string>, statuses: map<string, string>)
    requires Readable(lines) && Gathered(lines, Rows(lines, TablesFrom(lines, 0)), statuses, true)
    ensures |statuses| == RowCount(lines, TablesFrom(lines, 0)) >= 147
  {
    var tables := TablesFrom(lines, 0);
    TablesAscend(lines, 0);
    assert Clean(lines, Rows(lines, tables));
    hide Rows, TablesFrom, Gathered, Clean, RowCount, Ascends, TableOk, LooksLikeTicket, Authoritative;
    assert tables[..|tables|] == tables;
    RowsCounted(lines, tables, |tables|);
    OnePerRow(lines, Rows(lines, tables), statuses);
  }

  lemma OnePerRow(lines: seq<string>, rows: set<nat>, statuses: map<string, string>)
    requires Clean(lines, rows) && Gathered(lines, rows, statuses, true)
    ensures |statuses| == |rows|
  {
    hide ProperRow, RowCells;
    forall n | n in rows ensures NamesAt(lines, n, NameOf(lines, n)) {
      ProperHasCells(lines[n]);
    }
    OneToOne(rows, statuses.Keys, (n: nat) => NameOf(lines, n));
    assert |statuses| == |statuses.Keys|;
  }

  /** When the closure verifier reads the board without complaint, the board
      verifier reads the same map from the lines, each ticket on one line. */
  lemma VerifiersAgree(lines: seq<string>, statuses: map<string, string>)
    requires Readable(lines) && Gathered(lines, Rows(lines, TablesFrom(lines, 0)), statuses, true)
    ensures OneLineEach(lines) && ReadFrom(lines, statuses)
  {
    hide TicketRow, NamesAt, StatesAt;
    var rows := Rows(lines, TablesFrom(lines, 0));
    forall n, m | 0 <= n < m < |lines| && TicketRow(lines[n]).Some? && TicketRow(lines[m]).Some?
      ensures TicketRow(lines[n]).value.id != TicketRow(lines[m]).value.id
    {
      LineStates(lines, n);
      LineStates(lines, m);
      var id := TicketRow(lines[n]).value.id;
      assert NamesAt(lines, n, id) && n in rows && m in rows;
    }
    forall id, status ensures Has(statuses, id, status) <==> Says(lines, id, status) {
      if Has(statuses, id, status) {
        var n :| n in rows && StatesAt(lines, n, id, status);
        LineStates(lines, n);
      }
      if n :| 0 <= n < |lines| && TicketRow(lines[n]) == Some(Ticket(id, status)) {
        LineStates(lines, n);
        assert n in rows && StatesAt(lines, n, id, status);
      }
    }
  }

  /** On a readable board a line reads as a ticket exactly when it is one of
      the ticket rows, and says what that row states. */
  lemma LineStates(lines: seq<string>, n: nat)
    requires Readable(lines) && n < |lines|
    ensures TicketRow(lines[n]).Some? <==> n in Rows(lines, TablesFrom(lines, 0))
    ensures TicketRow(lines[n]).Some? ==> NamesAt(lines, n, TicketRow(lines[n]).value.id)
    ensures TicketRow(lines[n]).Some? ==> StatesAt(lines, n, TicketRow(lines[n]).value.id, TicketRow(lines[n]).value.status)
    ensures forall id, status :: n in Rows(lines, TablesFrom(lines, 0)) && StatesAt(lines, n, id, status) ==>
              TicketRow(lines[n]) == Some(Ticket(id, status))
  {
    LineReads(lines, TablesFrom(lines, 0), n);
    ProperHasCells(lines[n]);
    hide TicketRow, ProperRow, RowCells, Readable;
  }

  lemma GatherNone(lines: seq<string>)
    ensures Gathered(lines, {}, map[], true)
    ensures Rows(lines, []) == {}
  {
  }

  lemma GatheredFine(lines: seq<string>, done: set<nat>, statuses: map<string, string>, fine: bool)
    requires Gathered(lines, done, statuses, fine)
    ensures fine <==> Clean(lines, done)
  {
  }

  lemma LineReads(lines: seq<string>, tables: seq<Table>, n: nat)
    requires tables == TablesFrom(lines, 0) && Readable(lines) && n < |lines|
    ensures TicketRow(lines[n]).Some? <==> n in Rows(lines, tables)
    ensures n in Rows(lines, tables) ==>
              ProperRow(lines[n]) && TicketRow(lines[n]) == Some(Ticket(RowCells(lines[n])[0], RowCells(lines[n])[1]))
  {
    hide RowCells, IsTicketTable, TicketRow, ProperRow, LooksLikeTicket, RowCount, TablesFrom;
    ProperIsTicket(lines[n]);
    if n in Rows(lines, tables) {
      var i :| 0 <= i < |tables| && IsTicketTable(lines, tables[i]) && tables[i].head + 2 <= n < tables[i].end;
      assert TableOk(lines, tables[i]);
      assert IsRow(lines[n]);
    }
  }

  /** Both verifiers on one board: no complaint from the first means none about
      repeated tickets from the second, and one map between them. */
  method ReadBoth(lines: seq<string>)
    returns (statuses: map<string, string>, errors: seq<Complaint>, tickets: map<string, string>, repeats: seq<string>)
    ensures errors == [] ==> repeats == [] && tickets == statuses
  {
    statuses, errors := ReadStatuses(lines);
    tickets, repeats := ReadBoard(lines);
    if errors == [] {
      VerifiersAgree(lines, statuses);
      ReadFromUnique(lines, statuses, tickets);
    }
  }
}
