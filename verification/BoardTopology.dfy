/** The lane tables of the execution topology: on an accepted board the
    execution-class rows list every remaining ticket exactly once, and a SERIAL
    row can only run in the order it is written. */
module BoardTopology {
  import opened BoardGraph
  import opened BoardRules

  const LANE := "Lane"
  const CHAIN := "Ticket or ordered chain"
  const CLASS := "Class"

  datatype Table = Table(header: seq<string>, rows: seq<seq<string>>)

  /** The ticket ids in a cell, in order. */
  type Ids = string -> seq<string>

  predicate IsLaneTable(header: seq<string>)
  {
    header != [] && header[0] == LANE && CHAIN in header && CLASS in header
  }

  function ColumnOf(header: seq<string>, name: string): (k: nat)
    requires name in header
    ensures k < |header| && header[k] == name && name !in header[..k]
  {
    if header[0] == name then 0 else 1 + ColumnOf(header[1..], name)
  }

  function ClassCell(header: seq<string>, cells: seq<string>): string
    requires IsLaneTable(header) && |cells| == |header|
  {
    cells[ColumnOf(header, CLASS)]
  }

  function ChainCell(header: seq<string>, cells: seq<string>): string
    requires IsLaneTable(header) && |cells| == |header|
  {
    cells[ColumnOf(header, CHAIN)]
  }

  /** An execution row: a class and the tickets it classifies. */
  datatype Lane = Lane(class_: string, chain: seq<string>)

  /** The execution rows of a table, in order. */
  function Lanes(ids: Ids, header: seq<string>, rows: seq<seq<string>>): (lanes: seq<Lane>)
  {
    if rows == [] || !IsLaneTable(header) then []
    else
      var before, cells := Lanes(ids, header, rows[..|rows| - 1]), rows[|rows| - 1];
      if |cells| == |header| && ClassCell(header, cells) in EXECUTION_CLASSES
      then before + [Lane(ClassCell(header, cells), ids(ChainCell(header, cells)))] else before
  }

  function AllLanes(ids: Ids, tables: seq<Table>): (lanes: seq<Lane>)
  {
    if tables == [] then []
    else AllLanes(ids, tables[..|tables| - 1]) + Lanes(ids, tables[|tables| - 1].header, tables[|tables| - 1].rows)
  }

  /** Every ticket the lanes name, row by row. */
  function Listed(lanes: seq<Lane>): (tickets: seq<string>)
  {
    if lanes == [] then [] else Listed(lanes[..|lanes| - 1]) + lanes[|lanes| - 1].chain
  }

  ghost predicate NoRepeats(s: seq<string>)
  {
    forall i, j :: 0 <= i < j < |s| ==> s[i] != s[j]
  }

  // ----- What the verifier demands -----

  /** Each ticket of a chain that is a ticket directly depends on the one before. */
  predicate Chained(tickets: map<string, Row>, chain: seq<string>)
  {
    forall i :: 0 <= i < |chain| - 1 && chain[i + 1] in tickets ==> chain[i] in tickets[chain[i + 1]].dependencies
  }

  predicate LaneOk(tickets: map<string, Row>, lane: Lane)
  {
    && lane.chain != []
    && (lane.class_ == "PARALLEL" ==> |lane.chain| == 1)
    && (lane.class_ == "BATCH" ==> |lane.chain| >= 2)
    && (lane.class_ == "SERIAL" ==> Chained(tickets, lane.chain))
  }

  predicate NoneRemain(tickets: map<string, Row>, chain: seq<string>)
  {
    forall i :: 0 <= i < |chain| ==> !Remains(tickets, chain[i])
  }

  predicate RowOk(tickets: map<string, Row>, ids: Ids, header: seq<string>, cells: seq<string>)
    requires IsLaneTable(header)
  {
    |cells| == |header| &&
    var class_, chain := ClassCell(header, cells), ids(ChainCell(header, cells));
    if class_ in EXECUTION_CLASSES then LaneOk(tickets, Lane(class_, chain))
    else class_ in TICKET_STATUSES && NoneRemain(tickets, chain)
  }

  predicate TableOk(tickets: map<string, Row>, ids: Ids, table: Table)
  {
    IsLaneTable(table.header) && forall i :: 0 <= i < |table.rows| ==> RowOk(tickets, ids, table.header, table.rows[i])
  }

  /** The lanes list the remaining tickets, each in one place. */
  ghost predicate Partitions(tickets: map<string, Row>, lanes: seq<Lane>)
  {
    NoRepeats(Listed(lanes)) && forall t :: t in Listed(lanes) <==> Remains(tickets, t)
  }

  ghost predicate TopologyOk(tickets: map<string, Row>, ids: Ids, tables: seq<Table>)
  {
    && (forall i :: 0 <= i < |tables| ==> TableOk(tickets, ids, tables[i]))
    && Partitions(tickets, AllLanes(ids, tables))
  }

  // ----- What acceptance gives -----

  lemma {:induction false} LaneListed(lanes: seq<Lane>, k: nat) returns (from: nat)
    requires k < |lanes|
    ensures from + |lanes[k].chain| <= |Listed(lanes)|
    ensures Listed(lanes)[from..from + |lanes[k].chain|] == lanes[k].chain
    decreases |lanes|
  {
    var before := lanes[..|lanes| - 1];
    if k == |lanes| - 1 {
      from := |Listed(before)|;
    } else {
      from := LaneListed(before, k);
      var to := from + |lanes[k].chain|;
      assert Listed(lanes)[from..to] == Listed(before)[from..to];
    }
  }

  /** A lane of an accepted board names remaining tickets, each once. */
  lemma LaneOfPartition(tickets: map<string, Row>, lanes: seq<Lane>, k: nat)
    requires Partitions(tickets, lanes) && k < |lanes|
    ensures forall i :: 0 <= i < |lanes[k].chain| ==> Remains(tickets, lanes[k].chain[i])
    ensures NoRepeats(lanes[k].chain)
  {
    var from := LaneListed(lanes, k);
    var all, chain := Listed(lanes), lanes[k].chain;
    assert forall i :: 0 <= i < |chain| ==> chain[i] == all[from + i] && all[from + i] in all;
  }

  lemma {:induction false} ChainReaches(tickets: map<string, Row>, chain: seq<string>, i: nat, j: nat)
    requires Chained(tickets, chain) && i < j < |chain|
    requires forall k :: 0 <= k < |chain| ==> chain[k] in tickets
    ensures Reaches(GraphOf(tickets), chain[j], chain[i])
  {
    var g := GraphOf(tickets);
    assert Edge(g, chain[j], chain[j - 1]);
    ReachStep(g, chain[j], chain[j - 1]);
    if i < j - 1 {
      ChainReaches(tickets, chain, i, j - 1);
      ReachTransitive(g, chain[j], chain[j - 1], chain[i]);
    }
  }

  /** The remaining work done in an order where each ticket follows those of its
      dependencies that remain. */
  ghost predicate RespectsDependencies(tickets: map<string, Row>, order: seq<string>)
  {
    && NoRepeats(order)
    && forall p, v :: 0 <= p < |order| && Edge(GraphOf(tickets), order[p], v) && Remains(tickets, v) ==> v in order[..p]
  }

  lemma {:induction false} ChainFallsInOrder(tickets: map<string, Row>, order: seq<string>, chain: seq<string>, i: nat, j: nat, q: nat)
    requires RespectsDependencies(tickets, order) && Chained(tickets, chain) && i < j < |chain|
    requires forall k :: 0 <= k < |chain| ==> Remains(tickets, chain[k])
    requires q < |order| && order[q] == chain[j]
    ensures chain[i] in order[..q]
    decreases j
  {
    assert Edge(GraphOf(tickets), chain[j], chain[j - 1]);
    if i < j - 1 {
      var r :| 0 <= r < q && order[r] == chain[j - 1];
      ChainFallsInOrder(tickets, order, chain, i, j - 1, r);
      var m :| 0 <= m < r && order[m] == chain[i];
      assert order[..q][m] == chain[i];
    }
  }

  /** In a SERIAL lane of an accepted board every later ticket transitively
      depends on every earlier one, and any order of the remaining work that
      respects dependencies has done the earlier ticket before the later. */
  lemma SerialRunsAsListed(tickets: map<string, Row>, ids: Ids, tables: seq<Table>, k: nat, i: nat, j: nat, order: seq<string>, q: nat)
    requires TopologyOk(tickets, ids, tables)
    requires k < |AllLanes(ids, tables)| && AllLanes(ids, tables)[k].class_ == "SERIAL"
    requires i < j < |AllLanes(ids, tables)[k].chain|
    requires RespectsDependencies(tickets, order) && q < |order| && order[q] == AllLanes(ids, tables)[k].chain[j]
    ensures Reaches(GraphOf(tickets), AllLanes(ids, tables)[k].chain[j], AllLanes(ids, tables)[k].chain[i])
    ensures AllLanes(ids, tables)[k].chain[i] in order[..q]
    ensures forall p :: 0 <= p < |order| && order[p] == AllLanes(ids, tables)[k].chain[i] ==> p < q
  {
    var chain := AllLanes(ids, tables)[k].chain;
    LaneOfPartition(tickets, AllLanes(ids, tables), k);
    LanesOk(tickets, ids, tables, k);
    ChainReaches(tickets, chain, i, j);
    ChainFallsInOrder(tickets, order, chain, i, j, q);
    var r :| 0 <= r < q && order[r] == chain[i];
  }

  /** What acceptance says of a row, cell by cell: as many cells as its header, and
      by its class one ticket, several, a chain, or none that remains. */
  lemma AcceptedRow(tickets: map<string, Row>, ids: Ids, tables: seq<Table>, i: nat, j: nat, class_: nat, chain: nat)
    requires TopologyOk(tickets, ids, tables) && i < |tables| && j < |tables[i].rows|
    requires var header := tables[i].header;
             && class_ < |header| && header[class_] == "Class" && "Class" !in header[..class_]
             && chain < |header| && header[chain] == "Ticket or ordered chain" && "Ticket or ordered chain" !in header[..chain]
    ensures var header, cells := tables[i].header, tables[i].rows[j];
            && header[0] == "Lane" && |cells| == |header|
            && (cells[class_] == "PARALLEL" ==> |ids(cells[chain])| == 1)
            && (cells[class_] == "BATCH" ==> |ids(cells[chain])| >= 2)
            && (cells[class_] == "SERIAL" ==> ids(cells[chain]) != [] && Chained(tickets, ids(cells[chain])))
            && (cells[class_] !in {"PARALLEL", "BATCH", "SERIAL"} ==>
                  && cells[class_] in {"PENDING", "ACTIVE", "BLOCKED", "DONE", "DEFERRED"}
                  && forall t :: t in ids(cells[chain]) && t in tickets ==> tickets[t].status !in {"PENDING", "ACTIVE", "BLOCKED"})
  {
    var header, cells := tables[i].header, tables[i].rows[j];
    assert TableOk(tickets, ids, tables[i]) && RowOk(tickets, ids, header, cells);
    ColumnUnique(header, "Class", class_);
    ColumnUnique(header, "Ticket or ordered chain", chain);
    hide Chained;
  }

  lemma ColumnUnique(header: seq<string>, name: string, k: nat)
    requires k < |header| && header[k] == name && name !in header[..k]
    ensures ColumnOf(header, name) == k
  {
  }

  lemma {:induction false} LanesOk(tickets: map<string, Row>, ids: Ids, tables: seq<Table>, k: nat)
    requires forall i :: 0 <= i < |tables| ==> TableOk(tickets, ids, tables[i])
    requires k < |AllLanes(ids, tables)|
    ensures LaneOk(tickets, AllLanes(ids, tables)[k])
  {
    var before, last := tables[..|tables| - 1], tables[|tables| - 1];
    var m := |AllLanes(ids, before)|;
    if k < m {
      LanesOk(tickets, ids, before, k);
    } else {
      TableLanesOk(tickets, ids, last.header, last.rows, k - m);
    }
  }

  lemma {:induction false} TableLanesOk(tickets: map<string, Row>, ids: Ids, header: seq<string>, rows: seq<seq<string>>, k: nat)
    requires IsLaneTable(header) && forall i :: 0 <= i < |rows| ==> RowOk(tickets, ids, header, rows[i])
    requires k < |Lanes(ids, header, rows)|
    ensures LaneOk(tickets, Lanes(ids, header, rows)[k])
    decreases |rows|
  {
    var before := Lanes(ids, header, rows[..|rows| - 1]);
    assert RowOk(tickets, ids, header, rows[|rows| - 1]);
    if k < |before| {
      TableLanesOk(tickets, ids, header, rows[..|rows| - 1], k);
    }
  }

  // ----- The verifier's loop -----

  datatype Complaint =
    | NotALaneTable(header: seq<string>)
    | WrongCells(cells: seq<string>)
    | BadClass(class_: string)
    | BadLane(lane: Lane)
    | ClassifiedTwice(ticket: string)
    | Unclassified
    | StaleClassification

  class TopologyCheck {
    const tickets: map<string, Row>
    const ids: Ids
    var classified: map<string, string>
    var errors: seq<Complaint>

    constructor (tickets: map<string, Row>, ids: Ids)
      ensures this.tickets == tickets && this.ids == ids && classified == map[] && errors == []
    {
      this.tickets, this.ids, classified, errors := tickets, ids, map[], [];
    }

    /** So far: the classified tickets are those listed, and there is no error
        exactly when everything read was in order. */
    ghost predicate Standing(lanes: seq<Lane>, fine: bool)
      reads this
    {
      && (forall t :: t in classified <==> t in Listed(lanes))
      && (errors == [] <==> fine && NoRepeats(Listed(lanes)))
    }

    method ClassifyLane(lane: Lane, ghost lanes: seq<Lane>, ghost fine: bool)
      requires Standing(lanes, fine)
      modifies this
      ensures Standing(lanes + [lane], fine && LaneOk(tickets, lane))
    {
      assert (lanes + [lane])[..|lanes|] == lanes;
      assert Listed(lanes + [lane]) == Listed(lanes) + lane.chain;
      if lane.chain == [] {
        errors := errors + [BadLane(lane)];
        return;
      }
      if lane.class_ == "PARALLEL" && |lane.chain| != 1 {
        errors := errors + [BadLane(lane)];
      }
      if lane.class_ == "BATCH" && |lane.chain| < 2 {
        errors := errors + [BadLane(lane)];
      }
      if lane.class_ == "SERIAL" {
        CheckSerial(lane);
      }
      ghost var ok := fine && LaneOk(tickets, lane);
      assert Listed(lanes) + lane.chain[..0] == Listed(lanes);
      assert errors == [] <==> ok && NoRepeats(Listed(lanes));
      for i := 0 to |lane.chain|
        invariant forall t :: t in classified <==> t in Listed(lanes) + lane.chain[..i]
        invariant errors == [] <==> ok && NoRepeats(Listed(lanes) + lane.chain[..i])
      {
        ghost var before := Listed(lanes) + lane.chain[..i];
        assert Listed(lanes) + lane.chain[..i + 1] == before + [lane.chain[i]];
        RepeatsSnoc(before, lane.chain[i]);
        if lane.chain[i] in classified {
          errors := errors + [ClassifiedTwice(lane.chain[i])];
        } else {
          classified := classified[lane.chain[i] := lane.class_];
        }
      }
      assert lane.chain[..|lane.chain|] == lane.chain;
    }

    method CheckSerial(lane: Lane)
      requires lane.chain != []
      modifies this`errors
      ensures errors == [] <==> old(errors) == [] && Chained(tickets, lane.chain)
    {
      for i := 0 to |lane.chain| - 1
        invariant errors == [] <==>
          && old(errors) == []
          && forall k :: 0 <= k < i && lane.chain[k + 1] in tickets ==> lane.chain[k] in tickets[lane.chain[k + 1]].dependencies
      {
        var successor := lane.chain[i + 1];
        if successor in tickets && lane.chain[i] !in tickets[successor].dependencies {
          errors := errors + [BadLane(lane)];
        }
      }
    }

    method ReadRow(header: seq<string>, cells: seq<string>, ghost lanes: seq<Lane>, ghost fine: bool)
      requires IsLaneTable(header) && Standing(lanes, fine)
      modifies this
      ensures Standing(lanes + Lanes(ids, header, [cells]), fine && RowOk(tickets, ids, header, cells))
    {
      assert [cells][..0] == [] && Lanes(ids, header, []) == [] && lanes + [] == lanes;
      if |cells| != |header| {
        errors := errors + [WrongCells(cells)];
        return;
      }
      var class_, chain := cells[ColumnOf(header, CLASS)], ids(cells[ColumnOf(header, CHAIN)]);
      if class_ !in EXECUTION_CLASSES {
        if class_ !in TICKET_STATUSES || !NoneRemain(tickets, chain) {
          errors := errors + [BadClass(class_)];
        }
        return;
      }
      ClassifyLane(Lane(class_, chain), lanes, fine);
    }

    method ReadTable(table: Table, ghost lanes: seq<Lane>, ghost fine: bool)
      requires Standing(lanes, fine)
      modifies this
      ensures Standing(lanes + Lanes(ids, table.header, table.rows), fine && TableOk(tickets, ids, table))
    {
      hide RowOk, Listed, NoRepeats, Lanes;
      LanesNone(ids, table.header);
      var header, rows := table.header, table.rows;
      if !IsLaneTable(header) {
        errors := errors + [NotALaneTable(header)];
        assert lanes + [] == lanes;
        return;
      }
      assert lanes + [] == lanes;
      ghost var ok := fine;
      for i := 0 to |rows|
        invariant Standing(lanes + Lanes(ids, header, rows[..i]), ok)
        invariant ok <==> fine && forall k :: 0 <= k < i ==> RowOk(tickets, ids, header, rows[k])
      {
        assert rows[..i + 1][..i] == rows[..i];
        LanesSnoc(ids, header, rows[..i], rows[i]);
        assert rows[..i + 1] == rows[..i] + [rows[i]];
        assert lanes + Lanes(ids, header, rows[..i]) + Lanes(ids, header, [rows[i]]) ==
               lanes + (Lanes(ids, header, rows[..i]) + Lanes(ids, header, [rows[i]]));
        ReadRow(header, rows[i], lanes + Lanes(ids, header, rows[..i]), ok);
        ok := ok && RowOk(tickets, ids, header, rows[i]);
      }
      assert rows[..|rows|] == rows;
    }
  }

  lemma RemainsTicket(tickets: map<string, Row>)
    ensures forall t :: Remains(tickets, t) ==> t in tickets
  {
  }

  lemma NothingListed()
    ensures Listed([]) == [] && NoRepeats([])
  {
  }

  lemma LanesNone(ids: Ids, header: seq<string>)
    ensures Lanes(ids, header, []) == []
    ensures !IsLaneTable(header) ==> forall rows :: Lanes(ids, header, rows) == []
  {
  }

  lemma LanesSnoc(ids: Ids, header: seq<string>, rows: seq<seq<string>>, cells: seq<string>)
    ensures Lanes(ids, header, rows + [cells]) == Lanes(ids, header, rows) + Lanes(ids, header, [cells])
  {
    assert (rows + [cells])[..|rows|] == rows;
    assert [cells][..0] == [];
    assert Lanes(ids, header, []) == [];
  }

  /** The topology check passes exactly when every lane table is in order and
      the lanes list the remaining tickets, each in one place. */
  method CheckTopology(tickets: map<string, Row>, ids: Ids, tables: seq<Table>)
    returns (errors: seq<Complaint>, classified: map<string, string>)
    ensures errors == [] <==> TopologyOk(tickets, ids, tables)
    ensures forall t :: t in classified <==> t in Listed(AllLanes(ids, tables))
  {
    hide TableOk, Listed, NoRepeats, Lanes, Remains;
    NothingListed();
    var check := new TopologyCheck(tickets, ids);
    ghost var ok := true;
    for i := 0 to |tables|
      invariant check.tickets == tickets && check.ids == ids
      invariant check.Standing(AllLanes(ids, tables[..i]), ok)
      invariant ok <==> forall k :: 0 <= k < i ==> TableOk(tickets, ids, tables[k])
    {
      assert tables[..i + 1][..i] == tables[..i];
      check.ReadTable(tables[i], AllLanes(ids, tables[..i]), ok);
      ok := ok && TableOk(tickets, ids, tables[i]);
    }
    assert tables[..|tables|] == tables;
    errors, classified := check.errors, check.classified;
    var remaining := set t | t in tickets && Remains(tickets, t);
    RemainsTicket(tickets);
    if !(remaining <= classified.Keys) {
      errors := errors + [Unclassified];
    }
    if !(classified.Keys <= remaining) {
      errors := errors + [StaleClassification];
    }
  }

  lemma RepeatsSnoc(s: seq<string>, t: string)
    ensures NoRepeats(s + [t]) <==> NoRepeats(s) && t !in s
  {
    var now := s + [t];
    if NoRepeats(now) {
      forall i | 0 <= i < |s| ensures s[i] != t { assert now[i] != now[|s|]; }
      forall i, j | 0 <= i < j < |s| ensures s[i] != s[j] { assert now[i] != now[j]; }
    }
  }
}
