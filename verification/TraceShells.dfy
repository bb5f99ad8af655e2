/** Shells from a system-call trace: records split in two by the tracer are
    joined by process, and each shell carries its process's exit code. */
module TraceShells {
  import opened Seqs

  const UNFINISHED := "<unfinished ...>"
  const UNFINISHED_MARK := " <unfinished ...>"
  const RESUMED_START := "<... "
  const RESUMED_END := "resumed>"

  datatype Record = Record(pid: string, timestamp: string, body: string)

  /** What a complete record's body says. `Fatal`: a successful exec that
      cannot be read. */
  datatype Kind = Exit(code: nat) | Shell(argv: seq<string>) | Silent | Fatal

  type Reading = string -> Kind

  // ----- Text -----

  /** `s.replace(piece, "")`. */
  function Without(s: string, piece: string): (r: string)
    requires piece != []
  {
    if s == [] then []
    else if piece <= s then Without(s[|piece|..], piece)
    else [s[0]] + Without(s[1..], piece)
  }

  /** `s.split(piece, 1)[1]`: what follows the first occurrence. */
  function Following(s: string, piece: string): (r: Option<string>)
  {
    if piece <= s then Some(s[|piece|..])
    else if s == [] then None
    else Following(s[1..], piece)
  }

  // ----- Joining -----

  datatype Half = Half(timestamp: string, initial: string)

  /** Halves still open, and the complete records so far in order. */
  datatype Joining = Joining(pending: map<string, Half>, whole: seq<Record>)

  function Join1(s: Joining, r: Record): (next: Option<Joining>)
  {
    if Contains(r.body, UNFINISHED) then
      if r.pid in s.pending then None
      else Some(s.(pending := s.pending[r.pid := Half(r.timestamp, Without(r.body, UNFINISHED_MARK))]))
    else if RESUMED_START <= r.body then
      if r.pid !in s.pending then None
      else
        var half := s.pending[r.pid];
        match Following(r.body, RESUMED_END)
        case None => None
        case Some(rest) =>
          Some(Joining(s.pending - {r.pid}, s.whole + [Record(r.pid, half.timestamp, half.initial + StripLeft(rest))]))
    else Some(s.(whole := s.whole + [r]))
  }

  function JoinFrom(s: Joining, records: seq<Record>): (next: Option<Joining>)
  {
    if records == [] then Some(s)
    else match JoinFrom(s, records[..|records| - 1])
      case None => None
      case Some(before) => Join1(before, records[|records| - 1])
  }

  const NOTHING := Joining(map[], [])

  /** The complete records of a trace with no half left over. */
  function Joined(records: seq<Record>): (whole: Option<seq<Record>>)
  {
    match JoinFrom(NOTHING, records)
    case None => None
    case Some(s) => if s.pending == map[] then Some(s.whole) else None
  }

  // ----- Reporting -----

  datatype Found = Found(pid: string, timestamp: string, argv: seq<string>, exitCode: nat)

  /** The last exit code recorded for a process. */
  function LastExit(reading: Reading, whole: seq<Record>, pid: string): (code: Option<nat>)
  {
    if whole == [] then None
    else
      var last := whole[|whole| - 1];
      if last.pid == pid && reading(last.body).Exit? then Some(reading(last.body).code)
      else LastExit(reading, whole[..|whole| - 1], pid)
  }

  datatype Started = Started(pid: string, timestamp: string, argv: seq<string>)

  function Shells(reading: Reading, whole: seq<Record>): (shells: seq<Started>)
  {
    if whole == [] then []
    else
      var last := whole[|whole| - 1];
      Shells(reading, whole[..|whole| - 1]) +
      (if reading(last.body).Shell? then [Started(last.pid, last.timestamp, reading(last.body).argv)] else [])
  }

  predicate AllReadable(reading: Reading, whole: seq<Record>)
  {
    forall i :: 0 <= i < |whole| ==> !reading(whole[i].body).Fatal?
  }

  /** Each shell with the last exit code recorded anywhere for its process;
      `None` when one has none. */
  function WithExits(reading: Reading, whole: seq<Record>, shells: seq<Started>): (r: Option<seq<Found>>)
  {
    if shells == [] then Some([])
    else
      var before, last := WithExits(reading, whole, shells[..|shells| - 1]), shells[|shells| - 1];
      var code := LastExit(reading, whole, last.pid);
      if before.None? || code.None? then None
      else Some(before.value + [Found(last.pid, last.timestamp, last.argv, code.value)])
  }

  function Report(reading: Reading, whole: seq<Record>): (r: Option<seq<Found>>)
  {
    if AllReadable(reading, whole) then WithExits(reading, whole, Shells(reading, whole)) else None
  }

  // ----- The one-pass loop -----

  /** The single pass over the trace reports what joining it first and reading
      the complete records afterwards would. */
  method TraceShells(reading: Reading, records: seq<Record>) returns (found: Option<seq<Found>>)
    ensures found == match Joined(records) case None => None case Some(whole) => Report(reading, whole)
  {
    var pending: map<string, Half> := map[];
    var shells: seq<Started> := [];
    var exits: map<string, nat> := map[];
    ghost var s := NOTHING;
    hide Contains, Without, Following, StripLeft, JoinFrom, Shells, LastExit, AllReadable, WithExits;
    NothingRead(reading);
    for i := 0 to |records|
      invariant JoinFrom(NOTHING, records[..i]) == Some(s) && s.pending == pending
      invariant AllReadable(reading, s.whole) && shells == Shells(reading, s.whole)
      invariant Exits(reading, s.whole, exits)
    {
      var r := records[i];
      JoinNext(records, i, s);
      JoinFails(records, i + 1);
      var timestamp, body := r.timestamp, r.body;
      if Contains(body, UNFINISHED) {
        if r.pid in pending { return None; }
        pending := pending[r.pid := Half(timestamp, Without(body, UNFINISHED_MARK))];
        s := s.(pending := pending);
        continue;
      }
      if RESUMED_START <= body {
        if r.pid !in pending { return None; }
        var rest := Following(body, RESUMED_END);
        if rest.None? { return None; }
        timestamp, body := pending[r.pid].timestamp, pending[r.pid].initial + StripLeft(rest.value);
        pending := pending - {r.pid};
      }
      ghost var record := Record(r.pid, timestamp, body);
      ReadNext(reading, s.whole, record);
      ExitsNext(reading, s.whole, record, exits);
      s := Joining(pending, s.whole + [record]);
      match reading(body)
      case Fatal =>
        FatalFails(reading, records, i + 1, s);
        return None;
      case Exit(code) => exits := exits[r.pid := code];
      case Shell(argv) => shells := shells + [Started(r.pid, timestamp, argv)];
      case Silent =>
    }
    assert records[..|records|] == records;
    if pending != map[] { return None; }
    found := AttachExits(reading, s.whole, shells, exits);
  }

  /** The exit codes kept are the last ones recorded. */
  ghost predicate Exits(reading: Reading, whole: seq<Record>, exits: map<string, nat>)
  {
    forall pid :: LastExit(reading, whole, pid) == if pid in exits then Some(exits[pid]) else None
  }

  lemma NothingRead(reading: Reading)
    ensures JoinFrom(NOTHING, []) == Some(NOTHING)
    ensures AllReadable(reading, []) && Shells(reading, []) == [] && Exits(reading, [], map[])
  {
  }

  lemma JoinNext(records: seq<Record>, i: nat, s: Joining)
    requires i < |records| && JoinFrom(NOTHING, records[..i]) == Some(s)
    ensures JoinFrom(NOTHING, records[..i + 1]) == Join1(s, records[i])
  {
    assert records[..i + 1][..i] == records[..i];
  }

  lemma ReadNext(reading: Reading, whole: seq<Record>, r: Record)
    ensures AllReadable(reading, whole + [r]) <==> AllReadable(reading, whole) && !reading(r.body).Fatal?
    ensures Shells(reading, whole + [r]) ==
            Shells(reading, whole) + (if reading(r.body).Shell? then [Started(r.pid, r.timestamp, reading(r.body).argv)] else [])
  {
    var now := whole + [r];
    assert now[..|whole|] == whole && now[|whole|] == r;
    if AllReadable(reading, now) {
      forall i | 0 <= i < |whole| ensures !reading(whole[i].body).Fatal? { assert now[i] == whole[i]; }
    }
  }

  lemma ExitsNext(reading: Reading, whole: seq<Record>, r: Record, exits: map<string, nat>)
    requires Exits(reading, whole, exits)
    ensures Exits(reading, whole + [r], if reading(r.body).Exit? then exits[r.pid := reading(r.body).code] else exits)
  {
    var now := whole + [r];
    assert now[..|whole|] == whole && now[|whole|] == r;
  }

  method AttachExits(reading: Reading, ghost whole: seq<Record>, shells: seq<Started>, exits: map<string, nat>)
    returns (found: Option<seq<Found>>)
    requires Exits(reading, whole, exits)
    ensures found == WithExits(reading, whole, shells)
  {
    var done: seq<Found> := [];
    for i := 0 to |shells|
      invariant WithExits(reading, whole, shells[..i]) == Some(done)
    {
      assert shells[..i + 1][..i] == shells[..i];
      if shells[i].pid !in exits {
        ExitsMissing(reading, whole, shells, i + 1);
        return None;
      }
      done := done + [Found(shells[i].pid, shells[i].timestamp, shells[i].argv, exits[shells[i].pid])];
    }
    assert shells[..|shells|] == shells;
    found := Some(done);
  }

  lemma {:induction false} ExitsMissing(reading: Reading, whole: seq<Record>, shells: seq<Started>, k: nat)
    requires k <= |shells| && WithExits(reading, whole, shells[..k]).None?
    ensures WithExits(reading, whole, shells).None?
    decreases |shells|
  {
    if k == |shells| {
      assert shells[..k] == shells;
    } else {
      assert shells[..|shells| - 1][..k] == shells[..k];
      ExitsMissing(reading, whole, shells[..|shells| - 1], k);
    }
  }

  /** A trace that fails to join up to some record fails altogether. */
  lemma {:induction false} JoinFails(records: seq<Record>, k: nat)
    requires k <= |records|
    ensures JoinFrom(NOTHING, records[..k]).None? ==> JoinFrom(NOTHING, records).None?
    decreases |records|
  {
    if k == |records| {
      assert records[..k] == records;
    } else {
      assert records[..|records| - 1][..k] == records[..k];
      JoinFails(records[..|records| - 1], k);
    }
  }

  /** Complete records are never taken back. */
  lemma {:induction false} WholeGrows(records: seq<Record>, k: nat, s: Joining)
    requires k <= |records| && JoinFrom(NOTHING, records[..k]) == Some(s) && JoinFrom(NOTHING, records).Some?
    ensures s.whole <= JoinFrom(NOTHING, records).value.whole
    decreases |records|
  {
    if k == |records| {
      assert records[..k] == records;
    } else {
      assert records[..|records| - 1][..k] == records[..k];
      WholeGrows(records[..|records| - 1], k, s);
    }
  }

  lemma FatalFails(reading: Reading, records: seq<Record>, k: nat, s: Joining)
    requires k <= |records| && JoinFrom(NOTHING, records[..k]) == Some(s) && !AllReadable(reading, s.whole)
    ensures Joined(records).Some? ==> !AllReadable(reading, Joined(records).value)
  {
    if Joined(records).Some? {
      WholeGrows(records, k, s);
      var i :| 0 <= i < |s.whole| && reading(s.whole[i].body).Fatal?;
      assert Joined(records).value[i] == s.whole[i];
    }
  }

  // ----- Splitting a record -----

  lemma {:induction false} JoinFromAppend(s: Joining, a: seq<Record>, b: seq<Record>)
    ensures JoinFrom(s, a + b) == match JoinFrom(s, a) case None => None case Some(m) => JoinFrom(m, b)
    decreases |b|
  {
    if b == [] {
      assert a + b == a;
    } else {
      var fewer := b[..|b| - 1];
      JoinFromAppend(s, a, fewer);
      assert (a + b)[..|a + b| - 1] == a + fewer;
    }
  }

  function Opened(s: Joining, pid: string, half: Half): Joining { s.(pending := s.pending[pid := half]) }

  lemma JoinOther(s: Joining, r: Record, pid: string, half: Half)
    requires r.pid != pid && pid !in s.pending
    ensures Join1(Opened(s, pid, half), r) ==
            match Join1(s, r) case None => None case Some(next) => Some(Opened(next, pid, half))
    ensures Join1(s, r).Some? ==> pid !in Join1(s, r).value.pending
  {
    hide Contains, Without, Following, StripLeft;
    var open := s.pending[pid := half];
    var mine := Half(r.timestamp, Without(r.body, UNFINISHED_MARK));
    assert open[r.pid := mine] == s.pending[r.pid := mine][pid := half];
    assert open - {r.pid} == (s.pending - {r.pid})[pid := half];
  }

  /** Records of other processes neither see nor disturb an open half. */
  lemma {:induction false} JoinOthers(s: Joining, records: seq<Record>, pid: string, half: Half)
    requires pid !in s.pending && forall i :: 0 <= i < |records| ==> records[i].pid != pid
    ensures JoinFrom(Opened(s, pid, half), records) ==
            match JoinFrom(s, records) case None => None case Some(next) => Some(Opened(next, pid, half))
    ensures JoinFrom(s, records).Some? ==> pid !in JoinFrom(s, records).value.pending
  {
    hide Join1;
    if records != [] {
      JoinOthers(s, records[..|records| - 1], pid, half);
      var before := JoinFrom(s, records[..|records| - 1]);
      if before.Some? { JoinOther(before.value, records[|records| - 1], pid, half); }
    }
  }

  /** A record the tracer would print as `head + tail`, and its two halves. */
  datatype Pieces = Pieces(pid: string, started: string, resumed: string, head: string, call: string, gap: string, tail: string)
  {
    function Printed(): Record { Record(pid, started, head + tail) }
    function First(): Record { Record(pid, started, head + UNFINISHED_MARK) }
    function Second(): Record { Record(pid, resumed, RESUMED_START + call + " " + RESUMED_END + gap + tail) }

    /** White space at the cut is lost. */
    function Rejoined(): Record { Record(pid, started, head + StripLeft(tail)) }

    /** The rejoined body is no half itself, and the call's name and the gap are
        a name and a gap. */
    ghost predicate WellCut()
    {
      && !Contains(Rejoined().body, UNFINISHED) && !(RESUMED_START <= Rejoined().body)
      && !Contains(Second().body, UNFINISHED)
      && '>' !in call
      && forall i :: 0 <= i < |gap| ==> IsSpace(gap[i])
    }
  }

  /** Rejoining gives the record as printed exactly when the cut is not before
      white space. */
  lemma RejoinedAsPrinted(p: Pieces)
    ensures p.Rejoined() == p.Printed() <==> p.tail == [] || !IsSpace(p.tail[0])
  {
    StripShorter(p.tail);
    if p.Rejoined() == p.Printed() {
      assert p.tail == p.Printed().body[|p.head|..] && StripLeft(p.tail) == p.Rejoined().body[|p.head|..];
    }
  }

  lemma {:induction false} StripShorter(s: string)
    ensures |StripLeft(s)| <= |s|
    ensures |StripLeft(s)| == |s| <==> s == [] || !IsSpace(s[0])
  {
    if s != [] && IsSpace(s[0]) { StripShorter(s[1..]); }
  }

  /** Words whose last character is their only `>`. */
  ghost predicate EndsOnce(word: string)
  {
    word != [] && word[|word| - 1] == '>' && forall j :: 0 <= j < |word| - 1 ==> word[j] != '>'
  }

  lemma MarksEndOnce()
    ensures EndsOnce(UNFINISHED_MARK) && EndsOnce(RESUMED_END)
  {
  }

  /** Such a word found before its own copy lies wholly in the text before it. */
  lemma EarlyInHead(head: string, word: string)
    requires head != [] && EndsOnce(word) && word <= head + word
    ensures word <= head
  {
    var s, last := head + word, |word| - 1;
    assert s[last] == '>';
    assert last < |head|;
    assert s[..|word|] == head[..|word|];
  }

  lemma {:induction false} MarkDrops(head: string)
    requires !Contains(head, UNFINISHED_MARK)
    ensures Without(head + UNFINISHED_MARK, UNFINISHED_MARK) == head
  {
    var s := head + UNFINISHED_MARK;
    if head == [] {
      assert s == UNFINISHED_MARK && s[|UNFINISHED_MARK|..] == [];
    } else {
      assert s[1..] == head[1..] + UNFINISHED_MARK;
      TailLacks(head, UNFINISHED_MARK);
      MarkDrops(head[1..]);
      MarksEndOnce();
      assert head[0..] == head && [head[0]] + head[1..] == head;
      if UNFINISHED_MARK <= s { EarlyInHead(head, UNFINISHED_MARK); }
    }
  }

  lemma TailLacks(head: string, piece: string)
    requires head != [] && !Contains(head, piece)
    ensures !Contains(head[1..], piece)
  {
    forall i | 0 <= i <= |head| - 1 ensures head[1..][i..] == head[i + 1..] {}
  }

  lemma ResumedEarly(before: string, rest: string)
    requires before != [] && RESUMED_END <= before + RESUMED_END + rest
    ensures '>' in before
  {
    MarksEndOnce();
    var s, last := before + RESUMED_END + rest, |RESUMED_END| - 1;
    assert s[last] == '>';
    assert last < |before|;
    assert before[last] == '>';
  }

  lemma {:induction false} FollowingFirst(before: string, rest: string)
    requires '>' !in before
    ensures Following(before + RESUMED_END + rest, RESUMED_END) == Some(rest)
  {
    var s := before + RESUMED_END + rest;
    if before == [] {
      assert s == RESUMED_END + rest && s[|RESUMED_END|..] == rest;
    } else {
      assert s[1..] == before[1..] + RESUMED_END + rest;
      FollowingFirst(before[1..], rest);
      if RESUMED_END <= s { ResumedEarly(before, rest); }
    }
  }

  lemma {:induction false} GapStrips(gap: string, tail: string)
    requires forall i :: 0 <= i < |gap| ==> IsSpace(gap[i])
    ensures StripLeft(gap + tail) == StripLeft(tail)
  {
    if gap == [] {
      assert gap + tail == tail;
    } else {
      assert (gap + tail)[1..] == gap[1..] + tail;
      GapStrips(gap[1..], tail);
    }
  }

  lemma MarkedContains(head: string, tail: string)
    requires Contains(head, UNFINISHED_MARK)
    ensures Contains(head + tail, UNFINISHED)
  {
    var i :| 0 <= i <= |head| && UNFINISHED_MARK <= head[i..];
    assert UNFINISHED_MARK == " " + UNFINISHED;
    assert (head + tail)[i + 1..] == head[i..][1..] + tail;
    assert UNFINISHED <= head[i..][1..] + tail;
  }

  lemma FirstIsUnfinished(p: Pieces)
    ensures Contains(p.First().body, UNFINISHED)
  {
    assert UNFINISHED_MARK == " " + UNFINISHED;
    assert p.First().body[|p.head| + 1..] == UNFINISHED;
  }

  lemma FirstOpens(s: Joining, p: Pieces)
    requires p.WellCut() && p.pid !in s.pending
    ensures Join1(s, p.First()) == Some(Opened(s, p.pid, Half(p.started, p.head)))
  {
    hide Contains, Without, StripLeft, Following;
    FirstIsUnfinished(p);
    if Contains(p.head, UNFINISHED_MARK) { MarkedContains(p.head, StripLeft(p.tail)); }
    MarkDrops(p.head);
  }

  lemma SecondCloses(s: Joining, p: Pieces)
    requires p.WellCut() && p.pid !in s.pending
    ensures Join1(Opened(s, p.pid, Half(p.started, p.head)), p.Second()) == Join1(s, p.Rejoined())
  {
    hide Contains, Without, StripLeft, Following;
    var before := RESUMED_START + p.call + " ";
    assert '>' !in RESUMED_START;
    assert p.Second().body == before + RESUMED_END + (p.gap + p.tail);
    FollowingFirst(before, p.gap + p.tail);
    GapStrips(p.gap, p.tail);
    assert RESUMED_START <= p.Second().body;
    assert s.pending[p.pid := Half(p.started, p.head)] - {p.pid} == s.pending;
  }

  /** A record cut in two, with any records of other processes between, reads as
      the rejoined record at the point it resumed with the time it started. */
  lemma SplitRecord(before: seq<Record>, between: seq<Record>, after: seq<Record>, p: Pieces)
    requires p.WellCut() && forall i :: 0 <= i < |between| ==> between[i].pid != p.pid
    requires JoinFrom(NOTHING, before).Some? ==> p.pid !in JoinFrom(NOTHING, before).value.pending
    ensures Joined(before + [p.First()] + between + [p.Second()] + after) == Joined(before + between + [p.Rejoined()] + after)
  {
    var cut := before + [p.First()] + between + [p.Second()];
    var whole := before + between + [p.Rejoined()];
    JoinFromAppend(NOTHING, cut, after);
    JoinFromAppend(NOTHING, whole, after);
    SplitPrefix(before, between, p);
  }

  lemma JoinFromOne(s: Joining, r: Record)
    ensures JoinFrom(s, [r]) == Join1(s, r)
  {
    assert [r][..0] == [];
  }

  lemma SplitPrefix(before: seq<Record>, between: seq<Record>, p: Pieces)
    requires p.WellCut() && forall i :: 0 <= i < |between| ==> between[i].pid != p.pid
    requires JoinFrom(NOTHING, before).Some? ==> p.pid !in JoinFrom(NOTHING, before).value.pending
    ensures JoinFrom(NOTHING, before + [p.First()] + between + [p.Second()]) == JoinFrom(NOTHING, before + between + [p.Rejoined()])
  {
    hide Join1;
    JoinFromAppend(NOTHING, before + [p.First()] + between, [p.Second()]);
    JoinFromAppend(NOTHING, before + [p.First()], between);
    JoinFromAppend(NOTHING, before, [p.First()]);
    JoinFromAppend(NOTHING, before + between, [p.Rejoined()]);
    JoinFromAppend(NOTHING, before, between);
    var start := JoinFrom(NOTHING, before);
    if start.Some? {
      JoinFromOne(start.value, p.First());
      FirstOpens(start.value, p);
      JoinOthers(start.value, between, p.pid, Half(p.started, p.head));
      var middle := JoinFrom(start.value, between);
      if middle.Some? {
        JoinFromOne(Opened(middle.value, p.pid, Half(p.started, p.head)), p.Second());
        JoinFromOne(middle.value, p.Rejoined());
        SecondCloses(middle.value, p);
      }
    }
  }

  /** An unmatched half is refused: a resumption nothing opened, a second
      opening of one process, and an opening nothing resumes. */
  lemma UnmatchedRefused(before: seq<Record>, r: Record, after: seq<Record>)
    requires JoinFrom(NOTHING, before).Some?
    ensures var s := JoinFrom(NOTHING, before).value;
            && (Contains(r.body, UNFINISHED) && r.pid in s.pending ==> Joined(before + [r] + after).None?)
            && (!Contains(r.body, UNFINISHED) && RESUMED_START <= r.body && r.pid !in s.pending ==>
                  Joined(before + [r] + after).None?)
            && (Contains(r.body, UNFINISHED) && (forall i :: 0 <= i < |after| ==> after[i].pid != r.pid) ==>
                  Joined(before + [r] + after).None?)
  {
    hide Contains, Without, Following, StripLeft;
    JoinFromAppend(NOTHING, before + [r], after);
    JoinFromAppend(NOTHING, before, [r]);
    var s := JoinFrom(NOTHING, before).value;
    JoinFromOne(s, r);
    if Contains(r.body, UNFINISHED) && r.pid !in s.pending && (forall i :: 0 <= i < |after| ==> after[i].pid != r.pid) {
      var half := Half(r.timestamp, Without(r.body, UNFINISHED_MARK));
      assert Join1(s, r) == Some(Opened(s, r.pid, half));
      JoinOthers(s, after, r.pid, half);
      var rest := JoinFrom(s, after);
      assert rest.Some? ==> r.pid in Opened(rest.value, r.pid, half).pending;
    }
  }

  /** Every shell reported carries the last exit code of its process. */
  lemma {:induction false} ShellsCarryLastExit(reading: Reading, whole: seq<Record>, shells: seq<Started>, i: nat)
    requires WithExits(reading, whole, shells).Some? && i < |shells|
    ensures |WithExits(reading, whole, shells).value| == |shells|
    ensures var found := WithExits(reading, whole, shells).value[i];
            && found.pid == shells[i].pid && found.timestamp == shells[i].timestamp && found.argv == shells[i].argv
            && LastExit(reading, whole, found.pid) == Some(found.exitCode)
    decreases |shells|
  {
    var before := shells[..|shells| - 1];
    if before != [] {
      ShellsCarryLastExit(reading, whole, before, if i < |before| then i else 0);
    }
  }

  // ----- Whole records -----

  /** A trace in which nothing is cut joins to itself. */
  lemma {:induction false} WholeTraceJoins(records: seq<Record>)
    requires forall i :: 0 <= i < |records| ==>
               !Contains(records[i].body, "<unfinished ...>") && !("<... " <= records[i].body)
    ensures JoinFrom(NOTHING, records) == Some(Joining(map[], records)) && Joined(records) == Some(records)
  {
    if records != [] {
      WholeTraceJoins(records[..|records| - 1]);
      assert records == records[..|records| - 1] + [records[|records| - 1]];
    }
  }

  ghost predicate Exits1(reading: Reading, r: Record, pid: string) { r.pid == pid && reading(r.body).Exit? }

  /** The last exit of a process is the one no later record of it follows. */
  lemma {:induction false} LastExitMeans(reading: Reading, whole: seq<Record>, pid: string, i: nat)
    requires i < |whole| && Exits1(reading, whole[i], pid)
    requires forall j :: i < j < |whole| ==> !Exits1(reading, whole[j], pid)
    ensures LastExit(reading, whole, pid) == Some(reading(whole[i].body).code)
  {
    if i < |whole| - 1 {
      assert !Exits1(reading, whole[|whole| - 1], pid);
      LastExitMeans(reading, whole[..|whole| - 1], pid, i);
    }
  }

  lemma {:induction false} NoExitMeans(reading: Reading, whole: seq<Record>, pid: string)
    requires forall j :: 0 <= j < |whole| ==> !Exits1(reading, whole[j], pid)
    ensures LastExit(reading, whole, pid) == None
  {
    if whole != [] {
      assert !Exits1(reading, whole[|whole| - 1], pid);
      NoExitMeans(reading, whole[..|whole| - 1], pid);
    }
  }

  /** A trace of whole records fails exactly when one of them cannot be read or a
      shell's process never exits. */
  lemma ReportFailsExactly(reading: Reading, whole: seq<Record>)
    ensures Report(reading, whole).None? <==>
            || (exists i :: 0 <= i < |whole| && reading(whole[i].body).Fatal?)
            || (exists s :: s in Shells(reading, whole) && forall j :: 0 <= j < |whole| ==> !Exits1(reading, whole[j], s.pid))
  {
    ExitsFailExactly(reading, whole, Shells(reading, whole));
    forall s | s in Shells(reading, whole) ensures ExitKnown(reading, whole, s.pid) { ExitKnownExactly(reading, whole, s.pid); }
    hide Shells, WithExits, LastExit;
  }

  ghost predicate ExitKnown(reading: Reading, whole: seq<Record>, pid: string)
  {
    LastExit(reading, whole, pid).None? <==> forall j :: 0 <= j < |whole| ==> !Exits1(reading, whole[j], pid)
  }

  lemma {:induction false} ExitKnownExactly(reading: Reading, whole: seq<Record>, pid: string)
    ensures ExitKnown(reading, whole, pid)
  {
    if whole != [] {
      ExitKnownExactly(reading, whole[..|whole| - 1], pid);
      assert forall j :: 0 <= j < |whole| - 1 ==> whole[..|whole| - 1][j] == whole[j];
    }
  }

  lemma {:induction false} ExitsFailExactly(reading: Reading, whole: seq<Record>, shells: seq<Started>)
    ensures WithExits(reading, whole, shells).None? <==>
            exists s :: s in shells && LastExit(reading, whole, s.pid).None?
  {
    hide LastExit;
    if shells != [] {
      var before, last := shells[..|shells| - 1], shells[|shells| - 1];
      ExitsFailExactly(reading, whole, before);
      assert forall s :: s in shells <==> s in before || s == last;
    }
  }

  /** The shells are those of the records that start one, in the trace's order. */
  lemma {:induction false} ShellsInOrder(reading: Reading, a: seq<Record>, r: Record, b: seq<Record>)
    ensures Shells(reading, a + [r] + b) ==
            Shells(reading, a) +
            (match reading(r.body) case Shell(argv) => [Started(r.pid, r.timestamp, argv)] case _ => []) +
            Shells(reading, b)
    decreases |b|
  {
    var whole := a + [r] + b;
    if b == [] {
      assert whole[..|whole| - 1] == a;
    } else {
      assert whole[..|whole| - 1] == a + [r] + b[..|b| - 1];
      ShellsInOrder(reading, a, r, b[..|b| - 1]);
    }
  }
}
