/** Closure obligations: every closed ticket satisfies each obligation, is
    exempt from it, or is recorded as owing it, in ledgers pinned to baselines. */
module Ledger {
  import BoardStatuses

  const DONE := "DONE"

  /** One obligation: who satisfies it, the two ledgers and their baselines. */
  datatype Obligation = Obligation(satisfied: set<string>, exempt: set<string>, debt: set<string>,
                                   exemptBaseline: set<string>, debtBaseline: set<string>)

  function Closed(statuses: map<string, string>): set<string> { set t | t in statuses && statuses[t] == DONE }

  datatype Complaint =
    | NotInBaseline(ticket: string)
    | LeftInBaseline(ticket: string)
    | Misdirected(ticket: string)
    | BothLedgers(ticket: string)
    | Unmet(ticket: string)
    | ClosureMismatch(ticket: string)
    | Unpaid(owed: Owed)
    | OnBoard(complaint: BoardStatuses.Complaint)
    | Elsewhere(text: string)
    | DefectiveReceipt(ticket: string, defect: string)
    | BadAttribution(ticket: string)
    | EarlyAttribution(ticket: string)

  datatype Owed = Owed(obligation: nat, ticket: string)

  /** A ledger is its baseline, and each entry is a closed ticket that still
      needs it. */
  ghost predicate LedgerOk(ledger: set<string>, baseline: set<string>, statuses: map<string, string>, satisfied: set<string>)
  {
    ledger == baseline && ledger <= Closed(statuses) - satisfied
  }

  ghost predicate LedgersOk(o: Obligation, statuses: map<string, string>)
  {
    && LedgerOk(o.exempt, o.exemptBaseline, statuses, o.satisfied)
    && LedgerOk(o.debt, o.debtBaseline, statuses, o.satisfied)
    && o.exempt * o.debt == {}
  }

  /** Complains of every member of `s` through `as_`. */
  method ComplainOf(s: set<string>, as_: string -> Complaint) returns (errors: seq<Complaint>)
    ensures errors == [] <==> s == {}
    ensures |errors| == |s|
  {
    errors := [];
    var pending := s;
    while pending != {}
      invariant |errors| + |pending| == |s|
    {
      var t :| t in pending;
      errors, pending := errors + [as_(t)], pending - {t};
    }
  }

  /** `check_ledger`: no complaint exactly when both ledgers are in order. */
  method CheckLedger(o: Obligation, statuses: map<string, string>) returns (errors: seq<Complaint>)
    ensures errors == [] <==> LedgersOk(o, statuses)
  {
    var exempt := CheckOne(o.exempt, o.exemptBaseline, statuses, o.satisfied);
    var debt := CheckOne(o.debt, o.debtBaseline, statuses, o.satisfied);
    var both := ComplainOf(o.exempt * o.debt, t => BothLedgers(t));
    errors := exempt + debt + both;
  }

  method CheckOne(ledger: set<string>, baseline: set<string>, statuses: map<string, string>, satisfied: set<string>)
    returns (errors: seq<Complaint>)
    ensures errors == [] <==> LedgerOk(ledger, baseline, statuses, satisfied)
  {
    var extra := ComplainOf(ledger - baseline, t => NotInBaseline(t));
    var left := ComplainOf(baseline - ledger, t => LeftInBaseline(t));
    var wrong := set t | t in ledger && (t !in statuses || statuses[t] != DONE || t in satisfied);
    var misdirected := ComplainOf(wrong, t => Misdirected(t));
    errors := extra + left + misdirected;
    if errors == [] {
      assert forall t :: t in ledger ==> t !in wrong;
      assert ledger == (ledger - baseline) + (ledger * baseline);
      assert baseline == (baseline - ledger) + (ledger * baseline);
    }
  }

  /** The tickets an obligation leaves owing, and those it leaves unmet. */
  function Open(o: Obligation, statuses: map<string, string>): set<string>
  {
    Closed(statuses) - o.satisfied - o.exempt
  }

  ghost predicate Accepted(a: Obligation, b: Obligation, statuses: map<string, string>, closed: set<string>, strict: bool)
  {
    && Closed(statuses) == closed
    && LedgersOk(a, statuses) && LedgersOk(b, statuses)
    && Open(a, statuses) <= a.debt && Open(b, statuses) <= b.debt
    && (strict ==> Open(a, statuses) * a.debt == {} && Open(b, statuses) * b.debt == {})
  }

  ghost function Due(o: Obligation, s: set<string>): set<string> { s - o.satisfied - o.exempt }

  ghost function OwedIn(o: Obligation, s: set<string>): nat { |Due(o, s) * o.debt| }

  ghost predicate Recorded(o: Obligation, s: set<string>) { Due(o, s) <= o.debt }

  lemma DueNone(o: Obligation)
    ensures Recorded(o, {}) && OwedIn(o, {}) == 0
  {
    assert Due(o, {}) * o.debt == {};
  }

  predicate Owes(o: Obligation, t: string) { t !in o.satisfied && t !in o.exempt }

  lemma DueStep(o: Obligation, s: set<string>, t: string)
    requires t !in s
    ensures OwedIn(o, s + {t}) == OwedIn(o, s) + (if Owes(o, t) && t in o.debt then 1 else 0)
    ensures Recorded(o, s + {t}) <==> Recorded(o, s) && (Owes(o, t) ==> t in o.debt)
  {
    if Owes(o, t) {
      assert Due(o, s + {t}) == Due(o, s) + {t};
      if t in o.debt {
        assert Due(o, s + {t}) * o.debt == (Due(o, s) * o.debt) + {t};
      } else {
        assert Due(o, s + {t}) * o.debt == Due(o, s) * o.debt;
      }
    } else {
      assert Due(o, s + {t}) == Due(o, s);
    }
  }

  method Account(index: nat, o: Obligation, statuses: map<string, string>)
    returns (debt: seq<Owed>, errors: seq<Complaint>)
    ensures |debt| == |Open(o, statuses) * o.debt|
    ensures forall x :: x in debt <==> x.obligation == index && x.ticket in Open(o, statuses) * o.debt
    ensures errors == [] <==> Open(o, statuses) <= o.debt
  {
    DueNone(o);
    assert Open(o, statuses) == Due(o, Closed(statuses));
    assert OwedIn(o, Closed(statuses)) == |Open(o, statuses) * o.debt|;
    assert Recorded(o, Closed(statuses)) <==> Open(o, statuses) <= o.debt;
    debt, errors := AccountAll(index, o, Closed(statuses));
  }

  method AccountAll(index: nat, o: Obligation, all: set<string>) returns (debt: seq<Owed>, errors: seq<Complaint>)
    ensures |debt| == OwedIn(o, all)
    ensures forall x :: x in debt <==> x.obligation == index && x.ticket in all && Owes(o, x.ticket) && x.ticket in o.debt
    ensures errors == [] <==> Recorded(o, all)
  {
    DueNone(o);
    hide OwedIn, Recorded;
    debt, errors := [], [];
    var pending := all;
    assert all - pending == {};
    while pending != {}
      invariant pending <= all
      invariant |debt| == OwedIn(o, all - pending)
      invariant forall x :: x in debt <==>
                  x.obligation == index && x.ticket in all - pending && Owes(o, x.ticket) && x.ticket in o.debt
      invariant errors == [] <==> Recorded(o, all - pending)
    {
      var t :| t in pending;
      DueStep(o, all - pending, t);
      assert all - (pending - {t}) == (all - pending) + {t};
      pending := pending - {t};
      if Owes(o, t) {
        if t in o.debt {
          debt := debt + [Owed(index, t)];
        } else {
          errors := errors + [Unmet(t)];
        }
      }
    }
    assert all - {} == all;
  }

  /** The accounting of `verify`: accepted exactly under the conditions, with
      the debts it counts. `a` and `b` are the receipt and threat-model
      obligations, `closed` the pinned set of closed tickets. */
  method Reconcile(a: Obligation, b: Obligation, statuses: map<string, string>, closed: set<string>, strict: bool)
    returns (errors: seq<Complaint>, debt: seq<Owed>)
    ensures errors == [] <==> Accepted(a, b, statuses, closed, strict)
    ensures |debt| == |Open(a, statuses) * a.debt| + |Open(b, statuses) * b.debt|
    ensures forall t :: Owed(0, t) in debt <==> t in Open(a, statuses) * a.debt
    ensures forall t :: Owed(1, t) in debt <==> t in Open(b, statuses) * b.debt
  {
    hide LedgersOk, Open;
    var drift := CompareClosed(statuses, closed);
    var ledgerA := CheckLedger(a, statuses);
    var ledgerB := CheckLedger(b, statuses);
    var debtA, unmetA := Account(0, a, statuses);
    var debtB, unmetB := Account(1, b, statuses);
    debt := debtA + debtB;
    var before := drift + ledgerA + ledgerB + unmetA + unmetB;
    errors := before;
    if strict {
      for i := 0 to |debt|
        invariant errors == [] <==> before == [] && i == 0
      {
        errors := errors + [Unpaid(debt[i])];
      }
    }
  }

  method CompareClosed(statuses: map<string, string>, closed: set<string>) returns (errors: seq<Complaint>)
    ensures errors == [] <==> Closed(statuses) == closed
  {
    var done := Closed(statuses);
    var unpinned := ComplainOf(done - closed, t => ClosureMismatch(t));
    var lost := ComplainOf(closed - done, t => ClosureMismatch(t));
    errors := unpinned + lost;
    assert done == (done - closed) + (done * closed);
    assert closed == (closed - done) + (done * closed);
  }

  ghost predicate SplitsInto(whole: set<string>, a: set<string>, b: set<string>, c: set<string>)
  {
    whole == a + b + c && a !! b && a !! c && b !! c
  }

  lemma ObligationAccounts(o: Obligation, statuses: map<string, string>)
    requires LedgersOk(o, statuses) && Open(o, statuses) <= o.debt && o.satisfied <= Closed(statuses)
    ensures SplitsInto(Closed(statuses), o.satisfied, o.exempt, o.debt)
    ensures Open(o, statuses) * o.debt == o.debt
  {
    hide Closed;
    assert forall t :: t in o.exempt ==> t !in o.exempt * o.debt;
    assert Open(o, statuses) == o.debt;
  }

  // ----- The whole verification -----

  /** What a ticket's receipt file gives: nothing there, or its defects. */
  datatype Receipt = Absent | Found(defects: seq<string>)

  /** What an attribution's document is: outside the documentation, not there,
      silent about the ticket, or a record of it. */
  datatype Evidence = Escapes | Missing | Silent | Records

  /** What the verifier reads beside the board. `others` are the complaints about
      its views, its citations, the attribution table and its own comments. */
  datatype Repository = Repository(receipts: string -> Receipt, attributions: map<string, Evidence>, others: seq<string>)

  function Receipted(repository: Repository, statuses: map<string, string>): set<string>
  {
    set t | t in Closed(statuses) && repository.receipts(t) == Found([])
  }

  function Reviewed(repository: Repository, statuses: map<string, string>): set<string>
  {
    Closed(statuses) * repository.attributions.Keys
  }

  ghost predicate ReceiptsSound(repository: Repository, s: set<string>)
  {
    forall t :: t in s && repository.receipts(t).Found? ==> repository.receipts(t).defects == []
  }

  predicate Attributed(repository: Repository, statuses: map<string, string>, t: string)
    requires t in repository.attributions
  {
    repository.attributions[t] == Records && t in Closed(statuses)
  }

  /** Everything `verify` asks of the documents and the ledgers. */
  ghost predicate InOrder(repository: Repository, a: Obligation, b: Obligation, statuses: map<string, string>,
                          closed: set<string>, strict: bool)
  {
    && repository.others == [] && ReceiptsSound(repository, Closed(statuses))
    && (forall t :: t in repository.attributions ==> Attributed(repository, statuses, t))
    && Accepted(a.(satisfied := Receipted(repository, statuses)), b.(satisfied := Reviewed(repository, statuses)),
                statuses, closed, strict)
  }

  method GatherReceipts(repository: Repository, statuses: map<string, string>)
    returns (receipted: set<string>, errors: seq<Complaint>)
    ensures receipted == Receipted(repository, statuses)
    ensures errors == [] <==> ReceiptsSound(repository, Closed(statuses))
  {
    receipted, errors := {}, [];
    var pending := Closed(statuses);
    while pending != {}
      invariant pending <= Closed(statuses)
      invariant forall t :: t in receipted <==> t in Closed(statuses) - pending && repository.receipts(t) == Found([])
      invariant errors == [] <==> ReceiptsSound(repository, Closed(statuses) - pending)
    {
      var t :| t in pending;
      assert Closed(statuses) - (pending - {t}) == (Closed(statuses) - pending) + {t};
      pending := pending - {t};
      match repository.receipts(t)
      case Absent =>
      case Found(defects) =>
        if defects == [] {
          receipted := receipted + {t};
        } else {
          var more := seq(|defects|, i requires 0 <= i < |defects| => DefectiveReceipt(t, defects[i]));
          errors := errors + more;
        }
    }
  }

  method CheckAttributions(repository: Repository, statuses: map<string, string>) returns (errors: seq<Complaint>)
    ensures errors == [] <==> forall t :: t in repository.attributions ==> Attributed(repository, statuses, t)
  {
    errors := [];
    var all := repository.attributions.Keys;
    var pending := all;
    while pending != {}
      invariant pending <= all
      invariant errors == [] <==> forall t :: t in all - pending ==> Attributed(repository, statuses, t)
    {
      var t :| t in pending;
      pending := pending - {t};
      if repository.attributions[t] != Records { errors := errors + [BadAttribution(t)]; }
      if t !in Closed(statuses) { errors := errors + [EarlyAttribution(t)]; }
      assert t in all - pending;
    }
  }

  /** The closure verifier from the board's lines to its verdict: no error
      exactly when the board is readable and, with the statuses it states,
      everything is in order; the debt then reported is the two debt ledgers. */
  method Verify(lines: seq<string>, repository: Repository, a: Obligation, b: Obligation, closed: set<string>, strict: bool)
    returns (errors: seq<Complaint>, debt: seq<Owed>, statuses: map<string, string>)
    ensures BoardStatuses.Readable(lines) ==> BoardStatuses.ReadFrom(lines, statuses)
    ensures errors == [] <==> BoardStatuses.Readable(lines) && InOrder(repository, a, b, statuses, closed, strict)
    ensures errors == [] ==> |debt| == |a.debt| + |b.debt|
    ensures errors == [] ==> forall t :: (Owed(0, t) in debt <==> t in a.debt) && (Owed(1, t) in debt <==> t in b.debt)
  {
    hide BoardStatuses.Readable, BoardStatuses.Gathered, Accepted, Receipted, Reviewed, ReceiptsSound, Open;
    var read, board := BoardStatuses.ReadStatuses(lines);
    statuses := read;
    errors := seq(|board|, i requires 0 <= i < |board| => OnBoard(board[i]));
    errors := errors + seq(|repository.others|, i requires 0 <= i < |repository.others| => Elsewhere(repository.others[i]));
    debt := [];
    if BoardStatuses.Readable(lines) { BoardReads(lines, read); }
    if read == map[] { return; }
    var receipted, defects := GatherReceipts(repository, read);
    var attributed := CheckAttributions(repository, read);
    var reviewed := Closed(read) * repository.attributions.Keys;
    assert reviewed == Reviewed(repository, read) by { ReviewedIs(repository, read); }
    var accounts;
    accounts, debt := Reconcile(a.(satisfied := receipted), b.(satisfied := reviewed), read, closed, strict);
    errors := errors + defects + attributed + accounts;
    if errors == [] { AcceptedAccounts(repository, a, b, statuses, closed, strict); }
  }

  lemma ReviewedIs(repository: Repository, statuses: map<string, string>)
    ensures Reviewed(repository, statuses) == Closed(statuses) * repository.attributions.Keys
  {
  }

  lemma BoardReads(lines: seq<string>, statuses: map<string, string>)
    requires BoardStatuses.Readable(lines)
    requires BoardStatuses.Gathered(lines, BoardStatuses.Rows(lines, BoardStatuses.TablesFrom(lines, 0)), statuses, true)
    ensures BoardStatuses.ReadFrom(lines, statuses) && statuses != map[]
  {
    BoardStatuses.VerifiersAgree(lines, statuses);
    BoardStatuses.NothingGathered(lines, BoardStatuses.Rows(lines, BoardStatuses.TablesFrom(lines, 0)), statuses, true);
    hide BoardStatuses.Gathered, BoardStatuses.ReadFrom;
  }

  /** On an accepted repository the closed tickets are, for each obligation,
      the disjoint union of satisfied, exempt and debt; each ledger is its
      baseline; the debt reported is the two debt ledgers; and strict
      acceptance leaves both empty. */
  lemma AcceptedAccounts(repository: Repository, a: Obligation, b: Obligation, statuses: map<string, string>, closed: set<string>, strict: bool)
    requires InOrder(repository, a, b, statuses, closed, strict)
    ensures SplitsInto(closed, Receipted(repository, statuses), a.exempt, a.debt)
    ensures SplitsInto(closed, repository.attributions.Keys, b.exempt, b.debt)
    ensures a.exempt == a.exemptBaseline && a.debt == a.debtBaseline && b.exempt == b.exemptBaseline && b.debt == b.debtBaseline
    ensures var aa, bb := a.(satisfied := Receipted(repository, statuses)), b.(satisfied := Reviewed(repository, statuses));
            Open(aa, statuses) * a.debt == a.debt && Open(bb, statuses) * b.debt == b.debt
    ensures strict ==> a.debt == {} && b.debt == {}
  {
    var aa, bb := a.(satisfied := Receipted(repository, statuses)), b.(satisfied := Reviewed(repository, statuses));
    assert repository.attributions.Keys == bb.satisfied;
    ObligationAccounts(aa, statuses);
    ObligationAccounts(bb, statuses);
    hide Closed, Open, SplitsInto, Receipted, Reviewed, ReceiptsSound;
  }

  predicate ExactlyOne(a: bool, b: bool, c: bool) { (a || b || c) && !(a && b) && !(a && c) && !(b && c) }

  /** A ticket as the verdict reads it. It is closed when it is pinned so; closed,
      it has a sound receipt, an exemption or a debt, one of them, and an
      attribution that is recorded, an exemption or a debt, one of them. */
  ghost predicate Accounted(repository: Repository, a: Obligation, b: Obligation, statuses: map<string, string>,
                            closed: set<string>, strict: bool, t: string)
  {
    && (t in closed <==> t in statuses && statuses[t] == "DONE")
    && (t in closed ==>
          && ExactlyOne(repository.receipts(t) == Found([]), t in a.exempt, t in a.debt)
          && ExactlyOne(t in repository.attributions, t in b.exempt, t in b.debt)
          && (repository.receipts(t).Absent? || repository.receipts(t) == Found([])))
    && (t !in closed ==> t !in a.exempt + a.debt + b.exempt + b.debt)
    && (t in repository.attributions ==> t in closed && repository.attributions[t].Records?)
    && (strict ==> t !in a.debt && t !in b.debt)
  }

  /** Everything is in order exactly when the ledgers are their baselines, no other
      complaint stands, and every ticket is accounted for. */
  lemma InOrderExact(repository: Repository, a: Obligation, b: Obligation, statuses: map<string, string>, closed: set<string>, strict: bool)
    ensures InOrder(repository, a, b, statuses, closed, strict) <==>
            && repository.others == []
            && a.exempt == a.exemptBaseline && a.debt == a.debtBaseline && b.exempt == b.exemptBaseline && b.debt == b.debtBaseline
            && forall t :: Accounted(repository, a, b, statuses, closed, strict, t)
  {
    if InOrder(repository, a, b, statuses, closed, strict) {
      AcceptedAccounts(repository, a, b, statuses, closed, strict);
      forall t ensures Accounted(repository, a, b, statuses, closed, strict, t) {
        InOrderAccounts(repository, a, b, statuses, closed, strict, t);
      }
    }
    if forall t :: Accounted(repository, a, b, statuses, closed, strict, t) {
      AccountedInOrder(repository, a, b, statuses, closed, strict);
    }
    hide Accounted, InOrder;
  }

  lemma InOrderAccounts(repository: Repository, a: Obligation, b: Obligation, statuses: map<string, string>, closed: set<string>, strict: bool, t: string)
    requires InOrder(repository, a, b, statuses, closed, strict)
    ensures Accounted(repository, a, b, statuses, closed, strict, t)
  {
    AcceptedAccounts(repository, a, b, statuses, closed, strict);
    assert t in a.exempt * a.debt <==> t in a.exempt && t in a.debt;
    assert t in b.exempt * b.debt <==> t in b.exempt && t in b.debt;
  }

  lemma AccountedInOrder(repository: Repository, a: Obligation, b: Obligation, statuses: map<string, string>, closed: set<string>, strict: bool)
    requires forall t :: Accounted(repository, a, b, statuses, closed, strict, t)
    ensures repository.others == [] &&
            a.exempt == a.exemptBaseline && a.debt == a.debtBaseline && b.exempt == b.exemptBaseline && b.debt == b.debtBaseline ==>
              InOrder(repository, a, b, statuses, closed, strict)
  {
    forall t ensures t in Closed(statuses) <==> t in closed { assert Accounted(repository, a, b, statuses, closed, strict, t); }
    assert Closed(statuses) == closed;
    forall t ensures (t in a.exempt || t in a.debt ==> t in closed && repository.receipts(t) != Found([])) && !(t in a.exempt && t in a.debt) {
      assert Accounted(repository, a, b, statuses, closed, strict, t);
    }
    forall t ensures (t in b.exempt || t in b.debt ==> t in closed && t !in repository.attributions) && !(t in b.exempt && t in b.debt) {
      assert Accounted(repository, a, b, statuses, closed, strict, t);
    }
    forall t | t in closed
      ensures repository.receipts(t) == Found([]) || t in a.exempt || t in a.debt
      ensures t in repository.attributions || t in b.exempt || t in b.debt
      ensures repository.receipts(t).Found? ==> repository.receipts(t).defects == []
    {
      assert Accounted(repository, a, b, statuses, closed, strict, t);
    }
    forall t | t in repository.attributions ensures Attributed(repository, statuses, t) {
      assert Accounted(repository, a, b, statuses, closed, strict, t);
    }
    if strict { forall t ensures t !in a.debt && t !in b.debt { assert Accounted(repository, a, b, statuses, closed, strict, t); } }
    assert a.exempt * a.debt == {} && b.exempt * b.debt == {};
  }
}
