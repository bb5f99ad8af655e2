/** The execution board's dependency graph: the three-colour cycle search and
    the transitive closure. */
module BoardGraph {

  /** Each ticket's declared dependencies; a name that is no ticket is ignored. */
  type Graph = map<string, seq<string>>

  ghost predicate Edge(g: Graph, u: string, v: string)
  {
    u in g && v in g && v in g[u]
  }

  /** Consecutive tickets are joined by edges. */
  ghost predicate IsWalk(g: Graph, w: seq<string>)
  {
    forall i :: 0 <= i < |w| - 1 ==> Edge(g, w[i], w[i + 1])
  }

  /** A closed walk of at least one edge. */
  ghost predicate IsCycle(g: Graph, w: seq<string>)
  {
    IsWalk(g, w) && |w| >= 2 && w[0] == w[|w| - 1]
  }

  ghost predicate Reaches(g: Graph, u: string, v: string)
  {
    exists w :: IsWalk(g, w) && |w| >= 2 && w[0] == u && w[|w| - 1] == v
  }

  // ----- Ranked graphs have no cycle -----

  ghost predicate Ranked(g: Graph, rank: map<string, nat>)
  {
    forall u, v :: Edge(g, u, v) ==> u in rank && v in rank && rank[v] < rank[u]
  }

  lemma {:induction false} RankFalls(g: Graph, rank: map<string, nat>, w: seq<string>, i: nat)
    requires Ranked(g, rank) && IsWalk(g, w) && 0 < i < |w|
    ensures w[0] in rank && w[i] in rank && rank[w[i]] < rank[w[0]]
  {
    assert Edge(g, w[i - 1], w[i]);
    if i > 1 { RankFalls(g, rank, w, i - 1); }
  }

  lemma RankedAcyclic(g: Graph, rank: map<string, nat>)
    requires Ranked(g, rank)
    ensures !exists w :: IsCycle(g, w)
  {
    forall w ensures !IsCycle(g, w) {
      if IsWalk(g, w) && |w| >= 2 { RankFalls(g, rank, w, |w| - 1); }
    }
  }

  // ----- The three-colour search -----

  const GREY := 1
  const BLACK := 2

  class CycleSearch {
    const tickets: Graph
    var state: map<string, int>
    var errors: seq<seq<string>>
    ghost var rank: map<string, nat>
    ghost var clock: nat

    constructor (tickets: Graph)
      ensures this.tickets == tickets && state == map[] && errors == [] && rank == map[] && clock == 0
    {
      this.tickets := tickets;
      state, errors, rank, clock := map[], [], map[], 0;
    }

    ghost function Grey(): set<string>
      reads this
    {
      set t | t in state && state[t] == GREY
    }

    /** Colours belong to tickets, finished tickets carry their finishing
        times, errors are real cycles, and while there is no error every edge
        out of a finished ticket leads to one finished before it. */
    ghost predicate Valid()
      reads this
    {
      && (forall t :: t in state ==> t in tickets && (state[t] == GREY || state[t] == BLACK))
      && (forall t :: t in rank <==> t in state && state[t] == BLACK)
      && (forall t :: t in rank ==> rank[t] < clock)
      && (forall i :: 0 <= i < |errors| ==> IsCycle(tickets, errors[i]))
      && (errors == [] ==>
            forall u, v :: u in rank && Edge(tickets, u, v) ==> v in rank && rank[v] < rank[u])
    }

    /** What a visit keeps: colours only darken, the open path is as it was. */
    twostate predicate Progress()
      reads this
    {
      && old(state).Keys <= state.Keys
      && (forall t :: t in old(state) && old(state)[t] == BLACK ==> state[t] == BLACK)
      && Grey() == old(Grey())
      && old(errors) <= errors
      && (forall t :: t in old(rank) ==> t in rank && rank[t] == old(rank)[t])
      && old(clock) <= clock
    }

    ghost predicate OpenPath(path: seq<string>, ticket: string)
      reads this
    {
      && (forall t :: t in path <==> t in Grey())
      && IsWalk(tickets, path + [ticket])
    }

    method Visit(ticket: string, path: seq<string>)
      requires Valid() && ticket in tickets && OpenPath(path, ticket)
      modifies this
      ensures Valid() && Progress() && ticket in state
      ensures errors == [] ==> ticket in rank
      decreases tickets.Keys - state.Keys, 1
    {
      if ticket in state && state[ticket] == BLACK {
        return;
      }
      if ticket in state && state[ticket] == GREY {
        assert ticket in Grey();
        var start := IndexOf(path, ticket);
        assert (path + [ticket])[start..] == path[start..] + [ticket];
        errors := errors + [path[start..] + [ticket]];
        return;
      }
      Open(ticket, path);
    }

    /** A white ticket: grey while its dependencies are visited, then black. */
    method Open(ticket: string, path: seq<string>)
      requires Valid() && ticket in tickets && OpenPath(path, ticket) && ticket !in state
      modifies this
      ensures Valid() && Progress() && ticket in state
      ensures errors == [] ==> ticket in rank
      decreases tickets.Keys - state.Keys, 0
    {
      ghost var grey := Grey();
      Begin(ticket);
      VisitDependencies(ticket, path);
      Finish(ticket);
      assert Grey() == grey;
    }

    method Begin(ticket: string)
      requires Valid() && ticket in tickets && ticket !in state
      modifies this`state
      ensures Valid() && state == old(state)[ticket := GREY] && Grey() == old(Grey()) + {ticket}
    {
      state := state[ticket := GREY];
    }

    /** A ticket whose dependencies are all visited takes the next rank. */
    method Finish(ticket: string)
      requires Valid() && ticket in tickets && ticket in Grey()
      requires errors == [] ==> forall v :: Edge(tickets, ticket, v) ==> v in rank
      modifies this`state, this`rank, this`clock
      ensures Valid() && Grey() == old(Grey()) - {ticket}
      ensures state == old(state)[ticket := BLACK] && clock == old(clock) + 1
      ensures rank == old(rank)[ticket := old(clock)] && ticket !in old(rank)
    {
      state := state[ticket := BLACK];
      rank := rank[ticket := clock];
      clock := clock + 1;
    }

    method VisitDependencies(ticket: string, path: seq<string>)
      requires Valid() && ticket in tickets && IsWalk(tickets, path + [ticket])
      requires forall t :: t in path + [ticket] <==> t in Grey()
      modifies this
      ensures Valid() && Progress()
      ensures errors == [] ==> forall v :: Edge(tickets, ticket, v) ==> v in rank
      decreases tickets.Keys - state.Keys, 2
    {
      var dependencies := tickets[ticket];
      for i := 0 to |dependencies|
        invariant Valid() && Progress()
        invariant errors == [] ==> forall j :: 0 <= j < i && dependencies[j] in tickets ==> dependencies[j] in rank
      {
        if dependencies[i] in tickets {
          ghost var longer := path + [ticket];
          assert Edge(tickets, ticket, dependencies[i]);
          assert longer + [dependencies[i]] == path + [ticket] + [dependencies[i]];
          Visit(dependencies[i], path + [ticket]);
        }
      }
    }
  }

  method IndexOf(path: seq<string>, ticket: string) returns (k: nat)
    requires ticket in path
    ensures k < |path| && path[k] == ticket && ticket !in path[..k]
  {
    k := 0;
    while path[k] != ticket
      invariant k < |path| && ticket !in path[..k] && ticket in path[k..]
      decreases |path| - k
    {
      assert path[..k + 1] == path[..k] + [path[k]];
      assert path[k..] == [path[k]] + path[k + 1..];
      k := k + 1;
    }
  }

  /** The search reports a cycle exactly when the graph has one, and what it
      reports are cycles of the graph. */
  method FindCycles(tickets: Graph, order: seq<string>) returns (errors: seq<seq<string>>)
    requires forall t :: t in order <==> t in tickets
    ensures forall i :: 0 <= i < |errors| ==> IsCycle(tickets, errors[i])
    ensures errors != [] <==> exists w :: IsCycle(tickets, w)
  {
    var search := new CycleSearch(tickets);
    for i := 0 to |order|
      invariant search.tickets == tickets && search.Valid() && search.Grey() == {}
      invariant search.errors == [] ==> forall j :: 0 <= j < i ==> order[j] in search.rank
    {
      assert order[i] in order;
      assert IsWalk(tickets, [] + [order[i]]);
      search.Visit(order[i], []);
    }
    errors := search.errors;
    if errors == [] {
      forall u, v | Edge(tickets, u, v) ensures u in search.rank && v in search.rank && search.rank[v] < search.rank[u] {
        assert u in order;
      }
      RankedAcyclic(tickets, search.rank);
    } else {
      assert IsCycle(tickets, errors[0]);
    }
  }

  // ----- The transitive closure -----

  lemma ReachStep(g: Graph, u: string, v: string)
    requires Edge(g, u, v)
    ensures Reaches(g, u, v)
  {
    assert IsWalk(g, [u, v]);
  }

  lemma ReachTransitive(g: Graph, u: string, v: string, w: string)
    requires Reaches(g, u, v) && Reaches(g, v, w)
    ensures Reaches(g, u, w)
  {
    var a :| IsWalk(g, a) && |a| >= 2 && a[0] == u && a[|a| - 1] == v;
    var b :| IsWalk(g, b) && |b| >= 2 && b[0] == v && b[|b| - 1] == w;
    var c := a + b[1..];
    forall i | 0 <= i < |c| - 1 ensures Edge(g, c[i], c[i + 1]) {
      if i < |a| - 1 {
        assert Edge(g, a[i], a[i + 1]);
      } else {
        var j := i - (|a| - 1);
        assert c[i] == b[j] && c[i + 1] == b[j + 1];
        assert Edge(g, b[j], b[j + 1]);
      }
    }
    assert IsWalk(g, c) && c[0] == u && c[|c| - 1] == w;
  }

  /** A set that holds the successors of `u` and of its own members holds
      everything `u` reaches. */
  lemma {:induction false} ClosedHoldsReached(g: Graph, s: set<string>, u: string, w: seq<string>, i: nat)
    requires forall v :: Edge(g, u, v) ==> v in s
    requires forall x, v :: x in s && Edge(g, x, v) ==> v in s
    requires IsWalk(g, w) && 0 < i < |w| && w[0] == u
    ensures w[i] in s
  {
    assert Edge(g, w[i - 1], w[i]);
    if i > 1 { ClosedHoldsReached(g, s, u, w, i - 1); }
  }

  class Closure {
    const rows: Graph
    var seen: set<string>

    constructor (rows: Graph)
      ensures this.rows == rows && seen == {}
    {
      this.rows, seen := rows, {};
    }

    /** Adds what `ticket` reaches; every addition brings its own successors. */
    method Walk(ticket: string)
      requires ticket in rows && seen <= rows.Keys
      modifies this
      ensures old(seen) <= seen <= rows.Keys
      ensures forall x :: x in seen - old(seen) ==> Reaches(rows, ticket, x)
      ensures forall v :: Edge(rows, ticket, v) ==> v in seen
      ensures forall x, v :: x in seen - old(seen) && Edge(rows, x, v) ==> v in seen
      decreases rows.Keys - seen
    {
      var dependencies := rows[ticket];
      for i := 0 to |dependencies|
        invariant old(seen) <= seen <= rows.Keys
        invariant forall x :: x in seen - old(seen) ==> Reaches(rows, ticket, x)
        invariant forall j :: 0 <= j < i && dependencies[j] in rows ==> dependencies[j] in seen
        invariant forall x, v :: x in seen - old(seen) && Edge(rows, x, v) ==> v in seen
      {
        var dependency := dependencies[i];
        if dependency in rows && dependency !in seen {
          assert Edge(rows, ticket, dependency);
          ReachStep(rows, ticket, dependency);
          ghost var before := seen;
          seen := seen + {dependency};
          Walk(dependency);
          forall x | x in seen - old(seen) ensures Reaches(rows, ticket, x) {
            if x !in before && x != dependency { ReachTransitive(rows, ticket, dependency, x); }
          }
        }
      }
    }
  }

  /** Exactly the tickets reached by at least one edge, cycles included. */
  method Reachable(rows: Graph, ticket: string) returns (seen: set<string>)
    requires ticket in rows
    ensures forall v :: v in seen <==> Reaches(rows, ticket, v)
  {
    var closure := new Closure(rows);
    closure.Walk(ticket);
    seen := closure.seen;
    forall v | Reaches(rows, ticket, v) ensures v in seen {
      var w :| IsWalk(rows, w) && |w| >= 2 && w[0] == ticket && w[|w| - 1] == v;
      ClosedHoldsReached(rows, seen, ticket, w, |w| - 1);
    }
  }

  method ReachableFromAll(rows: Graph) returns (reachable: map<string, set<string>>)
    ensures reachable.Keys == rows.Keys
    ensures forall u, v :: u in rows ==> (v in reachable[u] <==> Reaches(rows, u, v))
  {
    reachable := map[];
    var pending := rows.Keys;
    while pending != {}
      invariant pending <= rows.Keys && reachable.Keys == rows.Keys - pending
      invariant forall u, v :: u in reachable ==> (v in reachable[u] <==> Reaches(rows, u, v))
    {
      var ticket :| ticket in pending;
      var seen := Reachable(rows, ticket);
      reachable := reachable[ticket := seen];
      pending := pending - {ticket};
    }
  }
}
