/**
  Goal-directed breadth-first and depth-first search (`DoBFS`, `DoDFS`). Both
  pop a vertex from a worklist; the end vertex stops the search with
  `SearchOver`, an unvisited vertex is visited and its edges' destinations are
  pushed, and a visited vertex is dropped. They differ only in the worklist
  discipline: a queue for BFS, a stack for DFS.
 */
module Search {
  import opened GraphStore
  import opened Walks
  import opened Events

  /** The destinations of `es`, in edge order, leaving out those in `skip`. */
  function Targets<V(==,!new)>(es: seq<Edge<V>>, skip: set<V>): (r: seq<V>)
    ensures |r| <= |es|
    ensures forall x :: x in r <==> x !in skip && exists j | 0 <= j < |es| :: es[j].destination == x
  {
    if es == [] then []
    else
      var rest := Targets(es[1..], skip);
      assert forall j | 1 <= j < |es| :: es[j] == es[1..][j - 1];
      if es[0].destination in skip then rest else [es[0].destination] + rest
  }

  /** One `Visit` event per vertex of `order`, in order. */
  function VisitEvents<V>(order: seq<V>): (r: seq<Event<V>>)
    ensures |r| == |order|
    ensures forall e | e in r :: e.Visit? && e.vertex in order
    ensures forall i | 0 <= i < |order| :: Visit(order[i]) in r
  {
    var r := seq(|order|, i requires 0 <= i < |order| => Visit(order[i]));
    assert forall i | 0 <= i < |order| :: r[i] == Visit(order[i]);
    r
  }

  /** The events a search sends: its `begun` event, its visits, and `SearchOver` if it reached the end. */
  function SearchTrace<V>(begun: Event<V>, order: seq<V>, found: bool): seq<Event<V>> {
    [begun] + VisitEvents(order) + (if found then [SearchOver] else [])
  }

  /**
    The shape both searches promise their observers: the `begun` event first,
    then visits of distinct vertices other than `end`, then possibly
    `SearchOver` as the very last event. A search from `end` itself reports
    nothing but `SearchOver`; any other search visits `start` first.
   */
  ghost predicate SearchTraceShape<V>(trace: seq<Event<V>>, begun: Event<V>, start: V, end: V) {
    && |trace| >= 1 && trace[0] == begun
    && (forall i | 1 <= i < |trace| :: trace[i].Visit? || (trace[i].SearchOver? && i == |trace| - 1))
    && (forall i, j | 1 <= i < j < |trace| && trace[i].Visit? && trace[j].Visit? :: trace[i].vertex != trace[j].vertex)
    && (forall i | 1 <= i < |trace| && trace[i].Visit? :: trace[i].vertex != end)
    && (start == end ==> trace == [begun, SearchOver])
    && (start != end ==> |trace| >= 2 && trace[1] == Visit(start))
  }

  /** Every vertex on the worklist is a vertex reachable from `start`. */
  ghost predicate WorkReachable<V(!new)>(g: Graph<V>, start: V, work: seq<V>) {
    forall i | 0 <= i < |work| :: work[i] in g && Reachable(g, start, work[i])
  }

  /** The visited set is the set of `order`, whose vertices are distinct, reachable, and not `end`. */
  ghost predicate VisitedInOrder<V(!new)>(g: Graph<V>, start: V, end: V, visited: set<V>, order: seq<V>) {
    && visited <= g.Keys
    && (forall x :: x in visited <==> x in order)
    && Distinct(order)
    && end !in visited
    && (forall x | x in visited :: Reachable(g, start, x))
  }

  /** Every edge leaving a visited vertex leads to a visited vertex or to one still on the worklist. */
  ghost predicate Frontier<V>(g: Graph<V>, visited: set<V>, work: seq<V>) {
    forall v, i | v in visited && v in g && 0 <= i < |g[v]| :: g[v][i].destination in visited || g[v][i].destination in work
  }

  /**
    The loop invariant shared by both searches, over the visited set, the
    visit order, the worklist and the found flag. While the end is not found,
    nothing reachable is lost: the frontier of the visited set is on the
    worklist.
   */
  ghost predicate Exploring<V(!new)>(g: Graph<V>, start: V, end: V, visited: set<V>, order: seq<V>, work: seq<V>, found: bool) {
    && WorkReachable(g, start, work)
    && VisitedInOrder(g, start, end, visited, order)
    && (!found ==> Frontier(g, visited, work) && (start in visited || start in work))
    && (found ==> Reachable(g, start, end))
    && (start == end ==> order == [] && (found || work == [start]))
    && (start != end ==> if order == [] then work == [start] && !found else order[0] == start)
  }

  /** Every destination pushed for a reachable vertex is a reachable vertex. */
  lemma TargetsReachable<V(!new)>(g: Graph<V>, start: V, u: V, skip: set<V>)
    requires Valid(g) && u in g && Reachable(g, start, u)
    ensures forall x | x in Targets(g[u], skip) :: x in g && Reachable(g, start, x)
  {
    forall x | x in Targets(g[u], skip)
      ensures x in g && Reachable(g, start, x)
    {
      var j :| 0 <= j < |g[u]| && g[u][j].destination == x;
      ReachableStep(g, start, u, j);
    }
  }

  /** The events built from a finished exploration have the promised shape. */
  lemma SearchTraceFacts<V>(begun: Event<V>, order: seq<V>, found: bool, start: V, end: V)
    requires begun.BFSBegun? || begun.DFSBegun?
    requires Distinct(order) && end !in order
    requires start == end ==> order == [] && found
    requires start != end ==> |order| >= 1 && order[0] == start
    ensures SearchTraceShape(SearchTrace(begun, order, found), begun, start, end)
    ensures SearchOver in SearchTrace(begun, order, found) <==> found
    ensures forall v :: Visit(v) in SearchTrace(begun, order, found) <==> v in order
  {
    var t := SearchTrace(begun, order, found);
    assert forall i | 1 <= i <= |order| :: t[i] == Visit(order[i - 1]);
    forall v | v in order
      ensures Visit(v) in t
    {
      var i :| 0 <= i < |order| && order[i] == v;
      assert t[i + 1] == Visit(v);
    }
    if found {
      assert t[|t| - 1] == SearchOver;
    }
  }

  /**
    When the worklist runs out before the end is found, the visited set holds
    every vertex reachable from `start`, and so not the end.
   */
  lemma ExhaustedSearch<V(!new)>(g: Graph<V>, start: V, end: V, visited: set<V>, order: seq<V>)
    requires Valid(g) && start in g
    requires Exploring(g, start, end, visited, order, [], false)
    ensures forall v | Reachable(g, start, v) :: v in visited
    ensures !Reachable(g, start, end)
  {
    assert Closed(g, visited);
    forall v | Reachable(g, start, v)
      ensures v in visited
    {
      var es :| IsWalk(g, start, es) && Target(start, es) == v;
      ClosedKeepsWalks(g, visited, start, es);
    }
  }

  /** Popping the end vertex: the end was reachable. */
  lemma FoundStep<V(!new)>(g: Graph<V>, start: V, end: V, visited: set<V>, order: seq<V>, work: seq<V>, rest: seq<V>)
    requires Exploring(g, start, end, visited, order, work, false)
    requires end in work && forall x | x in rest :: x in work
    ensures Exploring(g, start, end, visited, order, rest, true)
  {
    forall i | 0 <= i < |rest|
      ensures rest[i] in g && Reachable(g, start, rest[i])
    {
      assert rest[i] in work;
    }
    var k :| 0 <= k < |work| && work[k] == end;
  }

  /** Popping an already visited vertex: it is dropped. */
  lemma DropStep<V(!new)>(g: Graph<V>, start: V, end: V, visited: set<V>, order: seq<V>, work: seq<V>, current: V, rest: seq<V>)
    requires Exploring(g, start, end, visited, order, work, false)
    requires current in work && current in visited && current != end
    requires forall x :: x in work <==> x == current || x in rest
    ensures Exploring(g, start, end, visited, order, rest, false)
  {
    forall i | 0 <= i < |rest|
      ensures rest[i] in g && Reachable(g, start, rest[i])
    {
      assert rest[i] in work;
    }
  }

  /** The worklist after a visit holds only reachable vertices. */
  lemma VisitWork<V(!new)>(g: Graph<V>, start: V, work: seq<V>, current: V, rest: seq<V>, skip: set<V>)
    requires Valid(g) && WorkReachable(g, start, work)
    requires current in work && forall x :: x in work <==> x == current || x in rest
    ensures current in g && Reachable(g, start, current)
    ensures WorkReachable(g, start, rest + Targets(g[current], skip))
  {
    var k :| 0 <= k < |work| && work[k] == current;
    TargetsReachable(g, start, current, skip);
    var work' := rest + Targets(g[current], skip);
    forall i | 0 <= i < |work'|
      ensures work'[i] in g && Reachable(g, start, work'[i])
    {
      if i < |rest| {
        assert rest[i] in work;
        var j :| 0 <= j < |work| && work[j] == rest[i];
      } else {
        assert work'[i] in Targets(g[current], skip);
      }
    }
  }

  /** Visiting a new reachable vertex other than `end` appends it to the order. */
  lemma VisitOrder<V(!new)>(g: Graph<V>, start: V, end: V, visited: set<V>, order: seq<V>, current: V)
    requires VisitedInOrder(g, start, end, visited, order)
    requires current in g && Reachable(g, start, current) && current !in visited && current != end
    ensures VisitedInOrder(g, start, end, visited + {current}, order + [current])
  {
    forall x
      ensures x in visited + {current} <==> x in order + [current]
    {
      assert x in order + [current] <==> x in order || x == current;
    }
  }

  /** Visiting `current` and pushing its destinations outside `skip` keeps the frontier on the worklist. */
  lemma VisitFrontier<V(!new)>(g: Graph<V>, visited: set<V>, work: seq<V>, current: V, rest: seq<V>, skip: set<V>)
    requires Frontier(g, visited, work) && current in g
    requires forall x :: x in work <==> x == current || x in rest
    requires skip <= visited + {current}
    ensures Frontier(g, visited + {current}, rest + Targets(g[current], skip))
  {
    var visited', work' := visited + {current}, rest + Targets(g[current], skip);
    forall v, i | v in visited' && v in g && 0 <= i < |g[v]|
      ensures g[v][i].destination in visited' || g[v][i].destination in work'
    {
      var d := g[v][i].destination;
      if d !in visited' {
        if v == current {
          assert d in Targets(g[current], skip);
        } else {
          assert d in rest;
        }
      }
    }
  }

  /**
    Popping an unvisited vertex other than the end: it is visited and its
    destinations, except those in `skip`, are pushed. The number of unvisited
    vertices drops.
   */
  lemma VisitStep<V(!new)>(g: Graph<V>, start: V, end: V, visited: set<V>, order: seq<V>, work: seq<V>, current: V, rest: seq<V>, skip: set<V>)
    requires Valid(g)
    requires Exploring(g, start, end, visited, order, work, false)
    requires current in work && current !in visited && current != end
    requires forall x :: x in work <==> x == current || x in rest
    requires skip <= visited + {current}
    ensures Exploring(g, start, end, visited + {current}, order + [current], rest + Targets(g[current], skip), false)
    ensures |g.Keys - (visited + {current})| < |g.Keys - visited|
  {
    VisitWork(g, start, work, current, rest, skip);
    VisitOrder(g, start, end, visited, order, current);
    VisitFrontier(g, visited, work, current, rest, skip);
    FewerOutside(g.Keys, visited, current);
  }

  /** The top of a non-empty stack, kept at the end of the sequence. */
  function Top<V>(stack: seq<V>): (top: V)
    requires stack != []
    ensures top in stack
  {
    stack[|stack| - 1]
  }

  /** A non-empty stack without its top. */
  function Below<V(!new)>(stack: seq<V>): (rest: seq<V>)
    requires stack != []
    ensures stack == rest + [Top(stack)]
    ensures |rest| < |stack|
    ensures forall x :: x in stack <==> x == Top(stack) || x in rest
  {
    stack[..|stack| - 1]
  }

  /** Both searches start with nothing visited and `start` on the worklist. */
  lemma StartExploring<V(!new)>(g: Graph<V>, start: V, end: V)
    requires start in g
    ensures Exploring(g, start, end, {}, [], [start], false)
  {
    ReachableSelf(g, start);
  }

  /**
    What a search reports once it stops, found or exhausted: the events have
    the promised shape, every visited vertex is reachable, `SearchOver` is
    sent exactly when `end` is reachable, and otherwise every reachable
    vertex was visited.
   */
  lemma SearchOutcome<V(!new)>(g: Graph<V>, start: V, end: V, visited: set<V>, order: seq<V>, work: seq<V>, found: bool, begun: Event<V>)
    requires Valid(g) && start in g && (begun.BFSBegun? || begun.DFSBegun?)
    requires Exploring(g, start, end, visited, order, work, found) && (work == [] || found)
    ensures SearchTraceShape(SearchTrace(begun, order, found), begun, start, end)
    ensures forall i | 0 <= i < |SearchTrace(begun, order, found)| && SearchTrace(begun, order, found)[i].Visit? ::
              Reachable(g, start, SearchTrace(begun, order, found)[i].vertex)
    ensures SearchOver in SearchTrace(begun, order, found) <==> Reachable(g, start, end)
    ensures SearchOver !in SearchTrace(begun, order, found) ==>
              forall v | Reachable(g, start, v) :: Visit(v) in SearchTrace(begun, order, found)
  {
    if !found {
      ExhaustedSearch(g, start, end, visited, order);
    }
    SearchTraceFacts(begun, order, found, start, end);
    var t := SearchTrace(begun, order, found);
    forall i | 0 <= i < |t| && t[i].Visit?
      ensures Reachable(g, start, t[i].vertex)
    {
      assert Visit(t[i].vertex) in t;
    }
  }

  /** A search from `end` itself stops at its first pop, without reading the store. */
  lemma SearchFromEnd<V(!new)>(g: Graph<V>, start: V, begun: Event<V>)
    requires begun.BFSBegun? || begun.DFSBegun?
    ensures SearchTraceShape(SearchTrace(begun, [], true), begun, start, start)
    ensures forall i | 0 <= i < |SearchTrace(begun, [], true)| :: !SearchTrace(begun, [], true)[i].Visit?
    ensures SearchOver in SearchTrace(begun, [], true) && Reachable(g, start, start)
  {
    ReachableSelf(g, start);
    SearchTraceFacts(begun, [], true, start, start);
    assert SearchTrace(begun, [], true) == [begun, SearchOver];
  }

  /**
    One round of either search, after `current` has been taken off the
    worklist, leaving `rest`: the end stops the search, an unvisited vertex is
    visited and its destinations outside `skip` are pushed, and a visited
    vertex is dropped. Either fewer vertices are left unvisited, or the
    worklist is shorter.
   */
  method Step<V(==,!new)>(g: Graph<V>, start: V, end: V, visited0: set<V>, order0: seq<V>, work0: seq<V>,
                          current: V, rest: seq<V>, skip: set<V>)
      returns (visited: set<V>, order: seq<V>, work: seq<V>, found: bool)
    requires Valid(g) && Exploring(g, start, end, visited0, order0, work0, false)
    requires current in work0 && |rest| < |work0| && forall x :: x in work0 <==> x == current || x in rest
    requires skip <= visited0 + {current}
    ensures Exploring(g, start, end, visited, order, work, found)
    ensures (visited == visited0 && |work| < |work0|) || |g.Keys - visited| < |g.Keys - visited0|
  {
    if current == end {
      FoundStep(g, start, end, visited0, order0, work0, rest);
      visited, order, work, found := visited0, order0, rest, true;
    } else if current !in visited0 {
      VisitStep(g, start, end, visited0, order0, work0, current, rest, skip);
      visited, order, work, found := visited0 + {current}, order0 + [current], rest + Targets(g[current], skip), false;
    } else {
      DropStep(g, start, end, visited0, order0, work0, current, rest);
      visited, order, work, found := visited0, order0, rest, false;
    }
  }

  /** Breadth-first search from `start` until `end` is dequeued (`DoBFS`). */
  method BFS<V(==,!new)>(g: Graph<V>, start: V, end: V) returns (trace: seq<Event<V>>)
    requires Valid(g) && (start in g || start == end)
    ensures SearchTraceShape(trace, BFSBegun, start, end)
    ensures forall i | 0 <= i < |trace| && trace[i].Visit? :: Reachable(g, start, trace[i].vertex)
    ensures SearchOver in trace <==> Reachable(g, start, end)
    ensures SearchOver !in trace ==> forall v | Reachable(g, start, v) :: Visit(v) in trace
  {
    if start !in g {
      // the first vertex taken off the worklist is the end: the store is never read
      trace := SearchTrace(BFSBegun, [], true);
      SearchFromEnd(g, start, BFSBegun);
      return;
    }
    var visited: set<V> := {};
    var order: seq<V> := [];
    var queue: seq<V> := [start];
    var found := false;
    StartExploring(g, start, end);
    while queue != [] && !found
      invariant Exploring(g, start, end, visited, order, queue, found)
      decreases |g.Keys - visited|, |queue|
    {
      var current, rest := queue[0], queue[1..];
      assert queue == [current] + rest;
      visited, order, queue, found := Step(g, start, end, visited, order, queue, current, rest, visited + {current});
    }
    SearchOutcome(g, start, end, visited, order, queue, found, BFSBegun);
    trace := SearchTrace(BFSBegun, order, found);
  }

  /**
    Depth-first search from `start` until `end` is popped (`DoDFS`). As in the
    source, every destination of the visited vertex is pushed: the test meant
    to skip visited destinations compares an edge with vertices and never
    holds, so the visited check at the pop does all the filtering.
   */
  method DFS<V(==,!new)>(g: Graph<V>, start: V, end: V) returns (trace: seq<Event<V>>)
    requires Valid(g) && (start in g || start == end)
    ensures SearchTraceShape(trace, DFSBegun, start, end)
    ensures forall i | 0 <= i < |trace| && trace[i].Visit? :: Reachable(g, start, trace[i].vertex)
    ensures SearchOver in trace <==> Reachable(g, start, end)
    ensures SearchOver !in trace ==> forall v | Reachable(g, start, v) :: Visit(v) in trace
  {
    if start !in g {
      // the first vertex taken off the worklist is the end: the store is never read
      trace := SearchTrace(DFSBegun, [], true);
      SearchFromEnd(g, start, DFSBegun);
      return;
    }
    var visited: set<V> := {};
    var order: seq<V> := [];
    var stack: seq<V> := [start];
    var found := false;
    StartExploring(g, start, end);
    while stack != [] && !found
      invariant Exploring(g, start, end, visited, order, stack, found)
      decreases |g.Keys - visited|, |stack|
    {
      visited, order, stack, found := Step(g, start, end, visited, order, stack, Top(stack), Below(stack), {});
    }
    SearchOutcome(g, start, end, visited, order, stack, found, DFSBegun);
    trace := SearchTrace(DFSBegun, order, found);
  }
}
