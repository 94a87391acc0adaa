/**
  Dijkstra's algorithm (`DoDijsktra`): from `start`, repeatedly finish an
  unfinished vertex of least known cost and relax its outgoing edges, until
  every vertex is finished; then walk the predecessor map back from `end` to
  report the least-cost path. Infinite cost is `None`.
 */
module ShortestPath {
  import opened Wrappers
  import opened GraphStore
  import opened Walks
  import opened Events

  /** `a` is at most `b`, where `None` is infinity. */
  predicate AtMost(a: Option<nat>, b: Option<nat>) {
    b.None? || (a.Some? && a.value <= b.value)
  }

  /** `a` is strictly less than `b`, where `None` is infinity: the relaxation test. */
  predicate Cheaper(a: Option<nat>, b: Option<nat>) {
    a.Some? && (b.None? || a.value < b.value)
  }

  /** A cost plus an edge weight; infinity stays infinite. */
  function Plus(c: Option<nat>, w: nat): Option<nat> {
    if c.None? then None else Some(c.value + w)
  }

  /** Every walk from `s` to `v` weighs at least `c`; with `c == None`, no walk reaches `v`. */
  ghost predicate LowerBound<V(!new)>(g: Graph<V>, s: V, v: V, c: Option<nat>) {
    forall es | IsWalk(g, s, es) && Target(s, es) == v :: c.Some? && c.value <= Weight(es)
  }

  /** `c` is the least weight of a walk from `s` to `v`, or `None` when `v` is unreachable. */
  ghost predicate IsShortest<V(!new)>(g: Graph<V>, s: V, v: V, c: Option<nat>) {
    && LowerBound(g, s, v, c)
    && (c.Some? ==> exists es :: IsWalk(g, s, es) && Target(s, es) == v && Weight(es) == c.value)
  }

  /** The vertex sequence `p` is the walk `es` from `s`, vertex by vertex. */
  ghost predicate Follows<V>(g: Graph<V>, s: V, p: seq<V>, es: seq<Edge<V>>) {
    && |p| == |es| + 1 && p[0] == s && IsWalk(g, s, es)
    && forall i | 0 <= i < |es| :: es[i].source == p[i] && es[i].destination == p[i + 1]
  }

  /** A path followed by a walk stays followed when both are extended by an edge leaving the path's end. */
  lemma FollowsExtend<V>(g: Graph<V>, s: V, p: seq<V>, es: seq<Edge<V>>, e: Edge<V>)
    requires Follows(g, s, p, es)
    requires e.source == p[|p| - 1] && e.source in g && e in g[e.source]
    ensures Follows(g, s, p + [e.destination], es + [e])
    ensures Weight(es + [e]) == Weight(es) + e.weight
  {
    assert Target(s, es) == p[|p| - 1];
    WalkExtend(g, s, es, e);
    var p', es' := p + [e.destination], es + [e];
    forall i | 0 <= i < |es'|
      ensures es'[i].source == p'[i] && es'[i].destination == p'[i + 1]
    {
      if i < |es| {
        assert es'[i] == es[i] && p'[i] == p[i] && p'[i + 1] == p[i + 1];
      }
    }
  }

  /**
    Picks an unfinished vertex of least cost (`None` counting as infinity),
    the choice the pseudocode at the head of `DoDijsktra` describes. Among
    equal costs the choice is left open.
   */
  method SelectMin<V(==)>(candidates: set<V>, cost: map<V, Option<nat>>) returns (k: V)
    requires candidates != {} && candidates <= cost.Keys
    ensures k in candidates
    ensures forall u | u in candidates :: AtMost(cost[k], cost[u])
  {
    k :| k in candidates;
    var rest := candidates - {k};
    while rest != {}
      invariant rest <= candidates && k in candidates
      invariant forall u | u in candidates && u !in rest :: AtMost(cost[k], cost[u])
      decreases rest
    {
      var u :| u in rest;
      if Cheaper(cost[u], cost[k]) {
        k := u;
      }
      rest := rest - {u};
    }
  }

  /** Every edge leaving a vertex of `S` has been relaxed. */
  ghost predicate Relaxed<V>(g: Graph<V>, S: set<V>, cost: map<V, Option<nat>>) {
    forall u, e | u in S && u in g && u in cost && e in g[u] ::
      e.destination in cost && AtMost(cost[e.destination], Plus(cost[u], e.weight))
  }

  /** The first `n` edges leaving `k` have been relaxed. */
  ghost predicate RelaxedUpTo<V>(g: Graph<V>, k: V, n: nat, cost: map<V, Option<nat>>) {
    && k in g && k in cost && n <= |g[k]|
    && forall j | 0 <= j < n ::
         g[k][j].destination in cost && AtMost(cost[g[k][j].destination], Plus(cost[k], g[k][j].weight))
  }

  /**
    The events sent so far: `DijkstraBegun`, then one `Finished` per finished
    vertex, the first of them for `start` at cost 0.
   */
  ghost predicate EventShape<V>(g: Graph<V>, start: V, finished: set<V>, cost: map<V, Option<nat>>, trace: seq<Event<V>>) {
    && cost.Keys == g.Keys && finished <= g.Keys
    && |trace| == |finished| + 1 && trace[0] == DijkstraBegun
    && (|trace| >= 2 ==> trace[1] == Finished(start, Some(0)))
  }

  /** `rank` numbers the finished vertices in the order of their events, each of which carries its vertex's cost. */
  ghost predicate EventRanks<V>(finished: set<V>, cost: map<V, Option<nat>>, rank: map<V, nat>, trace: seq<Event<V>>) {
    && (forall i | 1 <= i < |trace| ::
          && trace[i].Finished? && trace[i].vertex in finished && trace[i].vertex in rank
          && rank[trace[i].vertex] == i && trace[i].vertex in cost && trace[i].cost == cost[trace[i].vertex])
    && (forall v | v in finished :: v in rank && 1 <= rank[v] < |trace| && trace[rank[v]].vertex == v)
  }

  /** Costs never decrease along the events. */
  ghost predicate EventOrder<V>(trace: seq<Event<V>>) {
    forall i, j | 1 <= i < j < |trace| && trace[i].Finished? && trace[j].Finished? :: AtMost(trace[i].cost, trace[j].cost)
  }

  /** No unfinished vertex costs less than an event already sent. */
  ghost predicate EventFloor<V>(finished: set<V>, cost: map<V, Option<nat>>, trace: seq<Event<V>>) {
    forall i, u | 1 <= i < |trace| && trace[i].Finished? && u in cost && u !in finished :: AtMost(trace[i].cost, cost[u])
  }

  ghost predicate EventsSoFar<V>(g: Graph<V>, start: V, finished: set<V>, cost: map<V, Option<nat>>, rank: map<V, nat>, trace: seq<Event<V>>) {
    && EventShape(g, start, finished, cost, trace) && EventRanks(finished, cost, rank, trace)
    && EventOrder(trace) && EventFloor(finished, cost, trace)
  }

  /** `start` is a vertex at cost 0, and every vertex has a cost entry. */
  ghost predicate CostBasics<V>(g: Graph<V>, start: V, finished: set<V>, cost: map<V, Option<nat>>) {
    && start in g && cost.Keys == g.Keys && finished <= g.Keys
    && cost[start] == Some(0)
  }

  /** A finished vertex's cost bounds every walk reaching it from below. */
  ghost predicate FinishedOptimal<V(!new)>(g: Graph<V>, start: V, finished: set<V>, cost: map<V, Option<nat>>) {
    forall v | v in finished && v in cost :: LowerBound(g, start, v, cost[v])
  }

  /** Every finite cost is the weight of a recorded walk from `start`. */
  ghost predicate WalksRecorded<V>(g: Graph<V>, start: V, cost: map<V, Option<nat>>, walks: map<V, seq<Edge<V>>>) {
    forall v | v in cost && cost[v].Some? ::
      v in walks && IsWalk(g, start, walks[v]) && Target(start, walks[v]) == v && Weight(walks[v]) == cost[v].value
  }

  /** Exactly the vertices other than `start` with a finite cost have a predecessor. */
  ghost predicate PredDomain<V(!new)>(g: Graph<V>, start: V, cost: map<V, Option<nat>>, pred: map<V, V>) {
    && (forall v | v in pred :: v in g && v in cost && v != start && cost[v].Some?)
    && (forall v {:trigger v in pred} :: v in cost && v != start && cost[v].Some? ==> v in pred)
  }

  /**
    A predecessor is finished and joined to its successor by the edge
    `predEdge` that gave the successor its cost.
   */
  ghost predicate PredEdges<V>(g: Graph<V>, finished: set<V>, cost: map<V, Option<nat>>, pred: map<V, V>, predEdge: map<V, Edge<V>>) {
    forall v | v in pred ::
      && pred[v] in finished && pred[v] in g && v in predEdge
      && predEdge[v].source == pred[v] && predEdge[v].destination == v && predEdge[v] in g[pred[v]]
      && v in cost && pred[v] in cost && cost[v].Some? && cost[pred[v]].Some?
      && cost[v].value == cost[pred[v]].value + predEdge[v].weight
  }

  /** A finished vertex was finished after its predecessor. */
  ghost predicate PredRanks<V>(finished: set<V>, pred: map<V, V>, rank: map<V, nat>) {
    forall v | v in pred && v in finished :: v in rank && pred[v] in rank && rank[pred[v]] < rank[v]
  }

  /**
    The heart of Dijkstra's algorithm: once every edge leaving the finished
    set is relaxed, an unfinished vertex of least cost already has its
    optimal cost. A walk to it must leave the finished set somewhere, and the
    edge it leaves by was relaxed.
   */
  lemma MinIsOptimal<V(!new)>(g: Graph<V>, start: V, finished: set<V>, cost: map<V, Option<nat>>, k: V)
    requires Valid(g) && CostBasics(g, start, finished, cost)
    requires FinishedOptimal(g, start, finished, cost) && Relaxed(g, finished, cost)
    requires k in g && k !in finished
    requires forall u | u in g && u !in finished :: AtMost(cost[k], cost[u])
    ensures FinishedOptimal(g, start, finished + {k}, cost)
  {
    forall es: seq<Edge<V>> | IsWalk(g, start, es) && Target(start, es) == k
      ensures cost[k].Some? && cost[k].value <= Weight(es)
    {
      if start in finished {
        var i := CrossingStep(g, start, es, finished);
        WalkPrefix(g, start, es, i);
        WalkPrefix(g, start, es, i + 1);
        var x, y := es[i].source, es[i].destination;
        assert LowerBound(g, start, x, cost[x]);
        assert cost[x].Some? && cost[x].value <= Weight(es[..i]);
        assert AtMost(cost[y], Plus(cost[x], es[i].weight));
        var j :| 0 <= j < |g[x]| && g[x][j] == es[i];
        assert y in g;
      } else {
        assert AtMost(cost[k], cost[start]);
      }
    }
    assert LowerBound(g, start, k, cost[k]);
  }

  /** The first vertex finished is `start`: only it has a finite cost then. */
  lemma FirstIsStart<V(!new)>(g: Graph<V>, start: V, finished: set<V>, cost: map<V, Option<nat>>, pred: map<V, V>,
                              rank: map<V, nat>, trace: seq<Event<V>>, k: V)
    requires EventsSoFar(g, start, finished, cost, rank, trace) && CostBasics(g, start, finished, cost)
    requires PredDomain(g, start, cost, pred) && (finished == {} ==> pred == map[])
    requires |trace| == 1 && k in g && k !in finished
    requires forall u | u in g && u !in finished :: AtMost(cost[k], cost[u])
    ensures k == start && cost[k] == Some(0)
  {
    assert finished == {};
    assert AtMost(cost[k], cost[start]);
    assert k !in pred;
  }

  /** Appending `k`'s event at the next rank numbers the finished vertices correctly. */
  lemma FinishRanks<V>(finished: set<V>, cost: map<V, Option<nat>>, rank: map<V, nat>, trace: seq<Event<V>>, k: V)
    requires EventRanks(finished, cost, rank, trace) && |trace| >= 1
    requires k in cost && k !in finished
    ensures EventRanks(finished + {k}, cost, rank[k := |trace|], trace + [Finished(k, cost[k])])
  {
    var finished', rank', trace' := finished + {k}, rank[k := |trace|], trace + [Finished(k, cost[k])];
    forall i | 1 <= i < |trace'|
      ensures trace'[i].vertex in rank' && rank'[trace'[i].vertex] == i
    {
      if i < |trace| {
        assert trace'[i] == trace[i];
        assert trace[i].vertex != k;
      }
    }
    forall v | v in finished'
      ensures v in rank' && 1 <= rank'[v] < |trace'| && trace'[rank'[v]].vertex == v
    {
      if v != k {
        assert trace'[rank[v]] == trace[rank[v]];
      }
    }
  }

  /** The event of an unfinished vertex of least cost costs no less than the events before it. */
  lemma FinishOrder<V>(finished: set<V>, cost: map<V, Option<nat>>, trace: seq<Event<V>>, k: V)
    requires EventOrder(trace) && EventFloor(finished, cost, trace)
    requires k in cost && k !in finished
    ensures EventOrder(trace + [Finished(k, cost[k])])
  {
    var trace' := trace + [Finished(k, cost[k])];
    forall i, j | 1 <= i < j < |trace'| && trace'[i].Finished? && trace'[j].Finished?
      ensures AtMost(trace'[i].cost, trace'[j].cost)
    {
      assert trace'[i] == trace[i];
      if j < |trace| {
        assert trace'[j] == trace[j];
      }
    }
  }

  /** After finishing a least-cost `k`, no unfinished vertex undercuts any event, `k`'s included. */
  lemma FinishFloor<V>(finished: set<V>, cost: map<V, Option<nat>>, trace: seq<Event<V>>, k: V)
    requires EventFloor(finished, cost, trace)
    requires k in cost && k !in finished
    requires forall u | u in cost && u !in finished :: AtMost(cost[k], cost[u])
    ensures EventFloor(finished + {k}, cost, trace + [Finished(k, cost[k])])
  {
    var trace' := trace + [Finished(k, cost[k])];
    forall i, u | 1 <= i < |trace'| && trace'[i].Finished? && u in cost && u !in finished + {k}
      ensures AtMost(trace'[i].cost, cost[u])
    {
      if i < |trace| {
        assert trace'[i] == trace[i];
      }
    }
  }

  /** Sending `Finished(k, cost[k])` for a least-cost unfinished `k` keeps the events in order. */
  lemma FinishEvents<V>(g: Graph<V>, start: V, finished: set<V>, cost: map<V, Option<nat>>, rank: map<V, nat>, trace: seq<Event<V>>, k: V)
    requires EventsSoFar(g, start, finished, cost, rank, trace)
    requires k in g && k !in finished
    requires forall u | u in g && u !in finished :: AtMost(cost[k], cost[u])
    requires |trace| == 1 ==> k == start && cost[k] == Some(0)
    ensures EventsSoFar(g, start, finished + {k}, cost, rank[k := |trace|], trace + [Finished(k, cost[k])])
  {
    FinishRanks(finished, cost, rank, trace, k);
    FinishOrder(finished, cost, trace, k);
    FinishFloor(finished, cost, trace, k);
  }

  /** Predecessors stay finished as more vertices are finished. */
  lemma FinishPredEdges<V>(g: Graph<V>, finished: set<V>, cost: map<V, Option<nat>>, pred: map<V, V>,
                           predEdge: map<V, Edge<V>>, k: V)
    requires PredEdges(g, finished, cost, pred, predEdge)
    ensures PredEdges(g, finished + {k}, cost, pred, predEdge)
  {
  }

  /** Finishing `k` at rank `n`, after every finished vertex, keeps every predecessor finished before its successor. */
  lemma FinishPredRanks<V>(finished: set<V>, pred: map<V, V>, rank: map<V, nat>, n: nat, k: V)
    requires forall v | v in finished :: v in rank && rank[v] < n
    requires forall v | v in pred :: pred[v] in finished
    requires PredRanks(finished, pred, rank) && k !in finished
    ensures PredRanks(finished + {k}, pred, rank[k := n])
  {
  }

  /**
    A successful relaxation of an edge of the last finished vertex `k` lowers
    an unfinished vertex other than `start`, to a cost no event undercuts.
   */
  lemma RelaxTarget<V>(g: Graph<V>, start: V, finished: set<V>, cost: map<V, Option<nat>>, rank: map<V, nat>, trace: seq<Event<V>>, k: V, e: Edge<V>)
    requires EventsSoFar(g, start, finished, cost, rank, trace) && CostBasics(g, start, finished, cost)
    requires k in finished && k in rank && rank[k] == |trace| - 1
    requires e.destination in g && Cheaper(Plus(cost[k], e.weight), cost[e.destination])
    ensures e.destination !in finished && e.destination != start && cost[k].Some?
    ensures forall j | 1 <= j < |trace| :: AtMost(trace[j].cost, Plus(cost[k], e.weight))
  {
    assert trace[|trace| - 1].vertex == k;
    forall j | 1 <= j < |trace|
      ensures AtMost(trace[j].cost, cost[k])
    {
      if j < |trace| - 1 {
        assert AtMost(trace[j].cost, trace[|trace| - 1].cost);
      }
    }
  }

  /** Lowering the cost of an unfinished vertex, to no less than any event's cost, keeps the events in order. */
  lemma RelaxEvents<V>(g: Graph<V>, start: V, finished: set<V>, cost: map<V, Option<nat>>, rank: map<V, nat>, trace: seq<Event<V>>, d: V, c: Option<nat>)
    requires EventsSoFar(g, start, finished, cost, rank, trace)
    requires d in g && d !in finished
    requires forall j | 1 <= j < |trace| :: AtMost(trace[j].cost, c)
    ensures EventsSoFar(g, start, finished, cost[d := c], rank, trace)
  {
  }

  /** Lowering `d` through the edge `e` of `k` keeps the costs and their recorded walks. */
  lemma RelaxCosts<V(!new)>(g: Graph<V>, start: V, finished: set<V>, cost: map<V, Option<nat>>, walks: map<V, seq<Edge<V>>>, k: V, e: Edge<V>)
    requires Valid(g) && CostBasics(g, start, finished, cost)
    requires FinishedOptimal(g, start, finished, cost) && WalksRecorded(g, start, cost, walks)
    requires k in finished && e in g[k] && cost[k].Some?
    requires e.destination !in finished && e.destination != start
    ensures CostBasics(g, start, finished, cost[e.destination := Plus(cost[k], e.weight)])
    ensures FinishedOptimal(g, start, finished, cost[e.destination := Plus(cost[k], e.weight)])
    ensures WalksRecorded(g, start, cost[e.destination := Plus(cost[k], e.weight)], walks[e.destination := walks[k] + [e]])
  {
    var j :| 0 <= j < |g[k]| && g[k][j] == e;
    assert e.source == k && e.destination in g;
    WalkExtend(g, start, walks[k], e);
  }

  /** Giving the unfinished `d` a finite cost and a predecessor keeps the predecessor domain exact. */
  lemma RelaxPredDomain<V(!new)>(g: Graph<V>, start: V, cost: map<V, Option<nat>>, pred: map<V, V>, k: V, d: V, c: nat)
    requires PredDomain(g, start, cost, pred) && d in g && d != start
    ensures PredDomain(g, start, cost[d := Some(c)], pred[d := k])
  {
  }

  /** Recording the edge `e` of the finished `k` as the way into `d` keeps every predecessor edge consistent. */
  lemma RelaxPredEdges<V>(g: Graph<V>, finished: set<V>, cost: map<V, Option<nat>>, pred: map<V, V>,
                          predEdge: map<V, Edge<V>>, k: V, e: Edge<V>)
    requires PredEdges(g, finished, cost, pred, predEdge)
    requires k in finished && k in g && e in g[k] && e.source == k && k in cost && cost[k].Some?
    requires e.destination !in finished
    ensures PredEdges(g, finished, cost[e.destination := Plus(cost[k], e.weight)], pred[e.destination := k], predEdge[e.destination := e])
  {
    var d := e.destination;
    var cost', pred', predEdge' := cost[d := Plus(cost[k], e.weight)], pred[d := k], predEdge[d := e];
    forall v | v in pred'
      ensures && pred'[v] in finished && pred'[v] in g && v in predEdge'
              && predEdge'[v].source == pred'[v] && predEdge'[v].destination == v && predEdge'[v] in g[pred'[v]]
              && v in cost' && pred'[v] in cost' && cost'[v].Some? && cost'[pred'[v]].Some?
              && cost'[v].value == cost'[pred'[v]].value + predEdge'[v].weight
    {
      if v != d {
        assert pred[v] != d;
      }
    }
  }

  /** A predecessor is finished, so recording `k` for the unfinished `d` keeps ranks decreasing back along the map. */
  lemma RelaxPredRanks<V>(finished: set<V>, pred: map<V, V>, rank: map<V, nat>, k: V, d: V)
    requires PredRanks(finished, pred, rank) && d !in finished
    ensures PredRanks(finished, pred[d := k], rank)
  {
  }

  /** Lowering the cost of a vertex outside `S` keeps `S` relaxed. */
  lemma RelaxedAfterLowering<V>(g: Graph<V>, S: set<V>, cost: map<V, Option<nat>>, d: V, c: Option<nat>)
    requires Relaxed(g, S, cost) && d !in S && d in cost && AtMost(c, cost[d])
    ensures Relaxed(g, S, cost[d := c])
  {
    forall u, e | u in S && u in g && u in cost[d := c] && e in g[u]
      ensures e.destination in cost[d := c] && AtMost(cost[d := c][e.destination], Plus(cost[d := c][u], e.weight))
    {
      assert AtMost(cost[e.destination], Plus(cost[u], e.weight));
    }
  }

  /** Relaxing edge `i` of `k` extends the relaxed prefix of `k`'s edges. */
  lemma RelaxPrefix<V>(g: Graph<V>, k: V, i: nat, cost: map<V, Option<nat>>)
    requires RelaxedUpTo(g, k, i, cost) && i < |g[k]| && g[k][i].destination in cost
    ensures
      var e := g[k][i];
      var cost' := if Cheaper(Plus(cost[k], e.weight), cost[e.destination])
                   then cost[e.destination := Plus(cost[k], e.weight)] else cost;
      RelaxedUpTo(g, k, i + 1, cost')
  {
    var e := g[k][i];
    var d := e.destination;
    if Cheaper(Plus(cost[k], e.weight), cost[d]) {
      var cost' := cost[d := Plus(cost[k], e.weight)];
      assert d != k;
      forall j | 0 <= j < i + 1
        ensures g[k][j].destination in cost' && AtMost(cost'[g[k][j].destination], Plus(cost'[k], g[k][j].weight))
      {
        if j < i {
          assert AtMost(cost[g[k][j].destination], Plus(cost[k], g[k][j].weight));
        }
      }
    }
  }

  /** Once all of `k`'s edges are relaxed, every finished vertex's edges are. */
  lemma RelaxDone<V>(g: Graph<V>, finished: set<V>, k: V, cost: map<V, Option<nat>>)
    requires k in finished && k in g
    requires Relaxed(g, finished - {k}, cost) && RelaxedUpTo(g, k, |g[k]|, cost)
    ensures Relaxed(g, finished, cost)
  {
    forall u, e | u in finished && u in g && u in cost && e in g[u]
      ensures e.destination in cost && AtMost(cost[e.destination], Plus(cost[u], e.weight))
    {
      if u == k {
        var j :| 0 <= j < |g[k]| && g[k][j] == e;
      }
    }
  }

  /** Ranks decrease along the predecessor map, so walking it back terminates. */
  ghost predicate RankedPreds<V>(pred: map<V, V>, rank: map<V, nat>) {
    forall v | v in pred :: v in rank && pred[v] in rank && rank[pred[v]] < rank[v]
  }

  /** Each vertex of `p` after the first has the one before it as predecessor. */
  ghost predicate PredChain<V>(pred: map<V, V>, p: seq<V>) {
    forall i | 1 <= i < |p| :: p[i] in pred && pred[p[i]] == p[i - 1]
  }

  /**
    The predecessor chain ending at `v`: walks the map back from `v` until a
    vertex without predecessor, and lists the vertices first to last (the
    source pushes them on a stack and pops them into the path).
   */
  function Backtrack<V>(pred: map<V, V>, v: V, ghost rank: map<V, nat>): (chain: seq<V>)
    requires RankedPreds(pred, rank)
    ensures |chain| >= 1 && chain[|chain| - 1] == v && chain[0] !in pred
    ensures PredChain(pred, chain)
    ensures chain[0] == v || chain[0] in pred.Values
    decreases if v in pred then rank[v] + 1 else 0
  {
    if v in pred then
      var pre := Backtrack(pred, pred[v], rank);
      assert PredChain(pred, pre + [v]) by {
        forall i | 1 <= i < |pre| + 1
          ensures (pre + [v])[i] in pred && pred[(pre + [v])[i]] == (pre + [v])[i - 1]
        {
          if i < |pre| {
            assert (pre + [v])[i] == pre[i] && (pre + [v])[i - 1] == pre[i - 1];
          }
        }
      }
      pre + [v]
    else [v]
  }

  /**
    The least-cost path from `start` to `end` read off the predecessor map;
    `None` when the chain back from `end` does not reach `start`.
   */
  function ReconstructPath<V(==,!new)>(pred: map<V, V>, start: V, end: V, ghost rank: map<V, nat>): (path: Option<seq<V>>)
    requires RankedPreds(pred, rank)
    ensures path.Some? ==> |path.value| >= 1 && path.value[0] == start && path.value[|path.value| - 1] == end
    ensures path.Some? ==> PredChain(pred, path.value)
    ensures path.None? ==> exists r | r != start && r !in pred :: r == end || r in pred.Values
    ensures start !in pred ==>
              forall p | |p| >= 1 && p[0] == start && p[|p| - 1] == end && PredChain(pred, p) :: path == Some(p)
  {
    var chain := Backtrack(pred, end, rank);
    BacktrackUnique(pred, end, rank);
    if chain[0] == start then Some(chain) else None
  }

  /** The chain back from `v` is the only predecessor chain ending at `v` that starts at a vertex without predecessor. */
  lemma BacktrackUnique<V>(pred: map<V, V>, v: V, rank: map<V, nat>)
    requires RankedPreds(pred, rank)
    ensures forall p | |p| >= 1 && p[0] !in pred && p[|p| - 1] == v && PredChain(pred, p) :: p == Backtrack(pred, v, rank)
  {
    forall p | |p| >= 1 && p[0] !in pred && p[|p| - 1] == v && PredChain(pred, p)
      ensures p == Backtrack(pred, v, rank)
    {
      ChainIsBacktrack(pred, p, rank);
    }
  }

  /** A predecessor chain that starts at a vertex without predecessor is the chain back from its last vertex. */
  lemma {:induction false} ChainIsBacktrack<V>(pred: map<V, V>, p: seq<V>, rank: map<V, nat>)
    requires RankedPreds(pred, rank)
    requires |p| >= 1 && p[0] !in pred && PredChain(pred, p)
    ensures p == Backtrack(pred, p[|p| - 1], rank)
    decreases |p|
  {
    var n := |p| - 1;
    if n > 0 {
      var pre := p[..n];
      assert PredChain(pred, pre) by {
        forall i | 1 <= i < |pre|
          ensures pre[i] in pred && pred[pre[i]] == pre[i - 1]
        {
          assert pre[i] == p[i] && pre[i - 1] == p[i - 1];
        }
      }
      ChainIsBacktrack(pred, pre, rank);
      assert pre[|pre| - 1] == pred[p[n]];
      assert p == pre + [p[n]];
    }
  }

  /**
    A predecessor chain from `start` is a walk through the recorded edges,
    and its weight is the cost of its last vertex.
   */
  lemma {:induction false} ChainIsWalk<V>(g: Graph<V>, start: V, finished: set<V>, cost: map<V, Option<nat>>,
                                         pred: map<V, V>, predEdge: map<V, Edge<V>>, p: seq<V>)
      returns (es: seq<Edge<V>>)
    requires start in g && start in cost && cost[start] == Some(0)
    requires PredEdges(g, finished, cost, pred, predEdge)
    requires |p| >= 1 && p[0] == start && PredChain(pred, p)
    ensures Follows(g, start, p, es)
    ensures p[|p| - 1] in cost && cost[p[|p| - 1]].Some? && Weight(es) == cost[p[|p| - 1]].value
    decreases |p|
  {
    if |p| == 1 {
      es := [];
    } else {
      var n := |p| - 1;
      var pre := ChainIsWalk(g, start, finished, cost, pred, predEdge, p[..n]);
      assert p[..n][n - 1] == p[n - 1];
      assert p[n] in pred && pred[p[n]] == p[n - 1];
      var e := predEdge[p[n]];
      FollowsExtend(g, start, p[..n], pre, e);
      assert p[..n] + [p[n]] == p;
      es := pre + [e];
    }
  }

  /** Once every vertex is finished, every cost is the shortest walk cost. */
  lemma AllFinished<V(!new)>(g: Graph<V>, start: V, cost: map<V, Option<nat>>, walks: map<V, seq<Edge<V>>>)
    requires cost.Keys == g.Keys
    requires FinishedOptimal(g, start, g.Keys, cost) && WalksRecorded(g, start, cost, walks)
    ensures forall v | v in g :: IsShortest(g, start, v, cost[v])
  {
    forall v | v in g
      ensures IsShortest(g, start, v, cost[v])
    {
      assert LowerBound(g, start, v, cost[v]);
      if cost[v].Some? {
        assert IsWalk(g, start, walks[v]) && Target(start, walks[v]) == v && Weight(walks[v]) == cost[v].value;
      }
    }
  }

  /**
    The path reported at the end: present exactly when `end` is reachable,
    and then a least-cost walk from `start` to `end` whose weight is the cost
    `end` was finished with.
   */
  lemma PathFacts<V(!new)>(g: Graph<V>, start: V, end: V, cost: map<V, Option<nat>>, pred: map<V, V>,
                           predEdge: map<V, Edge<V>>, rank: map<V, nat>, path: Option<seq<V>>)
    requires Valid(g) && CostBasics(g, start, g.Keys, cost)
    requires PredDomain(g, start, cost, pred) && PredEdges(g, g.Keys, cost, pred, predEdge)
    requires forall v | v in g :: IsShortest(g, start, v, cost[v])
    requires RankedPreds(pred, rank) && path == ReconstructPath(pred, start, end, rank)
    ensures path.Some? <==> Reachable(g, start, end)
    ensures path.Some? ==> end in g && exists es :: Follows(g, start, path.value, es) && Target(start, es) == end
                                               && cost[end] == Some(Weight(es)) && IsShortest(g, start, end, Some(Weight(es)))
  {
    if path.Some? {
      var p := path.value;
      var es := ChainIsWalk(g, start, g.Keys, cost, pred, predEdge, p);
      assert Target(start, es) == end by {
        if es != [] {
          assert es[|es| - 1].destination == p[|p| - 1];
        }
      }
      assert IsWalk(g, start, es);
    } else {
      var r :| r != start && r !in pred && (r == end || r in pred.Values);
      assert r == end;
      if Reachable(g, start, end) {
        var es :| IsWalk(g, start, es) && Target(start, es) == end;
        if es != [] {
          TargetInGraph(g, start, es);
        }
        assert false;
      }
    }
  }

  /**
    Once every vertex is finished with its least cost, the events name each
    vertex exactly once, with that cost, in non-decreasing order of cost,
    whatever event comes last.
   */
  lemma FinalEvents<V(!new)>(g: Graph<V>, start: V, cost: map<V, Option<nat>>, rank: map<V, nat>, trace: seq<Event<V>>, last: Event<V>)
    requires start in g && EventsSoFar(g, start, g.Keys, cost, rank, trace)
    requires forall v | v in g :: IsShortest(g, start, v, cost[v])
    ensures FinishedInOrder(g, start, trace + [last])
    ensures forall v | v in g :: Finished(v, cost[v]) in trace
  {
    var t := trace + [last];
    assert |g.Keys| == |g| && |g| >= 1 by {
      assert start in g.Keys;
    }
    assert t[0] == trace[0] && t[1] == trace[1];
    forall i | 1 <= i < |t| - 1
      ensures t[i] == trace[i] && t[i].Finished? && t[i].vertex in g && IsShortest(g, start, t[i].vertex, t[i].cost)
    {
    }
    forall v | v in g
      ensures Finished(v, cost[v]) in trace && exists i | 1 <= i < |t| - 1 :: t[i].Finished? && t[i].vertex == v
    {
      assert t[rank[v]] == trace[rank[v]];
    }
    forall i, j | 1 <= i < j < |t| - 1
      ensures t[i].vertex != t[j].vertex && AtMost(t[i].cost, t[j].cost)
    {
      assert t[i] == trace[i] && t[j] == trace[j];
    }
  }

  /** Everything the main loop of Dijkstra's algorithm keeps, apart from the relaxation of finished edges. */
  ghost predicate DijkstraState<V(!new)>(g: Graph<V>, start: V, finished: set<V>, cost: map<V, Option<nat>>, pred: map<V, V>,
                                         predEdge: map<V, Edge<V>>, walks: map<V, seq<Edge<V>>>, rank: map<V, nat>, trace: seq<Event<V>>) {
    && EventsSoFar(g, start, finished, cost, rank, trace)
    && CostBasics(g, start, finished, cost)
    && FinishedOptimal(g, start, finished, cost) && WalksRecorded(g, start, cost, walks)
    && PredDomain(g, start, cost, pred) && PredEdges(g, finished, cost, pred, predEdge) && PredRanks(finished, pred, rank)
    && (finished == {} ==> pred == map[])
  }

  /** Before anything is finished, only `start` has a cost, 0, reached by the empty walk. */
  lemma InitialState<V(!new)>(g: Graph<V>, start: V, cost: map<V, Option<nat>>)
    requires start in g && cost == map v | v in g :: if v == start then Some(0) else None
    ensures DijkstraState(g, start, {}, cost, map[], map[], map[start := []], map[], [DijkstraBegun])
    ensures Relaxed(g, {}, cost)
  {
    assert IsWalk(g, start, []);
  }

  /** Finishing an unfinished vertex of least cost keeps the state of the main loop. */
  lemma FinishState<V(!new)>(g: Graph<V>, start: V, finished: set<V>, cost: map<V, Option<nat>>, pred: map<V, V>,
                             predEdge: map<V, Edge<V>>, walks: map<V, seq<Edge<V>>>, rank: map<V, nat>, trace: seq<Event<V>>, k: V)
    requires Valid(g) && DijkstraState(g, start, finished, cost, pred, predEdge, walks, rank, trace)
    requires Relaxed(g, finished, cost)
    requires k in g - finished && forall u | u in g - finished :: AtMost(cost[k], cost[u])
    ensures DijkstraState(g, start, finished + {k}, cost, pred, predEdge, walks, rank[k := |trace|], trace + [Finished(k, cost[k])])
    ensures Relaxed(g, (finished + {k}) - {k}, cost)
  {
    if |trace| == 1 {
      FirstIsStart(g, start, finished, cost, pred, rank, trace, k);
    }
    MinIsOptimal(g, start, finished, cost, k);
    FinishEvents(g, start, finished, cost, rank, trace, k);
    FinishPredEdges(g, finished, cost, pred, predEdge, k);
    FinishPredRanks(finished, pred, rank, |trace|, k);
    assert (finished + {k}) - {k} == finished;
  }

  /**
    Relaxes the edges of the vertex `k` just finished, in list order: when
    going through an edge is cheaper than the destination's current cost,
    the destination takes that cost and `k` as its predecessor.
   */
  method RelaxEdges<V(==,!new)>(g: Graph<V>, start: V, k: V, finished: set<V>, cost0: map<V, Option<nat>>, pred0: map<V, V>,
                                ghost predEdge0: map<V, Edge<V>>, ghost walks0: map<V, seq<Edge<V>>>, ghost rank: map<V, nat>, ghost trace: seq<Event<V>>)
      returns (cost: map<V, Option<nat>>, pred: map<V, V>, ghost predEdge: map<V, Edge<V>>, ghost walks: map<V, seq<Edge<V>>>)
    requires Valid(g) && DijkstraState(g, start, finished, cost0, pred0, predEdge0, walks0, rank, trace)
    requires k in finished && k in rank && rank[k] == |trace| - 1
    requires Relaxed(g, finished - {k}, cost0)
    ensures DijkstraState(g, start, finished, cost, pred, predEdge, walks, rank, trace)
    ensures Relaxed(g, finished, cost)
    ensures forall v | v in finished :: cost[v] == cost0[v]
  {
    cost, pred, predEdge, walks := cost0, pred0, predEdge0, walks0;
    var i := 0;
    while i < |g[k]|
      invariant DijkstraState(g, start, finished, cost, pred, predEdge, walks, rank, trace)
      invariant Relaxed(g, finished - {k}, cost) && RelaxedUpTo(g, k, i, cost)
      invariant forall v | v in finished :: cost[v] == cost0[v]
    {
      var e := g[k][i];
      var d := e.destination;
      var c := Plus(cost[k], e.weight);
      assert d in g;
      RelaxPrefix(g, k, i, cost);
      if Cheaper(c, cost[d]) {
        RelaxTarget(g, start, finished, cost, rank, trace, k, e);
        RelaxEvents(g, start, finished, cost, rank, trace, d, c);
        RelaxCosts(g, start, finished, cost, walks, k, e);
        RelaxPredDomain(g, start, cost, pred, k, d, c.value);
        RelaxPredEdges(g, finished, cost, pred, predEdge, k, e);
        RelaxPredRanks(finished, pred, rank, k, d);
        RelaxedAfterLowering(g, finished - {k}, cost, d, c);
        cost := cost[d := c];
        pred := pred[d := k];
        predEdge := predEdge[d := e];
        walks := walks[d := walks[k] + [e]];
      }
      i := i + 1;
    }
    RelaxDone(g, finished, k, cost);
  }

  /**
    One round of the main loop: picks an unfinished vertex of least cost,
    finishes it, sending its event, then relaxes its edges.
   */
  method FinishVertex<V(==,!new)>(g: Graph<V>, start: V, trace0: seq<Event<V>>, finished0: set<V>, cost0: map<V, Option<nat>>,
                                  pred0: map<V, V>, ghost predEdge0: map<V, Edge<V>>, ghost walks0: map<V, seq<Edge<V>>>, ghost rank0: map<V, nat>)
      returns (trace: seq<Event<V>>, finished: set<V>, cost: map<V, Option<nat>>, pred: map<V, V>,
               ghost predEdge: map<V, Edge<V>>, ghost walks: map<V, seq<Edge<V>>>, ghost rank: map<V, nat>)
    requires Valid(g) && DijkstraState(g, start, finished0, cost0, pred0, predEdge0, walks0, rank0, trace0)
    requires Relaxed(g, finished0, cost0) && finished0 != g.Keys
    ensures DijkstraState(g, start, finished, cost, pred, predEdge, walks, rank, trace)
    ensures Relaxed(g, finished, cost)
    ensures |g.Keys - finished| < |g.Keys - finished0|
  {
    var k := SelectMin(g.Keys - finished0, cost0);
    FinishState(g, start, finished0, cost0, pred0, predEdge0, walks0, rank0, trace0, k);
    finished := finished0 + {k};
    FewerOutside(g.Keys, finished0, k);
    rank := rank0[k := |trace0|];
    trace := trace0 + [Finished(k, cost0[k])];
    cost, pred, predEdge, walks := RelaxEdges(g, start, k, finished, cost0, pred0, predEdge0, walks0, rank, trace);
  }

  /**
    The main loop of Dijkstra's algorithm: repeatedly finishes an unfinished
    vertex of least cost and relaxes its edges, until every vertex is
    finished.
   */
  method FinishRest<V(==,!new)>(g: Graph<V>, start: V, trace0: seq<Event<V>>, finished0: set<V>, cost0: map<V, Option<nat>>,
                                pred0: map<V, V>, ghost predEdge0: map<V, Edge<V>>, ghost walks0: map<V, seq<Edge<V>>>, ghost rank0: map<V, nat>)
      returns (trace: seq<Event<V>>, cost: map<V, Option<nat>>, pred: map<V, V>,
               ghost predEdge: map<V, Edge<V>>, ghost walks: map<V, seq<Edge<V>>>, ghost rank: map<V, nat>)
    requires Valid(g) && DijkstraState(g, start, finished0, cost0, pred0, predEdge0, walks0, rank0, trace0)
    requires Relaxed(g, finished0, cost0)
    ensures DijkstraState(g, start, g.Keys, cost, pred, predEdge, walks, rank, trace)
  {
    trace, cost, pred, predEdge, walks, rank := trace0, cost0, pred0, predEdge0, walks0, rank0;
    var finished := finished0;
    while finished != g.Keys
      invariant DijkstraState(g, start, finished, cost, pred, predEdge, walks, rank, trace)
      invariant Relaxed(g, finished, cost)
      decreases |g.Keys - finished|
    {
      trace, finished, cost, pred, predEdge, walks, rank := FinishVertex(g, start, trace, finished, cost, pred, predEdge, walks, rank);
    }
  }

  /**
    The events of a finished run, before the last one: `DijkstraBegun`, then
    one `Finished` event per vertex, each vertex exactly once, carrying its
    least walk cost from `start` (`None` when unreachable), in non-decreasing
    order of cost and beginning with `start` at cost 0.
   */
  ghost predicate FinishedInOrder<V(!new)>(g: Graph<V>, start: V, t: seq<Event<V>>) {
    && |t| == |g| + 2
    && t[0] == DijkstraBegun && t[1] == Finished(start, Some(0))
    && (forall i | 1 <= i < |t| - 1 ::
          t[i].Finished? && t[i].vertex in g && IsShortest(g, start, t[i].vertex, t[i].cost))
    && (forall v | v in g :: exists i | 1 <= i < |t| - 1 :: t[i].Finished? && t[i].vertex == v)
    && (forall i, j | 1 <= i < j < |t| - 1 :: t[i].vertex != t[j].vertex)
    && (forall i, j | 1 <= i < j < |t| - 1 :: AtMost(t[i].cost, t[j].cost))
  }

  /**
    The last event of a run: `DijkstraOver`, with a path exactly when `end`
    is reachable, the path following a least-cost walk whose weight is the
    cost `end` was finished with.
   */
  ghost predicate PathReported<V(!new)>(g: Graph<V>, start: V, end: V, t: seq<Event<V>>) {
    && |t| >= 1 && t[|t| - 1].DijkstraOver?
    && (t[|t| - 1].path.Some? <==> Reachable(g, start, end))
    && (t[|t| - 1].path.Some? ==>
          exists es :: Follows(g, start, t[|t| - 1].path.value, es) && Target(start, es) == end
                    && Finished(end, Some(Weight(es))) in t && IsShortest(g, start, end, Some(Weight(es))))
  }

  /** With every vertex finished, the events and the reconstructed path say all `Dijkstra` promises. */
  lemma FinalState<V(!new)>(g: Graph<V>, start: V, end: V, cost: map<V, Option<nat>>, pred: map<V, V>,
                            predEdge: map<V, Edge<V>>, rank: map<V, nat>, trace: seq<Event<V>>)
    requires Valid(g) && EventsSoFar(g, start, g.Keys, cost, rank, trace) && CostBasics(g, start, g.Keys, cost)
    requires PredDomain(g, start, cost, pred) && PredEdges(g, g.Keys, cost, pred, predEdge) && RankedPreds(pred, rank)
    requires forall v | v in g :: IsShortest(g, start, v, cost[v])
    ensures FinishedInOrder(g, start, trace + [DijkstraOver(ReconstructPath(pred, start, end, rank))])
    ensures PathReported(g, start, end, trace + [DijkstraOver(ReconstructPath(pred, start, end, rank))])
  {
    var path := ReconstructPath(pred, start, end, rank);
    PathFacts(g, start, end, cost, pred, predEdge, rank, path);
    FinalEvents(g, start, cost, rank, trace, DijkstraOver(path));
  }

  /**
    Dijkstra's algorithm from `start`, reporting the least-cost path to `end`
    (`DoDijsktra`). Every vertex is finished exactly once, with its least
    walk cost from `start` (`None` when it is unreachable), in non-decreasing
    order of cost; the last event carries the path.
   */
  method Dijkstra<V(==,!new)>(g: Graph<V>, start: V, end: V) returns (trace: seq<Event<V>>)
    requires Valid(g) && start in g
    ensures FinishedInOrder(g, start, trace)
    ensures PathReported(g, start, end, trace)
  {
    var cost: map<V, Option<nat>> := map v | v in g :: if v == start then Some(0) else None;
    InitialState(g, start, cost);
    var pred;
    ghost var predEdge, walks, rank;
    trace, cost, pred, predEdge, walks, rank := FinishRest(g, start, [DijkstraBegun], {}, cost, map[], map[], map[start := []], map[]);
    assert RankedPreds(pred, rank);
    AllFinished(g, start, cost, walks);
    var path := ReconstructPath(pred, start, end, rank);
    FinalState(g, start, end, cost, pred, predEdge, rank, trace);
    trace := trace + [DijkstraOver(path)];
  }
}
