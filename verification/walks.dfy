/**
  Walks through the graph, their weights and reachability: the reference
  notions against which the three traversals are stated.
 */
module Walks {
  import opened GraphStore

  /**
    `es` is a walk of `g` leaving `s`: every step is an edge stored under its
    source, the first step leaves `s`, and consecutive steps meet.
   */
  ghost predicate IsWalk<V>(g: Graph<V>, s: V, es: seq<Edge<V>>) {
    && (forall i | 0 <= i < |es| :: es[i].source in g && es[i] in g[es[i].source])
    && (|es| > 0 ==> es[0].source == s)
    && (forall i | 0 <= i < |es| - 1 :: es[i].destination == es[i + 1].source)
  }

  /** The vertex a walk from `s` arrives at. */
  function Target<V>(s: V, es: seq<Edge<V>>): V {
    if es == [] then s else es[|es| - 1].destination
  }

  /** Total weight of a walk. */
  function Weight<V>(es: seq<Edge<V>>): nat {
    if es == [] then 0 else Weight(es[..|es| - 1]) + es[|es| - 1].weight
  }

  /** Some walk leads from `s` to `t`. */
  ghost predicate Reachable<V(!new)>(g: Graph<V>, s: V, t: V) {
    exists es :: IsWalk(g, s, es) && Target(s, es) == t
  }

  /** No edge leaves the set `S`. */
  ghost predicate Closed<V>(g: Graph<V>, S: set<V>) {
    forall v, i | v in S && v in g && 0 <= i < |g[v]| :: g[v][i].destination in S
  }

  /** Extending a walk by an edge leaving its target gives a walk one edge heavier. */
  lemma WalkExtend<V>(g: Graph<V>, s: V, es: seq<Edge<V>>, e: Edge<V>)
    requires IsWalk(g, s, es)
    requires e.source == Target(s, es) && e.source in g && e in g[e.source]
    ensures IsWalk(g, s, es + [e])
    ensures Target(s, es + [e]) == e.destination
    ensures Weight(es + [e]) == Weight(es) + e.weight
  {
    assert (es + [e])[..|es|] == es;
  }

  /** A vertex reached from `s` passes reachability on along each of its edges. */
  lemma ReachableStep<V(!new)>(g: Graph<V>, s: V, u: V, j: nat)
    requires Valid(g) && u in g && j < |g[u]|
    requires Reachable(g, s, u)
    ensures Reachable(g, s, g[u][j].destination)
  {
    var es :| IsWalk(g, s, es) && Target(s, es) == u;
    WalkExtend(g, s, es, g[u][j]);
  }

  /** Every vertex reaches itself by the empty walk. */
  lemma ReachableSelf<V(!new)>(g: Graph<V>, s: V)
    ensures Reachable(g, s, s)
  {
    assert IsWalk(g, s, []) && Target(s, []) == s;
  }

  /** A walk ends in the store unless it is empty. */
  lemma TargetInGraph<V>(g: Graph<V>, s: V, es: seq<Edge<V>>)
    requires Valid(g) && IsWalk(g, s, es) && es != []
    ensures Target(s, es) in g
  {
    var e := es[|es| - 1];
    var j :| 0 <= j < |g[e.source]| && g[e.source][j] == e;
  }

  /**
    A prefix of a walk is a walk; it ends where the next step starts and is
    no heavier than the whole walk.
   */
  lemma {:induction false} WalkPrefix<V>(g: Graph<V>, s: V, es: seq<Edge<V>>, i: nat)
    requires IsWalk(g, s, es) && i <= |es|
    ensures IsWalk(g, s, es[..i])
    ensures i < |es| ==> Target(s, es[..i]) == es[i].source
    ensures Weight(es[..i]) <= Weight(es)
    ensures i < |es| ==> Weight(es[..i + 1]) == Weight(es[..i]) + es[i].weight
    decreases |es| - i
  {
    if i < |es| {
      assert es[..i + 1][..i] == es[..i];
      WalkPrefix(g, s, es, i + 1);
    } else {
      assert es[..i] == es;
    }
  }

  /**
    A walk from inside `S` to outside `S` crosses the boundary: some step
    leaves a vertex of `S` for a vertex outside it.
   */
  lemma {:induction false} CrossingStep<V>(g: Graph<V>, s: V, es: seq<Edge<V>>, S: set<V>) returns (i: nat)
    requires IsWalk(g, s, es) && s in S && Target(s, es) !in S
    ensures i < |es| && es[i].source in S && es[i].destination !in S
    decreases |es|
  {
    var n := |es| - 1;
    if es[n].source in S {
      i := n;
    } else {
      var pre := es[..n];
      assert IsWalk(g, s, pre);
      assert Target(s, pre) == es[n].source;
      i := CrossingStep(g, s, pre, S);
      assert pre[i] == es[i];
    }
  }

  /** A walk that starts in a set no edge leaves stays in that set. */
  lemma ClosedKeepsWalks<V>(g: Graph<V>, S: set<V>, s: V, es: seq<Edge<V>>)
    requires Valid(g) && Closed(g, S) && s in S && IsWalk(g, s, es)
    ensures Target(s, es) in S
  {
    if Target(s, es) !in S {
      var i := CrossingStep(g, s, es, S);
    }
  }

  /**
    A potential `d` that no edge can undercut bounds every walk from below:
    a walk from `s` to `t` weighs at least `d[t] - d[s]`.
   */
  lemma {:induction false} PotentialBound<V>(g: Graph<V>, d: map<V, int>, s: V, es: seq<Edge<V>>)
    requires Valid(g) && g.Keys <= d.Keys && s in g && IsWalk(g, s, es)
    requires forall v, i | v in g && 0 <= i < |g[v]| :: d[g[v][i].destination] <= d[v] + g[v][i].weight
    ensures Target(s, es) in g
    ensures Weight(es) >= d[Target(s, es)] - d[s]
    decreases |es|
  {
    if es != [] {
      var n := |es| - 1;
      WalkPrefix(g, s, es, n);
      PotentialBound(g, d, s, es[..n]);
      var u := es[n].source;
      var j :| 0 <= j < |g[u]| && g[u][j] == es[n];
      assert es[..n + 1] == es;
    }
  }

  /**
    A walk exactly as light as the potential allows uses only tight edges:
    each of its steps raises the potential by exactly the step's weight.
   */
  lemma {:induction false} TightWalk<V>(g: Graph<V>, d: map<V, int>, s: V, es: seq<Edge<V>>)
    requires Valid(g) && g.Keys <= d.Keys && s in g && IsWalk(g, s, es)
    requires forall v, i | v in g && 0 <= i < |g[v]| :: d[g[v][i].destination] <= d[v] + g[v][i].weight
    requires Target(s, es) in d && Weight(es) == d[Target(s, es)] - d[s]
    ensures forall i | 0 <= i < |es| ::
              es[i].source in d && es[i].destination in d && d[es[i].destination] == d[es[i].source] + es[i].weight
    decreases |es|
  {
    if es != [] {
      var n := |es| - 1;
      var pre := es[..n];
      WalkPrefix(g, s, es, n);
      assert es[..n + 1] == es;
      PotentialBound(g, d, s, pre);
      var u := es[n].source;
      var j :| 0 <= j < |g[u]| && g[u][j] == es[n];
      assert d[es[n].destination] <= d[u] + es[n].weight;
      TightWalk(g, d, s, pre);
      forall i | 0 <= i < n
        ensures es[i] == pre[i]
      {
      }
    }
  }
}
