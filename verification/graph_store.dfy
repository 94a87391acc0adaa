/**
  The graph store of `WeightedGraph`: a map from each vertex to its outgoing
  edges in insertion order. The store is an immutable value, so every query
  (membership, weight lookup, the traversals) reads it without changing it.
 */
module GraphStore {
  import opened Wrappers

  /** A directed edge with a non-negative weight. */
  datatype Edge<V> = Edge(source: V, destination: V, weight: nat)

  /** Each vertex maps to its outgoing edges; a vertex without edges maps to `[]`. */
  type Graph<V> = map<V, seq<Edge<V>>>

  /** The three ways a store operation is refused. */
  datatype GraphError = DuplicateVertex | UnknownVertex | InvalidWeight

  /** The store with no vertices, as built by the constructor. */
  function EmptyGraph<V>(): Graph<V> {
    map[]
  }

  /** The store invariant: every edge is filed under its source, and leads to a vertex of the store. */
  predicate Valid<V>(g: Graph<V>) {
    forall v, i | v in g && 0 <= i < |g[v]| :: g[v][i].source == v && g[v][i].destination in g
  }

  /** Adds a vertex with no outgoing edges; refuses a vertex already present. */
  function AddVertex<V>(g: Graph<V>, v: V): (r: Result<Graph<V>, GraphError>)
    ensures r.Err? <==> v in g
    ensures r.Err? ==> r.error == DuplicateVertex
    ensures r.Ok? ==> r.value.Keys == g.Keys + {v} && r.value[v] == []
    ensures r.Ok? ==> forall u | u in g :: r.value[u] == g[u]
    ensures r.Ok? && Valid(g) ==> Valid(r.value)
  {
    if v in g then Err(DuplicateVertex) else Ok(g[v := []])
  }

  /** Membership test; total. */
  predicate ContainsVertex<V>(g: Graph<V>, v: V) {
    v in g
  }

  /**
    Adds the directed edge `from -> to` at the end of `from`'s list. Refuses an
    endpoint that is not a vertex, and a negative weight.
   */
  function AddEdge<V>(g: Graph<V>, from: V, to: V, weight: int): (r: Result<Graph<V>, GraphError>)
    ensures r.Err? <==> from !in g || to !in g || weight < 0
    ensures r.Err? ==> r.error == (if from !in g || to !in g then UnknownVertex else InvalidWeight)
    ensures r.Ok? ==> r.value.Keys == g.Keys
    ensures r.Ok? ==> |r.value[from]| == |g[from]| + 1 && r.value[from][..|g[from]|] == g[from]
    ensures r.Ok? ==> r.value[from][|g[from]|] == Edge(from, to, weight)
    ensures r.Ok? ==> forall u | u in g && u != from :: r.value[u] == g[u]
    ensures r.Ok? && Valid(g) ==> Valid(r.value)
  {
    if from !in g || to !in g then Err(UnknownVertex)
    else if weight < 0 then Err(InvalidWeight)
    else Ok(g[from := g[from] + [Edge(from, to, weight)]])
  }

  /** The edge `e` joins `from` to `to`: the test `getWeight` applies to each edge. */
  predicate Joins<V(==)>(e: Edge<V>, from: V, to: V) {
    e.source == from && e.destination == to
  }

  /** Position of the first edge of `es` joining `from` to `to`, if any. */
  function FindEdge<V(==)>(es: seq<Edge<V>>, from: V, to: V): (r: Option<nat>)
    ensures r.Some? ==> r.value < |es| && Joins(es[r.value], from, to)
    ensures r.Some? ==> forall j | 0 <= j < r.value :: !Joins(es[j], from, to)
    ensures r.None? ==> forall j | 0 <= j < |es| :: !Joins(es[j], from, to)
  {
    if es == [] then None
    else if Joins(es[0], from, to) then Some(0)
    else match FindEdge(es[1..], from, to)
      case None => None
      case Some(i) => Some(i + 1)
  }

  /**
    Weight of the first `from -> to` edge in insertion order, `None` when there
    is no such edge; refuses an endpoint that is not a vertex.
   */
  function GetWeight<V(==)>(g: Graph<V>, from: V, to: V): (r: Result<Option<nat>, GraphError>)
    ensures r.Err? <==> from !in g || to !in g
    ensures r.Err? ==> r.error == UnknownVertex
    ensures r.Ok? && r.value.None? ==> forall j | 0 <= j < |g[from]| :: !Joins(g[from][j], from, to)
    ensures r.Ok? && r.value.Some? ==>
              exists j | 0 <= j < |g[from]| ::
                && Joins(g[from][j], from, to)
                && g[from][j].weight == r.value.value
                && forall i | 0 <= i < j :: !Joins(g[from][i], from, to)
  {
    if from !in g || to !in g then Err(UnknownVertex)
    else match FindEdge(g[from], from, to)
      case None => Ok(None)
      case Some(j) => Ok(Some(g[from][j].weight))
  }

  /** Adding a vertex of `keys` to `S` leaves fewer vertices of `keys` outside `S`. */
  lemma FewerOutside<V>(keys: set<V>, S: set<V>, k: V)
    requires k in keys && k !in S
    ensures |keys - (S + {k})| < |keys - S|
  {
    assert keys - S == (keys - (S + {k})) + {k};
  }

  /** Adds the vertices of `vs` one after another, stopping at the first refusal. */
  function AddVertices<V>(g: Graph<V>, vs: seq<V>): Result<Graph<V>, GraphError>
    decreases |vs|
  {
    if vs == [] then Ok(g)
    else match AddVertex(g, vs[0])
      case Err(e) => Err(e)
      case Ok(g1) => AddVertices(g1, vs[1..])
  }

  /** No vertex occurs twice in `vs`. */
  predicate Distinct<V(==)>(vs: seq<V>) {
    forall i, j | 0 <= i < j < |vs| :: vs[i] != vs[j]
  }

  /** Adding a vertex makes exactly that vertex newly contained. */
  lemma ContainsAfterAddVertex<V>(g: Graph<V>, v: V, u: V)
    requires AddVertex(g, v).Ok?
    ensures ContainsVertex(AddVertex(g, v).value, u) <==> u == v || ContainsVertex(g, u)
  {
  }

  /** Adding an edge leaves the vertex set alone. */
  lemma ContainsAfterAddEdge<V>(g: Graph<V>, from: V, to: V, w: int, u: V)
    requires AddEdge(g, from, to, w).Ok?
    ensures ContainsVertex(AddEdge(g, from, to, w).value, u) <==> ContainsVertex(g, u)
  {
  }

  /**
    Adding a sequence of vertices succeeds exactly when they are pairwise
    distinct and new; afterwards the store contains exactly the old vertices
    and the added ones, and the old edge lists are untouched.
   */
  lemma {:induction false} AddVerticesContains<V>(g: Graph<V>, vs: seq<V>)
    ensures AddVertices(g, vs).Ok? <==> Distinct(vs) && forall i | 0 <= i < |vs| :: vs[i] !in g
    ensures AddVertices(g, vs).Ok? ==>
              forall u :: ContainsVertex(AddVertices(g, vs).value, u) <==> u in g || u in vs
    ensures AddVertices(g, vs).Ok? ==> forall u | u in g :: u in AddVertices(g, vs).value && AddVertices(g, vs).value[u] == g[u]
    decreases |vs|
  {
    if vs != [] {
      if vs[0] in g {
        assert !(forall i | 0 <= i < |vs| :: vs[i] !in g);
      } else {
        var g1 := g[vs[0] := []];
        AddVerticesContains(g1, vs[1..]);
        if AddVertices(g, vs).Ok? {
          forall u
            ensures ContainsVertex(AddVertices(g, vs).value, u) <==> u in g || u in vs
          {
            assert u in vs <==> u == vs[0] || u in vs[1..] by {
              assert vs == [vs[0]] + vs[1..];
            }
          }
          forall i, j | 0 <= i < j < |vs|
            ensures vs[i] != vs[j]
          {
            if i == 0 {
              assert vs[j] == vs[1..][j - 1];
            } else {
              assert vs[i] == vs[1..][i - 1] && vs[j] == vs[1..][j - 1];
            }
          }
        } else if Distinct(vs) && forall i | 0 <= i < |vs| :: vs[i] !in g {
          forall i | 0 <= i < |vs[1..]|
            ensures vs[1..][i] !in g1
          {
            assert vs[1..][i] == vs[i + 1];
          }
          assert Distinct(vs[1..]) by {
            forall i, j | 0 <= i < j < |vs[1..]|
              ensures vs[1..][i] != vs[1..][j]
            {
              assert vs[1..][i] == vs[i + 1] && vs[1..][j] == vs[j + 1];
            }
          }
          assert false;
        }
      }
    }
  }

  /** `FindEdge` on a list with one edge appended: an earlier match wins, otherwise the new edge may. */
  lemma {:induction false} FindEdgeAppend<V>(es: seq<Edge<V>>, e: Edge<V>, from: V, to: V)
    ensures FindEdge(es + [e], from, to) ==
              if FindEdge(es, from, to).Some? then FindEdge(es, from, to)
              else if Joins(e, from, to) then Some(|es|)
              else None
  {
    if es != [] {
      assert (es + [e])[1..] == es[1..] + [e];
      FindEdgeAppend(es[1..], e, from, to);
    }
  }

  /**
    After `addEdge(a, b, w)` a weight query changes only for the pair `(a, b)`,
    and only when there was no `a -> b` edge before; in particular the reverse
    query `(b, a)` is unaffected, since edges are directed.
   */
  lemma GetWeightAfterAddEdge<V>(g: Graph<V>, a: V, b: V, w: int, x: V, y: V)
    requires AddEdge(g, a, b, w).Ok?
    ensures GetWeight(AddEdge(g, a, b, w).value, x, y) ==
              if x == a && y == b && GetWeight(g, a, b) == Ok(None) then Ok(Some(w as nat))
              else GetWeight(g, x, y)
  {
    if x == a && x in g && y in g {
      FindEdgeAppend(g[a], Edge(a, b, w), x, y);
    }
  }
}
