/**
  The stores built by the public tests of `WeightedGraph`, and what the
  model says about them: membership, weight lookups and the least costs
  Dijkstra's algorithm finishes each vertex with.
 */
module Examples {
  import opened Wrappers
  import opened GraphStore
  import opened Walks
  import opened Events
  import opened ShortestPath

  /** `addEdge` on the store a previous call left, or the refusal that call ended in. */
  function Then<V>(r: Result<Graph<V>, GraphError>, from: V, to: V, weight: int): Result<Graph<V>, GraphError> {
    if r.Err? then r else AddEdge(r.value, from, to, weight)
  }

  /** The four vertices `A` … `D` of the first two tests. */
  function Letters(): Result<Graph<char>, GraphError> {
    AddVertices(EmptyGraph(), ['A', 'B', 'C', 'D'])
  }

  /** `testAddVertexAndContainsVertex`: the four vertices added are contained, `E` is not. */
  lemma ContainsVertexTest()
    ensures Letters().Ok?
    ensures ContainsVertex(Letters().value, 'A') && ContainsVertex(Letters().value, 'B')
    ensures ContainsVertex(Letters().value, 'C') && ContainsVertex(Letters().value, 'D')
    ensures !ContainsVertex(Letters().value, 'E')
  {
    AddVerticesContains(EmptyGraph(), ['A', 'B', 'C', 'D']);
    assert 'E' !in ['A', 'B', 'C', 'D'];
  }

  /** The store of `testAddEdgeAndGetWeight`. */
  function LettersWithEdges(): Result<Graph<char>, GraphError> {
    var r0 := Letters();
    var r1 := Then(r0, 'A', 'B', 1);
    var r2 := Then(r1, 'A', 'C', 2);
    var r3 := Then(r2, 'A', 'D', 3);
    var r4 := Then(r3, 'B', 'C', 4);
    var r5 := Then(r4, 'D', 'C', 5);
    r5
  }

  /** The store `testAddEdgeAndGetWeight` ends up with. */
  function LetterStore(): Graph<char> {
    map['A' := [Edge('A', 'B', 1), Edge('A', 'C', 2), Edge('A', 'D', 3)],
        'B' := [Edge('B', 'C', 4)], 'C' := [], 'D' := [Edge('D', 'C', 5)]]
  }

  /** The five `addEdge` calls of `testAddEdgeAndGetWeight` all succeed and build `LetterStore`. */
  lemma LettersWithEdgesBuilt()
    ensures LettersWithEdges() == Ok(LetterStore())
  {
    assert Letters() == Ok(FourVertices());
    EdgesFromABuilt();
    LastTwoLetterEdgesBuilt();
  }

  /** The four vertices `A` … `D`, before any edge. */
  function FourVertices(): Graph<char> {
    map['A' := [], 'B' := [], 'C' := [], 'D' := []]
  }

  /** The store after the three `addEdge` calls leaving `A`. */
  function EdgesFromA(): Graph<char> {
    FourVertices()['A' := [Edge('A', 'B', 1), Edge('A', 'C', 2), Edge('A', 'D', 3)]]
  }

  /** The three `addEdge` calls leaving `A` succeed. */
  lemma EdgesFromABuilt()
    ensures Then(Then(Then(Ok(FourVertices()), 'A', 'B', 1), 'A', 'C', 2), 'A', 'D', 3) == Ok(EdgesFromA())
  {
    var g0 := FourVertices();
    var g1 := g0['A' := [Edge('A', 'B', 1)]];
    assert g0['A'] + [Edge('A', 'B', 1)] == [Edge('A', 'B', 1)];
    ThenStep(g0, 'A', 'B', 1, g1);
    var g2 := g1['A' := [Edge('A', 'B', 1), Edge('A', 'C', 2)]];
    assert g1['A'] + [Edge('A', 'C', 2)] == [Edge('A', 'B', 1), Edge('A', 'C', 2)];
    ThenStep(g1, 'A', 'C', 2, g2);
    var g3 := g2['A' := [Edge('A', 'B', 1), Edge('A', 'C', 2), Edge('A', 'D', 3)]];
    assert g2['A'] + [Edge('A', 'D', 3)] == [Edge('A', 'B', 1), Edge('A', 'C', 2), Edge('A', 'D', 3)];
    ThenStep(g2, 'A', 'D', 3, g3);
    assert g3 == EdgesFromA();
  }

  /** The last two `addEdge` calls of `testAddEdgeAndGetWeight` succeed and complete `LetterStore`. */
  lemma LastTwoLetterEdgesBuilt()
    ensures Then(Then(Ok(EdgesFromA()), 'B', 'C', 4), 'D', 'C', 5) == Ok(LetterStore())
  {
    var g3 := EdgesFromA();
    var g4 := g3['B' := [Edge('B', 'C', 4)]];
    assert g3['B'] + [Edge('B', 'C', 4)] == [Edge('B', 'C', 4)];
    ThenStep(g3, 'B', 'C', 4, g4);
    var g5 := g4['D' := [Edge('D', 'C', 5)]];
    assert g4['D'] + [Edge('D', 'C', 5)] == [Edge('D', 'C', 5)];
    ThenStep(g4, 'D', 'C', 5, g5);
    assert g5 == LetterStore();
  }

  /**
    `testAddEdgeAndGetWeight`: each stored edge reports its weight, the
    reverse direction and a missing pair report no edge, and an unknown
    endpoint is refused.
   */
  lemma GetWeightTest()
    ensures GetWeight(LetterStore(), 'A', 'B') == Ok(Some(1))
    ensures GetWeight(LetterStore(), 'B', 'A') == Ok(None)
    ensures GetWeight(LetterStore(), 'A', 'C') == Ok(Some(2))
    ensures GetWeight(LetterStore(), 'A', 'D') == Ok(Some(3))
    ensures GetWeight(LetterStore(), 'B', 'C') == Ok(Some(4))
    ensures GetWeight(LetterStore(), 'D', 'C') == Ok(Some(5))
    ensures GetWeight(LetterStore(), 'X', 'A') == Err(UnknownVertex)
    ensures GetWeight(LetterStore(), 'A', 'X') == Err(UnknownVertex)
    ensures GetWeight(LetterStore(), 'B', 'D') == Ok(None)
  {
  }

  /** The store of `testDijsktras`: six vertices `'0'` … `'5'` and nine edges. */
  function PublicTestGraph(): Graph<char> {
    map['0' := [Edge('0', '1', 4), Edge('0', '2', 3)],
        '1' := [Edge('1', '2', 5), Edge('1', '3', 2)],
        '2' := [Edge('2', '3', 7)],
        '3' := [Edge('3', '4', 2)],
        '4' := [Edge('4', '0', 4), Edge('4', '1', 4), Edge('4', '5', 6)],
        '5' := []]
  }

  /** The calls `testDijsktras` makes to build its store: six `addVertex`, then nine `addEdge`. */
  function PublicTestBuild(): Result<Graph<char>, GraphError> {
    var r0 := AddVertices(EmptyGraph(), ['0', '1', '2', '3', '4', '5']);
    var r1 := Then(r0, '0', '1', 4);
    var r2 := Then(r1, '0', '2', 3);
    var r3 := Then(r2, '1', '2', 5);
    var r4 := Then(r3, '1', '3', 2);
    var r5 := Then(r4, '2', '3', 7);
    var r6 := Then(r5, '3', '4', 2);
    var r7 := Then(r6, '4', '0', 4);
    var r8 := Then(r7, '4', '1', 4);
    Then(r8, '4', '5', 6)
  }

  /** A successful `addEdge` on a store that is the result of earlier calls. */
  lemma ThenStep<V>(g: Graph<V>, from: V, to: V, weight: int, h: Graph<V>)
    requires from in g && to in g && weight >= 0
    requires h == g[from := g[from] + [Edge(from, to, weight)]]
    ensures Then(Ok(g), from, to, weight) == Ok(h)
  {
  }

  /** A second update of the same vertex replaces the first. */
  lemma UpdateTwice<V>(g: Graph<V>, v: V, a: seq<Edge<V>>, b: seq<Edge<V>>)
    ensures g[v := a][v := b] == g[v := b]
  {
  }

  /** The six vertices of `testDijsktras`, before any edge. */
  function SixVertices(): Graph<char> {
    map['0' := [], '1' := [], '2' := [], '3' := [], '4' := [], '5' := []]
  }

  /** The store after the first two `addEdge` calls of `testDijsktras`. */
  function FirstTwoEdges(): Graph<char> {
    SixVertices()['0' := [Edge('0', '1', 4), Edge('0', '2', 3)]]
  }

  /** The store after the first four `addEdge` calls of `testDijsktras`. */
  function FirstFourEdges(): Graph<char> {
    FirstTwoEdges()['1' := [Edge('1', '2', 5), Edge('1', '3', 2)]]
  }

  /** The six `addVertex` calls of `testDijsktras` succeed. */
  lemma SixVerticesBuilt()
    ensures AddVertices(EmptyGraph(), ['0', '1', '2', '3', '4', '5']) == Ok(SixVertices())
  {
  }

  /** The first four `addEdge` calls of `testDijsktras` succeed. */
  lemma FirstFourBuilt()
    ensures Then(Then(Then(Then(Ok(SixVertices()), '0', '1', 4), '0', '2', 3), '1', '2', 5), '1', '3', 2) == Ok(FirstFourEdges())
  {
    FirstTwoBuilt();
    var g2 := FirstTwoEdges();
    var g3 := g2['1' := [Edge('1', '2', 5)]];
    assert g2['1'] + [Edge('1', '2', 5)] == [Edge('1', '2', 5)];
    ThenStep(g2, '1', '2', 5, g3);
    assert g3['1'] + [Edge('1', '3', 2)] == [Edge('1', '2', 5), Edge('1', '3', 2)];
    UpdateTwice(g2, '1', [Edge('1', '2', 5)], [Edge('1', '2', 5), Edge('1', '3', 2)]);
    ThenStep(g3, '1', '3', 2, FirstFourEdges());
  }

  /** The first two `addEdge` calls of `testDijsktras` succeed. */
  lemma FirstTwoBuilt()
    ensures Then(Then(Ok(SixVertices()), '0', '1', 4), '0', '2', 3) == Ok(FirstTwoEdges())
  {
    var g0 := SixVertices();
    var g1 := g0['0' := [Edge('0', '1', 4)]];
    assert g0['0'] + [Edge('0', '1', 4)] == [Edge('0', '1', 4)];
    ThenStep(g0, '0', '1', 4, g1);
    assert g1['0'] + [Edge('0', '2', 3)] == [Edge('0', '1', 4), Edge('0', '2', 3)];
    UpdateTwice(g0, '0', [Edge('0', '1', 4)], [Edge('0', '1', 4), Edge('0', '2', 3)]);
    ThenStep(g1, '0', '2', 3, FirstTwoEdges());
  }

  /** The store after the first six `addEdge` calls of `testDijsktras`. */
  function FirstSixEdges(): Graph<char> {
    FirstFourEdges()['2' := [Edge('2', '3', 7)]]['3' := [Edge('3', '4', 2)]]
  }

  /** The fifth and sixth `addEdge` calls of `testDijsktras` succeed. */
  lemma NextTwoBuilt()
    ensures Then(Then(Ok(FirstFourEdges()), '2', '3', 7), '3', '4', 2) == Ok(FirstSixEdges())
  {
    var g4 := FirstFourEdges();
    var g5 := g4['2' := [Edge('2', '3', 7)]];
    assert g4['2'] + [Edge('2', '3', 7)] == [Edge('2', '3', 7)];
    ThenStep(g4, '2', '3', 7, g5);
    var g6 := g5['3' := [Edge('3', '4', 2)]];
    assert g5['3'] + [Edge('3', '4', 2)] == [Edge('3', '4', 2)];
    ThenStep(g5, '3', '4', 2, g6);
  }

  /** The store after the first eight edges: `'4'` has its first two edges. */
  function FirstEightEdges(): Graph<char> {
    FirstSixEdges()['4' := [Edge('4', '0', 4), Edge('4', '1', 4)]]
  }

  /** The seventh and eighth `addEdge` calls of `testDijsktras` succeed. */
  lemma NextTwoFromFourBuilt()
    ensures Then(Then(Ok(FirstSixEdges()), '4', '0', 4), '4', '1', 4) == Ok(FirstEightEdges())
  {
    var g6 := FirstSixEdges();
    var g7 := g6['4' := [Edge('4', '0', 4)]];
    assert g6['4'] + [Edge('4', '0', 4)] == [Edge('4', '0', 4)];
    ThenStep(g6, '4', '0', 4, g7);
    assert g7['4'] + [Edge('4', '1', 4)] == [Edge('4', '0', 4), Edge('4', '1', 4)];
    UpdateTwice(g6, '4', [Edge('4', '0', 4)], [Edge('4', '0', 4), Edge('4', '1', 4)]);
    ThenStep(g7, '4', '1', 4, FirstEightEdges());
  }

  /** The last three `addEdge` calls of `testDijsktras` succeed and complete `PublicTestGraph`. */
  lemma LastThreeBuilt()
    ensures Then(Then(Then(Ok(FirstSixEdges()), '4', '0', 4), '4', '1', 4), '4', '5', 6) == Ok(PublicTestGraph())
  {
    NextTwoFromFourBuilt();
    var g8 := FirstEightEdges();
    assert g8['4'] + [Edge('4', '5', 6)] == [Edge('4', '0', 4), Edge('4', '1', 4), Edge('4', '5', 6)];
    AllNineEdges();
    ThenStep(g8, '4', '5', 6, PublicTestGraph());
  }

  /** The update chain of the nine edges is the store `PublicTestGraph` lists. */
  lemma AllNineEdges()
    ensures FirstEightEdges()['4' := [Edge('4', '0', 4), Edge('4', '1', 4), Edge('4', '5', 6)]] == PublicTestGraph()
  {
  }

  /** Every call `testDijsktras` makes succeeds, and together they build `PublicTestGraph`. */
  lemma PublicTestBuilt()
    ensures PublicTestBuild() == Ok(PublicTestGraph())
  {
    SixVerticesBuilt();
    FirstFourBuilt();
    NextTwoBuilt();
    LastThreeBuilt();
  }

  /** The nine weight checks of `testDijsktras` hold, and the store is well formed. */
  lemma PublicTestWeights()
    ensures GetWeight(PublicTestGraph(), '0', '1') == Ok(Some(4)) && GetWeight(PublicTestGraph(), '0', '2') == Ok(Some(3))
    ensures GetWeight(PublicTestGraph(), '1', '2') == Ok(Some(5)) && GetWeight(PublicTestGraph(), '1', '3') == Ok(Some(2))
    ensures GetWeight(PublicTestGraph(), '2', '3') == Ok(Some(7)) && GetWeight(PublicTestGraph(), '3', '4') == Ok(Some(2))
    ensures GetWeight(PublicTestGraph(), '4', '0') == Ok(Some(4)) && GetWeight(PublicTestGraph(), '4', '1') == Ok(Some(4))
    ensures GetWeight(PublicTestGraph(), '4', '5') == Ok(Some(6))
  {
  }

  /** The test store has six vertices. */
  lemma PublicTestSize()
    ensures |PublicTestGraph()| == 6
  {
    assert PublicTestGraph() == SixVertices()['0' := PublicTestGraph()['0']]['1' := PublicTestGraph()['1']]['2' := PublicTestGraph()['2']]
                                             ['3' := PublicTestGraph()['3']]['4' := PublicTestGraph()['4']];
  }

  /** The least walk cost from `'0'` to each vertex of the test store. */
  function TestDistance(): map<char, int> {
    map['0' := 0, '1' := 4, '2' := 3, '3' := 6, '4' := 8, '5' := 14]
  }

  /** No edge of the test store undercuts `TestDistance`. */
  lemma TestDistanceIsPotential()
    ensures Valid(PublicTestGraph()) && PublicTestGraph().Keys == TestDistance().Keys
    ensures forall v, i | v in PublicTestGraph() && 0 <= i < |PublicTestGraph()[v]| ::
              TestDistance()[PublicTestGraph()[v][i].destination] <= TestDistance()[v] + PublicTestGraph()[v][i].weight
  {
    var g: Graph<char> := PublicTestGraph();
    var d: map<char, int> := TestDistance();
    forall v, i | v in g && 0 <= i < |g[v]|
      ensures d[g[v][i].destination] <= d[v] + g[v][i].weight
      ensures g[v][i].source == v && g[v][i].destination in g
    {
      assert v == '0' || v == '1' || v == '2' || v == '3' || v == '4' || v == '5';
    }
  }

  /** A walk from `'0'` as heavy as `TestDistance` of its end is a least-cost one. */
  lemma ShortestByWitness(v: char, es: seq<Edge<char>>)
    requires IsWalk(PublicTestGraph(), '0', es) && Target('0', es) == v && v in TestDistance()
    requires Weight(es) == TestDistance()[v]
    ensures IsShortest(PublicTestGraph(), '0', v, Some(Weight(es)))
  {
    TestDistanceIsPotential();
    forall fs | IsWalk(PublicTestGraph(), '0', fs) && Target('0', fs) == v
      ensures Weight(es) <= Weight(fs)
    {
      PotentialBound(PublicTestGraph(), TestDistance(), '0', fs);
    }
  }

  /** The least costs of `'0'`, `'1'`, `'2'` and `'3'`, with the walk that reaches `'3'` at cost 6. */
  lemma NearDistances() returns (w3: seq<Edge<char>>)
    ensures IsShortest(PublicTestGraph(), '0', '0', Some(0))
    ensures IsShortest(PublicTestGraph(), '0', '1', Some(4))
    ensures IsShortest(PublicTestGraph(), '0', '2', Some(3))
    ensures IsShortest(PublicTestGraph(), '0', '3', Some(6))
    ensures IsWalk(PublicTestGraph(), '0', w3) && Target('0', w3) == '3' && Weight(w3) == 6
  {
    var g := PublicTestGraph();
    var e01, e02, e13 := Edge('0', '1', 4), Edge('0', '2', 3), Edge('1', '3', 2);
    assert e01 == g['0'][0] && e02 == g['0'][1] && e13 == g['1'][1];
    var w0: seq<Edge<char>> := [];
    assert IsWalk(g, '0', w0);
    ShortestByWitness('0', w0);
    WalkExtend(g, '0', w0, e02);
    ShortestByWitness('2', w0 + [e02]);
    WalkExtend(g, '0', w0, e01);
    var w1 := w0 + [e01];
    ShortestByWitness('1', w1);
    WalkExtend(g, '0', w1, e13);
    w3 := w1 + [e13];
    ShortestByWitness('3', w3);
  }

  /** The least costs from `'0'` in the test store: 0, 4, 3, 6, 8 and 14 for `'0'` … `'5'`. */
  lemma PublicTestDistances()
    ensures IsShortest(PublicTestGraph(), '0', '0', Some(0))
    ensures IsShortest(PublicTestGraph(), '0', '1', Some(4))
    ensures IsShortest(PublicTestGraph(), '0', '2', Some(3))
    ensures IsShortest(PublicTestGraph(), '0', '3', Some(6))
    ensures IsShortest(PublicTestGraph(), '0', '4', Some(8))
    ensures IsShortest(PublicTestGraph(), '0', '5', Some(14))
  {
    var g := PublicTestGraph();
    var w3 := NearDistances();
    var e34, e45 := Edge('3', '4', 2), Edge('4', '5', 6);
    assert e34 == g['3'][0] && e45 == g['4'][2];
    WalkExtend(g, '0', w3, e34);
    var w4 := w3 + [e34];
    ShortestByWitness('4', w4);
    WalkExtend(g, '0', w4, e45);
    ShortestByWitness('5', w4 + [e45]);
  }

  /** The edges of the test store along which `TestDistance` rises by exactly the edge's weight. */
  lemma TestTightEdge(e: Edge<char>)
    requires e.source in PublicTestGraph() && e in PublicTestGraph()[e.source]
    requires e.destination in TestDistance() && e.source in TestDistance()
    requires TestDistance()[e.destination] == TestDistance()[e.source] + e.weight
    ensures || e == Edge('0', '1', 4) || e == Edge('0', '2', 3) || e == Edge('1', '3', 2)
            || e == Edge('3', '4', 2) || e == Edge('4', '5', 6)
  {
    var g := PublicTestGraph();
    assert e.source == '0' || e.source == '1' || e.source == '2' || e.source == '3' || e.source == '4' || e.source == '5';
  }

  /** One of the five tight edges of the test store. */
  predicate TestTight(e: Edge<char>) {
    || e == Edge('0', '1', 4) || e == Edge('0', '2', 3) || e == Edge('1', '3', 2)
    || e == Edge('3', '4', 2) || e == Edge('4', '5', 6)
  }

  /** A chain of tight edges from `'0'` to `'5'` is the chain through `'1'`, `'3'` and `'4'`. */
  lemma TightChain(es: seq<Edge<char>>)
    requires |es| >= 1 && es[0].source == '0' && es[|es| - 1].destination == '5'
    requires forall i | 0 <= i < |es| - 1 :: es[i].destination == es[i + 1].source
    requires forall i | 0 <= i < |es| :: TestTight(es[i])
    ensures es == [Edge('0', '1', 4), Edge('1', '3', 2), Edge('3', '4', 2), Edge('4', '5', 6)]
  {
    var n := |es|;
    assert es[n - 1] == Edge('4', '5', 6);
    assert n >= 2;
    assert es[n - 2] == Edge('3', '4', 2);
    assert n >= 3;
    assert es[n - 3] == Edge('1', '3', 2);
    assert n >= 4;
    assert es[n - 4] == Edge('0', '1', 4);
    forall i | 1 <= i < n
      ensures es[i].source != '0'
    {
      assert es[i - 1].destination == es[i].source && TestTight(es[i - 1]);
    }
  }

  /**
    The only least-cost walk from `'0'` to `'5'` in the test store is
    `0, 1, 3, 4, 5`: every step of it must be tight, and the tight edges
    lead back from `'5'` along a single chain.
   */
  lemma PublicTestPath(p: seq<char>, es: seq<Edge<char>>)
    requires Follows(PublicTestGraph(), '0', p, es) && Target('0', es) == '5' && Weight(es) == 14
    ensures p == ['0', '1', '3', '4', '5']
  {
    var g, d := PublicTestGraph(), TestDistance();
    TestDistanceIsPotential();
    TightWalk(g, d, '0', es);
    forall i | 0 <= i < |es|
      ensures TestTight(es[i])
    {
      TestTightEdge(es[i]);
    }
    TightChain(es);
  }

  /** `IsShortest` pins the cost down: two least costs of the same vertex agree. */
  lemma ShortestUnique<V(!new)>(g: Graph<V>, s: V, v: V, c1: Option<nat>, c2: Option<nat>)
    requires IsShortest(g, s, v, c1) && IsShortest(g, s, v, c2)
    ensures c1 == c2
  {
    if c1.Some? {
      var es :| IsWalk(g, s, es) && Target(s, es) == v && Weight(es) == c1.value;
      assert c2.Some? && c2.value <= c1.value;
    }
    if c2.Some? {
      var es :| IsWalk(g, s, es) && Target(s, es) == v && Weight(es) == c2.value;
      assert c1.Some? && c1.value <= c2.value;
    }
  }

  /** In a finished run, a vertex is reported with its least cost. */
  lemma FinishedWithShortest<V(!new)>(g: Graph<V>, start: V, t: seq<Event<V>>, v: V, c: Option<nat>)
    requires FinishedInOrder(g, start, t) && v in g && IsShortest(g, start, v, c)
    ensures Finished(v, c) in t
  {
    var i :| 1 <= i < |t| - 1 && t[i].Finished? && t[i].vertex == v;
    ShortestUnique(g, start, v, t[i].cost, c);
    assert t[i] == Finished(v, c);
  }

  /** A vertex with a finite least cost gets a path, along a walk of exactly that cost. */
  lemma ReportedPathCost<V(!new)>(g: Graph<V>, start: V, end: V, t: seq<Event<V>>, c: nat)
    requires PathReported(g, start, end, t) && IsShortest(g, start, end, Some(c))
    ensures t[|t| - 1].path.Some?
    ensures exists es :: Follows(g, start, t[|t| - 1].path.value, es) && Target(start, es) == end && Weight(es) == c
  {
    var w :| IsWalk(g, start, w) && Target(start, w) == end && Weight(w) == c;
    assert Reachable(g, start, end);
    var es :| Follows(g, start, t[|t| - 1].path.value, es) && Target(start, es) == end
              && Finished(end, Some(Weight(es))) in t && IsShortest(g, start, end, Some(Weight(es)));
    ShortestUnique(g, start, end, Some(Weight(es)), Some(c));
  }

  /** The events of a finished run on the test store carry the least costs 0, 4, 3, 6, 8 and 14. */
  lemma PublicTestEvents(trace: seq<Event<char>>)
    requires FinishedInOrder(PublicTestGraph(), '0', trace)
    ensures |trace| == 8 && trace[0] == DijkstraBegun && trace[1] == Finished('0', Some(0))
    ensures Finished('1', Some(4)) in trace && Finished('2', Some(3)) in trace && Finished('3', Some(6)) in trace
    ensures Finished('4', Some(8)) in trace && Finished('5', Some(14)) in trace
  {
    var g := PublicTestGraph();
    PublicTestSize();
    PublicTestDistances();
    FinishedWithShortest(g, '0', trace, '1', Some(4));
    FinishedWithShortest(g, '0', trace, '2', Some(3));
    FinishedWithShortest(g, '0', trace, '3', Some(6));
    FinishedWithShortest(g, '0', trace, '4', Some(8));
    FinishedWithShortest(g, '0', trace, '5', Some(14));
  }

  /**
    `DoDijsktra('0', '5')` on the test store: the run begins with `'0'` at
    cost 0, finishes every vertex with its least cost, and reports a path
    from `'0'` to `'5'` along a walk of weight 14.
   */
  method PublicDijkstraTest() returns (trace: seq<Event<char>>)
    ensures |trace| == 8 && trace[0] == DijkstraBegun && trace[1] == Finished('0', Some(0))
    ensures Finished('1', Some(4)) in trace && Finished('2', Some(3)) in trace && Finished('3', Some(6)) in trace
    ensures Finished('4', Some(8)) in trace && Finished('5', Some(14)) in trace
    ensures trace[7].DijkstraOver? && trace[7].path.Some?
    ensures trace[7].path.value == ['0', '1', '3', '4', '5']
    ensures exists es :: Follows(PublicTestGraph(), '0', trace[7].path.value, es) && Target('0', es) == '5' && Weight(es) == 14
  {
    TestDistanceIsPotential();
    trace := Dijkstra(PublicTestGraph(), '0', '5');
    PublicTestEvents(trace);
    PublicTestDistances();
    ReportedPathCost(PublicTestGraph(), '0', '5', trace, 14);
    ghost var es :| Follows(PublicTestGraph(), '0', trace[7].path.value, es) && Target('0', es) == '5' && Weight(es) == 14;
    PublicTestPath(trace[7].path.value, es);
  }
}
