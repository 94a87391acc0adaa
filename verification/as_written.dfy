/**
  `WeightedGraph` as its code is written, where that departs from what its
  documentation and its own pseudocode promise. Each definition here follows
  the code branch for branch; the lemmas exhibit inputs on which it goes
  wrong. The rest of the project models the corrected behaviour.
 */
module AsWritten {
  import opened Wrappers
  import opened GraphStore
  import opened Walks
  import opened ShortestPath
  import opened Examples

  /** `Integer.MAX_VALUE`, the code's stand-in for an infinite cost. */
  const IntMax: int := 0x7fff_ffff

  /** Java `int` addition: the sum wrapped into the 32-bit two's-complement range. */
  function Int32Add(a: int, b: int): (r: int)
    ensures -0x8000_0000 <= r < 0x8000_0000
    ensures (r - (a + b)) % 0x1_0000_0000 == 0
    ensures -0x8000_0000 <= a + b < 0x8000_0000 ==> r == a + b
  {
    var m := (a + b) % 0x1_0000_0000;
    if m >= 0x8000_0000 then m - 0x1_0000_0000 else m
  }

  /** An edge whose weight is any Java `Integer`, negative ones included. */
  datatype RawEdge<V> = RawEdge(source: V, destination: V, weight: int)

  /** The store as written: `addVertex` files a new vertex under `null` (`None`), not under an empty list. */
  type RawGraph<V> = map<V, Option<seq<RawEdge<V>>>>

  /** How a call ends: it returns, throws `IllegalArgumentException`, or dereferences `null`. */
  datatype Outcome<T> = Returned(value: T) | IllegalArgument | NullDereference

  /** `addVertex` as written: a new vertex gets no list at all. */
  function AddVertexAsWritten<V>(g: RawGraph<V>, v: V): (r: Outcome<RawGraph<V>>)
    ensures r.IllegalArgument? <==> v in g
    ensures r.Returned? ==> r.value.Keys == g.Keys + {v} && r.value[v] == None
    ensures r.Returned? ==> forall u | u in g :: r.value[u] == g[u]
  {
    if v in g then IllegalArgument else Returned(g[v := None])
  }

  /** The list filed under `v`; an absent or `null` list reads as the fresh list `addEdge` puts in its place. */
  function ListOf<V>(g: RawGraph<V>, v: V): seq<RawEdge<V>> {
    if v in g && g[v].Some? then g[v].value else []
  }

  /**
    `addEdge` as written: its guard joins the three admission tests with `||`,
    so the call goes through as soon as ONE of them passes.
   */
  function AddEdgeAsWritten<V>(g: RawGraph<V>, from: V, to: V, weight: int): (r: Outcome<RawGraph<V>>)
    ensures !r.NullDereference?
    ensures r.IllegalArgument? <==> from !in g && to !in g && weight < 0
    ensures r.Returned? ==> r.value.Keys == g.Keys + {from}
    ensures r.Returned? ==> r.value[from] == Some(ListOf(g, from) + [RawEdge(from, to, weight)])
    ensures r.Returned? ==> forall u | u in g && u != from :: r.value[u] == g[u]
  {
    if from in g || to in g || weight >= 0 then
      Returned(g[from := Some(ListOf(g, from) + [RawEdge(from, to, weight)])])
    else IllegalArgument
  }

  /**
    Whenever the documentation demands a refusal but any one of the three
    tests passes, the edge is stored anyway: an unknown `from` becomes a
    vertex, an unknown `to` is left dangling, a negative weight is kept.
    The corrected `AddEdge` refuses every such call.
   */
  lemma AddEdgeAcceptsForbiddenEdges<V>(g: RawGraph<V>, h: Graph<V>, from: V, to: V, weight: int)
    requires g.Keys == h.Keys
    requires from !in g || to !in g || weight < 0
    requires from in g || to in g || weight >= 0
    ensures AddEdgeAsWritten(g, from, to, weight).Returned?
    ensures RawEdge(from, to, weight) in AddEdgeAsWritten(g, from, to, weight).value[from].value
    ensures AddEdge(h, from, to, weight).Err?
  {
    var l := ListOf(g, from) + [RawEdge(from, to, weight)];
    assert l[|l| - 1] == RawEdge(from, to, weight);
  }

  /** A concrete instance: on the store holding only `'A'`, both forbidden calls go through. */
  lemma AddEdgeAsWrittenExample()
    ensures AddEdgeAsWritten(map['A' := None], 'X', 'A', 5) == Returned(map['A' := None, 'X' := Some([RawEdge('X', 'A', 5)])])
    ensures AddEdgeAsWritten(map['A' := None], 'A', 'A', -5) == Returned(map['A' := Some([RawEdge('A', 'A', -5)])])
    ensures AddEdge(map['A' := []], 'X', 'A', 5) == Err(UnknownVertex)
    ensures AddEdge(map['A' := []], 'A', 'A', -5) == Err(InvalidWeight)
  {
    var g: RawGraph<char> := map['A' := None];
    assert ListOf(g, 'X') == [] && ListOf(g, 'A') == [];
    assert [] + [RawEdge('X', 'A', 5)] == [RawEdge('X', 'A', 5)];
    assert [] + [RawEdge('A', 'A', -5)] == [RawEdge('A', 'A', -5)];
    assert g['A' := Some([RawEdge('A', 'A', -5)])] == map['A' := Some([RawEdge('A', 'A', -5)])];
  }

  /** Weight of the first `from -> to` edge of `es`, as the loop of `getWeight` finds it. */
  function FirstWeight<V(==)>(es: seq<RawEdge<V>>, from: V, to: V): (r: Option<int>)
    ensures r.Some? ==>
              exists j | 0 <= j < |es| ::
                && es[j].source == from && es[j].destination == to && es[j].weight == r.value
                && forall i | 0 <= i < j :: !(es[i].source == from && es[i].destination == to)
    ensures r.None? ==> forall j | 0 <= j < |es| :: !(es[j].source == from && es[j].destination == to)
  {
    if es == [] then None
    else if es[0].source == from && es[0].destination == to then Some(es[0].weight)
    else FirstWeight(es[1..], from, to)
  }

  /** `getWeight` as written: the loop runs over whatever is filed under `from`, `null` included. */
  function GetWeightAsWritten<V(==)>(g: RawGraph<V>, from: V, to: V): (r: Outcome<Option<int>>)
    ensures r.IllegalArgument? <==> from !in g || to !in g
    ensures r.NullDereference? <==> from in g && to in g && g[from].None?
    ensures r.Returned? ==> r.value == FirstWeight(g[from].value, from, to)
  {
    if from in g && to in g then
      match g[from]
      case None => NullDereference
      case Some(es) => Returned(FirstWeight(es, from, to))
    else IllegalArgument
  }

  /**
    Asking for the weight between two vertices just added throws, because the
    first one has no list yet; the corrected store answers "no edge".
   */
  lemma GetWeightOnNewVertexThrows()
    ensures AddVertexAsWritten(map[], 'A').Returned?
    ensures AddVertexAsWritten(AddVertexAsWritten(map[], 'A').value, 'B').Returned?
    ensures GetWeightAsWritten(AddVertexAsWritten(AddVertexAsWritten(map[], 'A').value, 'B').value, 'A', 'B') == NullDereference
    ensures AddVertex(EmptyGraph(), 'A').Ok?
    ensures AddVertex(AddVertex(EmptyGraph(), 'A').value, 'B').Ok?
    ensures GetWeight(AddVertex(AddVertex(EmptyGraph(), 'A').value, 'B').value, 'A', 'B') == Ok(None)
  {
    var g1 := AddVertexAsWritten(map[], 'A').value;
    assert 'B' !in g1;
    var h1 := AddVertex(EmptyGraph(), 'A').value;
    assert 'B' !in h1;
  }

  /**
    The test applied to each key by the selection loop of `DoDijsktra`:
    unfinished and cheaper than `smallestCost`, which starts at `IntMax` and
    is never lowered.
   */
  predicate Qualifies<V>(cost: map<V, int>, finished: set<V>, v: V) {
    v in cost && cost[v] < IntMax && v !in finished
  }

  /** The selection loop as written, over the keys in the map's iteration order. */
  function Scan<V>(keys: seq<V>, cost: map<V, int>, finished: set<V>, minVertex: Option<V>): Option<V>
    decreases |keys|
  {
    if keys == [] then minVertex
    else Scan(keys[1..], cost, finished, if Qualifies(cost, finished, keys[0]) then Some(keys[0]) else minVertex)
  }

  /**
    Every qualifying key overwrites `minVertex`, so the selection yields the
    LAST qualifying key, whatever its cost, and `minVertex` when none
    qualifies.
   */
  lemma {:induction false} ScanPicksLast<V>(keys: seq<V>, cost: map<V, int>, finished: set<V>, minVertex: Option<V>)
    ensures (forall i | 0 <= i < |keys| :: !Qualifies(cost, finished, keys[i])) ==> Scan(keys, cost, finished, minVertex) == minVertex
    ensures (exists i | 0 <= i < |keys| :: Qualifies(cost, finished, keys[i])) ==>
              exists i | 0 <= i < |keys| ::
                && Scan(keys, cost, finished, minVertex) == Some(keys[i]) && Qualifies(cost, finished, keys[i])
                && forall j | i < j < |keys| :: !Qualifies(cost, finished, keys[j])
    decreases |keys|
  {
    if keys != [] {
      var m := if Qualifies(cost, finished, keys[0]) then Some(keys[0]) else minVertex;
      ScanPicksLast(keys[1..], cost, finished, m);
      if exists i | 0 <= i < |keys| :: Qualifies(cost, finished, keys[i]) {
        if exists i | 0 <= i < |keys[1..]| :: Qualifies(cost, finished, keys[1..][i]) {
          var i :| 0 <= i < |keys[1..]| && Scan(keys, cost, finished, minVertex) == Some(keys[1..][i]) && Qualifies(cost, finished, keys[1..][i])
                   && forall j | i < j < |keys[1..]| :: !Qualifies(cost, finished, keys[1..][j]);
          assert forall j | i + 1 < j < |keys| :: keys[j] == keys[1..][j - 1];
        } else {
          assert forall j | 0 < j < |keys| :: keys[j] == keys[1..][j - 1];
        }
      } else {
        assert forall j | 0 < j < |keys| :: keys[j] == keys[1..][j - 1];
      }
    }
  }

  /**
    The relaxation loop as written, over the edges of the selected vertex
    `k`: no finished test, a wrapping `int` sum, and an unboxing of
    `costMap.get` that fails for a key the map lacks.
   */
  function RelaxAsWritten<V>(cost: map<V, int>, pred: map<V, V>, k: V, es: seq<RawEdge<V>>): (r: Outcome<(map<V, int>, map<V, V>)>)
    ensures r.Returned? ==> r.value.0.Keys == cost.Keys && pred.Keys <= r.value.1.Keys
    decreases |es|
  {
    if es == [] then Returned((cost, pred))
    else if k !in cost || es[0].destination !in cost then NullDereference
    else
      var t := Int32Add(cost[k], es[0].weight);
      if t < cost[es[0].destination] then
        RelaxAsWritten(cost[es[0].destination := t], pred[es[0].destination := k], k, es[1..])
      else RelaxAsWritten(cost, pred, k, es[1..])
  }

  /** The state of the main loop of `DoDijsktra`: finished vertices, the costs they were reported with, the cost and predecessor maps. */
  datatype Run<V> = Run(finished: set<V>, reported: seq<(V, int)>, cost: map<V, int>, pred: map<V, V>)

  /** The state before the main loop: every vertex at `IntMax`, then `start` at 0. */
  function InitialRun<V>(g: RawGraph<V>, start: V): (r: Run<V>)
    ensures r.cost.Keys == g.Keys + {start} && r.cost[start] == 0
    ensures forall v | v in g && v != start :: r.cost[v] == IntMax
  {
    Run({}, [], (map v | v in g :: IntMax)[start := 0], map[])
  }

  /**
    One round of the main loop as written: select, report, relax. When no key
    qualifies, `minVertex` stays `null` and `graph.get(null)` yields a `null`
    list; a selected vertex without a list fails the same way.
   */
  function RoundAsWritten<V>(g: RawGraph<V>, keys: seq<V>, r: Run<V>): Outcome<Run<V>>
  {
    ScanPicksLast(keys, r.cost, r.finished, None);
    match Scan(keys, r.cost, r.finished, None)
    case None => NullDereference
    case Some(k) =>
      if k !in g || g[k].None? then NullDereference
      else match RelaxAsWritten(r.cost, r.pred, k, g[k].value)
        case Returned(cp) => Returned(Run(r.finished + {k}, r.reported + [(k, r.cost[k])], cp.0, cp.1))
        case _ => NullDereference
  }

  /**
    A round either throws or finishes and reports one qualifying vertex,
    the last in iteration order, not necessarily the cheapest; a round in
    which no key qualifies always throws.
   */
  lemma RoundAsWrittenSelects<V>(g: RawGraph<V>, keys: seq<V>, r: Run<V>)
    ensures (forall i | 0 <= i < |keys| :: !Qualifies(r.cost, r.finished, keys[i])) ==> RoundAsWritten(g, keys, r).NullDereference?
    ensures RoundAsWritten(g, keys, r).Returned? ==>
              exists i | 0 <= i < |keys| ::
                && keys[i] in g && g[keys[i]].Some? && Qualifies(r.cost, r.finished, keys[i])
                && (forall j | i < j < |keys| :: !Qualifies(r.cost, r.finished, keys[j]))
                && RoundAsWritten(g, keys, r).value.finished == r.finished + {keys[i]}
                && RoundAsWritten(g, keys, r).value.reported == r.reported + [(keys[i], r.cost[keys[i]])]
  {
    ScanPicksLast(keys, r.cost, r.finished, None);
  }

  /** The store `testDijsktras` builds, as the code builds it: vertex `'5'` has no outgoing edge, hence no list. */
  function PublicTestRaw(): RawGraph<char> {
    map['0' := Some([RawEdge('0', '1', 4), RawEdge('0', '2', 3)]),
        '1' := Some([RawEdge('1', '2', 5), RawEdge('1', '3', 2)]),
        '2' := Some([RawEdge('2', '3', 7)]),
        '3' := Some([RawEdge('3', '4', 2)]),
        '4' := Some([RawEdge('4', '0', 4), RawEdge('4', '1', 4), RawEdge('4', '5', 6)]),
        '5' := None]
  }

  /** The lists of the raw public test store, one lookup at a time. */
  lemma PublicTestRawLists()
    ensures PublicTestRaw()['0'] == Some([RawEdge('0', '1', 4)] + [RawEdge('0', '2', 3)])
    ensures PublicTestRaw()['2'] == Some([RawEdge('2', '3', 7)] + [])
    ensures PublicTestRaw()['3'] == Some([RawEdge('3', '4', 2)] + [])
    ensures PublicTestRaw()['4'] == Some([RawEdge('4', '0', 4)] + ([RawEdge('4', '1', 4)] + ([RawEdge('4', '5', 6)] + [])))
    ensures PublicTestRaw()['5'] == None
  {
    assert [RawEdge('0', '1', 4), RawEdge('0', '2', 3)] == [RawEdge('0', '1', 4)] + [RawEdge('0', '2', 3)];
    assert [RawEdge('2', '3', 7)] == [RawEdge('2', '3', 7)] + [];
    assert [RawEdge('3', '4', 2)] == [RawEdge('3', '4', 2)] + [];
    assert [RawEdge('4', '0', 4), RawEdge('4', '1', 4), RawEdge('4', '5', 6)]
        == [RawEdge('4', '0', 4)] + ([RawEdge('4', '1', 4)] + ([RawEdge('4', '5', 6)] + []));
  }

  /** A round that selects `k`, whose list is present and whose relaxation returns `cp`. */
  lemma RoundStep<V>(g: RawGraph<V>, keys: seq<V>, r: Run<V>, k: V, cp: (map<V, int>, map<V, V>))
    requires Scan(keys, r.cost, r.finished, None) == Some(k) && k in r.cost
    requires k in g && g[k].Some? && RelaxAsWritten(r.cost, r.pred, k, g[k].value) == Returned(cp)
    ensures RoundAsWritten(g, keys, r) == Returned(Run(r.finished + {k}, r.reported + [(k, r.cost[k])], cp.0, cp.1))
  {
  }

  /** One relaxation step that lowers the destination's cost. */
  lemma RelaxLowers<V>(cost: map<V, int>, pred: map<V, V>, k: V, e: RawEdge<V>, rest: seq<RawEdge<V>>, t: int)
    requires k in cost && e.destination in cost
    requires t == Int32Add(cost[k], e.weight) && t < cost[e.destination]
    ensures RelaxAsWritten(cost, pred, k, [e] + rest) == RelaxAsWritten(cost[e.destination := t], pred[e.destination := k], k, rest)
  {
    assert ([e] + rest)[1..] == rest;
  }

  /** One relaxation step that leaves the destination's cost alone. */
  lemma RelaxKeeps<V>(cost: map<V, int>, pred: map<V, V>, k: V, e: RawEdge<V>, rest: seq<RawEdge<V>>)
    requires k in cost && e.destination in cost
    requires Int32Add(cost[k], e.weight) >= cost[e.destination]
    ensures RelaxAsWritten(cost, pred, k, [e] + rest) == RelaxAsWritten(cost, pred, k, rest)
  {
    assert ([e] + rest)[1..] == rest;
  }

  /** The iteration order of the keys `'0'` … `'5'` (their hash-bucket order). */
  function TestKeys(): seq<char> {
    ['0', '1', '2', '3', '4', '5']
  }

  /** The run on the public test store before its first round: `'0'` at 0, every other vertex at `IntMax`. */
  function TestRound0(): Run<char> {
    Run({}, [], map['0' := 0, '1' := IntMax, '2' := IntMax, '3' := IntMax, '4' := IntMax, '5' := IntMax], map[])
  }

  /** The run on the public test store after its first round: `'0'` finished at 0, `'1'` and `'2'` lowered. */
  function TestRound1(): Run<char> {
    var r0 := TestRound0();
    Run(r0.finished + {'0'}, r0.reported + [('0', 0)], r0.cost['1' := 4]['2' := 3], r0.pred['1' := '0']['2' := '0'])
  }

  /** After the second round: `'2'` finished at 3, `'3'` lowered to 10 through `'2'`. */
  function TestRound2(): Run<char> {
    var r1 := TestRound1();
    Run(r1.finished + {'2'}, r1.reported + [('2', 3)], r1.cost['3' := 10], r1.pred['3' := '2'])
  }

  /** After the third round: `'3'` finished at 10 although `'1'` (cost 4) is unfinished; `'4'` lowered to 12. */
  function TestRound3(): Run<char> {
    var r2 := TestRound2();
    Run(r2.finished + {'3'}, r2.reported + [('3', 10)], r2.cost['4' := 12], r2.pred['4' := '3'])
  }

  /** After the fourth round: `'4'` finished at 12, `'5'` lowered to 18. */
  function TestRound4(): Run<char> {
    var r3 := TestRound3();
    Run(r3.finished + {'4'}, r3.reported + [('4', 12)], r3.cost['5' := 18], r3.pred['5' := '4'])
  }

  lemma TestRound0Reached()
    ensures InitialRun(PublicTestRaw(), '0') == TestRound0()
  {
    var c := InitialRun(PublicTestRaw(), '0').cost;
    assert c.Keys == TestRound0().cost.Keys;
    assert forall v | v in c :: c[v] == TestRound0().cost[v];
  }

  lemma TestRound1Reached()
    ensures RoundAsWritten(PublicTestRaw(), TestKeys(), TestRound0()) == Returned(TestRound1())
  {
    var r0 := TestRound0();
    assert Qualifies(r0.cost, r0.finished, '0');
    assert !Qualifies(r0.cost, r0.finished, '1') && !Qualifies(r0.cost, r0.finished, '2') && !Qualifies(r0.cost, r0.finished, '3');
    assert !Qualifies(r0.cost, r0.finished, '4') && !Qualifies(r0.cost, r0.finished, '5');
    assert Scan(TestKeys(), r0.cost, r0.finished, None) == Some('0');
    PublicTestRawLists();
    RelaxLowers(r0.cost, r0.pred, '0', RawEdge('0', '1', 4), [RawEdge('0', '2', 3)], 4);
    RelaxLowers(r0.cost['1' := 4], r0.pred['1' := '0'], '0', RawEdge('0', '2', 3), [], 3);
    assert [RawEdge('0', '2', 3)] == [RawEdge('0', '2', 3)] + [];
    assert TestRound1() == Run(r0.finished + {'0'}, r0.reported + [('0', r0.cost['0'])], r0.cost['1' := 4]['2' := 3], r0.pred['1' := '0']['2' := '0']);
    RoundStep(PublicTestRaw(), TestKeys(), r0, '0', (r0.cost['1' := 4]['2' := 3], r0.pred['1' := '0']['2' := '0']));
  }

  lemma TestRound2Reached()
    ensures RoundAsWritten(PublicTestRaw(), TestKeys(), TestRound1()) == Returned(TestRound2())
  {
    var r1 := TestRound1();
    assert r1.finished == {'0'};
    assert r1.cost['1'] == 4 && r1.cost['2'] == 3 && r1.cost['3'] == IntMax;
    assert r1.cost['4'] == IntMax && r1.cost['5'] == IntMax;
    assert Qualifies(r1.cost, r1.finished, '1') && Qualifies(r1.cost, r1.finished, '2');
    assert !Qualifies(r1.cost, r1.finished, '3') && !Qualifies(r1.cost, r1.finished, '4') && !Qualifies(r1.cost, r1.finished, '5');
    assert Scan(TestKeys(), r1.cost, r1.finished, None) == Some('2');
    assert RelaxAsWritten(r1.cost, r1.pred, '2', PublicTestRaw()['2'].value) == Returned((r1.cost['3' := 10], r1.pred['3' := '2']));
    RoundStep(PublicTestRaw(), TestKeys(), r1, '2', (r1.cost['3' := 10], r1.pred['3' := '2']));
  }

  lemma TestRound3Reached()
    ensures RoundAsWritten(PublicTestRaw(), TestKeys(), TestRound2()) == Returned(TestRound3())
  {
    var r2 := TestRound2();
    assert r2.finished == {'0', '2'};
    assert r2.cost['1'] == 4 && r2.cost['3'] == 10 && r2.cost['4'] == IntMax && r2.cost['5'] == IntMax;
    assert Qualifies(r2.cost, r2.finished, '1') && Qualifies(r2.cost, r2.finished, '3');
    assert !Qualifies(r2.cost, r2.finished, '4') && !Qualifies(r2.cost, r2.finished, '5');
    assert Scan(TestKeys(), r2.cost, r2.finished, None) == Some('3');
    assert RelaxAsWritten(r2.cost, r2.pred, '3', PublicTestRaw()['3'].value) == Returned((r2.cost['4' := 12], r2.pred['4' := '3']));
    RoundStep(PublicTestRaw(), TestKeys(), r2, '3', (r2.cost['4' := 12], r2.pred['4' := '3']));
  }

  lemma TestRound4Reached()
    ensures RoundAsWritten(PublicTestRaw(), TestKeys(), TestRound3()) == Returned(TestRound4())
  {
    var r3 := TestRound3();
    assert r3.finished == {'0', '2', '3'};
    assert r3.cost['1'] == 4 && r3.cost['4'] == 12 && r3.cost['5'] == IntMax;
    assert Qualifies(r3.cost, r3.finished, '1') && Qualifies(r3.cost, r3.finished, '4');
    assert !Qualifies(r3.cost, r3.finished, '5');
    assert Scan(TestKeys(), r3.cost, r3.finished, None) == Some('4');
    assert r3.cost['0'] == 0 && r3.cost['5'] == IntMax;
    assert RelaxAsWritten(r3.cost, r3.pred, '4', PublicTestRaw()['4'].value) == Returned((r3.cost['5' := 18], r3.pred['5' := '4']));
    RoundStep(PublicTestRaw(), TestKeys(), r3, '4', (r3.cost['5' := 18], r3.pred['5' := '4']));
  }

  /** The fifth round selects `'5'`, whose list is `null`. */
  lemma TestRound5Throws()
    ensures RoundAsWritten(PublicTestRaw(), TestKeys(), TestRound4()) == NullDereference
  {
    var r4 := TestRound4();
    assert r4.finished == {'0', '2', '3', '4'};
    assert r4.cost['5'] == 18 && r4.cost['1'] == 4;
    assert !Qualifies(r4.cost, r4.finished, '0') && Qualifies(r4.cost, r4.finished, '1');
    assert !Qualifies(r4.cost, r4.finished, '2') && !Qualifies(r4.cost, r4.finished, '3');
    assert !Qualifies(r4.cost, r4.finished, '4') && Qualifies(r4.cost, r4.finished, '5');
    assert Scan(TestKeys(), r4.cost, r4.finished, None) == Some('5');
  }

  /** The costs reported in the first three rounds. */
  lemma TestReported()
    ensures TestRound3().reported == [('0', 0), ('2', 3), ('3', 10)]
  {
    assert TestRound1().reported == [('0', 0)];
    assert TestRound2().reported == [('0', 0), ('2', 3)];
  }

  /**
    `DoDijsktra('0', '5')` on the public test store as written: the third
    vertex finished is `'3'`, reported at cost 10 although its least cost
    is 6, because `'1'` (cost 4) qualifies earlier in the scan; the fifth
    round selects `'5'` and iterates its `null` list.
   */
  lemma PublicTestRunAsWritten()
    ensures var r1 := RoundAsWritten(PublicTestRaw(), TestKeys(), InitialRun(PublicTestRaw(), '0'));
            && r1.Returned?
            && var r2 := RoundAsWritten(PublicTestRaw(), TestKeys(), r1.value);
            && r2.Returned?
            && var r3 := RoundAsWritten(PublicTestRaw(), TestKeys(), r2.value);
            && r3.Returned?
            && r3.value.reported == [('0', 0), ('2', 3), ('3', 10)]
            && var r4 := RoundAsWritten(PublicTestRaw(), TestKeys(), r3.value);
            && r4.Returned?
            && RoundAsWritten(PublicTestRaw(), TestKeys(), r4.value) == NullDereference
    ensures IsShortest(PublicTestGraph(), '0', '3', Some(6))
  {
    TestRound0Reached();
    TestRound1Reached();
    TestRound2Reached();
    TestRound3Reached();
    TestRound4Reached();
    TestRound5Throws();
    TestReported();
    PublicTestDistances();
  }

  /**
    A vertex no edge reaches is never selected, so once the reachable ones
    are finished no key qualifies and the round dereferences `null`. Here
    `'x'` leads to `'s'` but nothing leads to `'x'`; the corrected algorithm
    finishes `'x'` with infinite cost instead.
   */
  lemma UnreachableVertexThrows()
    ensures var g := map['s' := Some([RawEdge('s', 's', 1)]), 'x' := Some([RawEdge('x', 's', 1)])];
            var r1 := RoundAsWritten(g, ['s', 'x'], InitialRun(g, 's'));
            && r1.Returned? && r1.value.reported == [('s', 0)]
            && RoundAsWritten(g, ['s', 'x'], r1.value) == NullDereference
  {
    var g := map['s' := Some([RawEdge('s', 's', 1)]), 'x' := Some([RawEdge('x', 's', 1)])];
    var r0 := InitialRun(g, 's');
    assert Scan(['s', 'x'], r0.cost, r0.finished, None) == Some('s');
    assert RelaxAsWritten(r0.cost, r0.pred, 's', g['s'].value) == Returned((r0.cost, r0.pred));
    RoundStep(g, ['s', 'x'], r0, 's', (r0.cost, r0.pred));
    var r1 := Run(r0.finished + {'s'}, r0.reported + [('s', 0)], r0.cost, r0.pred);
    assert r1.reported == [('s', 0)];
    assert Scan(['s', 'x'], r1.cost, r1.finished, None) == None;
  }

  /**
    The reconstruction loop as written: it pushes `end`, then follows the
    predecessor map back until a vertex without predecessor, and reports that
    chain whether or not it reaches `start`. Nothing bounds the loop, so it is
    modelled with `fuel`, the number of predecessor steps allowed: `None`
    means the loop has not ended within that many steps.
   */
  function ReconstructAsWritten<V>(pred: map<V, V>, end: V, fuel: nat): (path: Option<seq<V>>)
    ensures path.Some? ==> |path.value| >= 1 && path.value[|path.value| - 1] == end && path.value[0] !in pred
    ensures path.Some? ==> PredChain(pred, path.value)
    decreases fuel
  {
    if end !in pred then Some([end])
    else if fuel == 0 then None
    else match ReconstructAsWritten(pred, pred[end], fuel - 1)
      case None => None
      case Some(pre) =>
        assert PredChain(pred, pre + [end]) by {
          forall i | 1 <= i < |pre| + 1
            ensures (pre + [end])[i] in pred && pred[(pre + [end])[i]] == (pre + [end])[i - 1]
          {
            if i < |pre| {
              assert (pre + [end])[i] == pre[i] && (pre + [end])[i - 1] == pre[i - 1];
            }
          }
        }
        Some(pre + [end])
  }

  /**
    On a predecessor map whose ranks decrease, the loop ends within `rank[end] + 1`
    steps and reports the same chain as the corrected `Backtrack`.
   */
  lemma {:induction false} ReconstructAsWrittenEnds<V>(pred: map<V, V>, end: V, rank: map<V, nat>, fuel: nat)
    requires RankedPreds(pred, rank)
    requires end in pred ==> fuel > rank[end]
    ensures ReconstructAsWritten(pred, end, fuel) == Some(Backtrack(pred, end, rank))
    decreases fuel
  {
    if end in pred {
      ReconstructAsWrittenEnds(pred, pred[end], rank, fuel - 1);
    }
  }

  /** Two vertices that are each other's predecessor: the loop never ends from either. */
  lemma {:induction false} CycleNeverEnds<V>(pred: map<V, V>, a: V, b: V, fuel: nat)
    requires a in pred && b in pred && pred[a] == b && pred[b] == a
    ensures ReconstructAsWritten(pred, a, fuel).None? && ReconstructAsWritten(pred, b, fuel).None?
    decreases fuel
  {
    if fuel > 0 {
      CycleNeverEnds(pred, a, b, fuel - 1);
    }
  }

  /** Two vertices that are each other's predecessor admit no decreasing rank. */
  lemma CycleUnranked<V>(pred: map<V, V>, a: V, b: V, rank: map<V, nat>)
    requires a in pred && b in pred && pred[a] == b && pred[b] == a
    ensures !RankedPreds(pred, rank)
  {
    if a in rank && b in rank && rank[b] < rank[a] {
      assert !(rank[pred[b]] < rank[b]);
    } else {
      assert !(a in rank && pred[a] in rank && rank[pred[a]] < rank[a]);
    }
  }

  /**
    An `end` without predecessor other than `start` is reported as the
    one-vertex path `[end]`, which does not start at `start`; the corrected
    reconstruction reports no path.
   */
  lemma ReconstructUnreachableAsWritten<V(!new)>(start: V, end: V, pred: map<V, V>, rank: map<V, nat>, fuel: nat)
    requires RankedPreds(pred, rank) && end != start && end !in pred
    ensures ReconstructAsWritten(pred, end, fuel) == Some([end])
    ensures ReconstructAsWritten(pred, end, fuel).value[0] != start
    ensures ReconstructPath(pred, start, end, rank) == None
  {
  }

  /**
    A run that reaches the reconstruction with an `end` that is not a vertex:
    one vertex `'A'` with a loop of weight 1. The only round finishes `'A'`,
    which ends the main loop, and `'Z'` is reported as the path `['Z']`.
   */
  lemma NonVertexEndAsWritten()
    ensures var g := map['A' := Some([RawEdge('A', 'A', 1)])];
            var r1 := RoundAsWritten(g, ['A'], InitialRun(g, 'A'));
            && r1.Returned? && r1.value.finished == g.Keys
            && forall fuel: nat :: ReconstructAsWritten(r1.value.pred, 'Z', fuel) == Some(['Z'])
  {
    var g := map['A' := Some([RawEdge('A', 'A', 1)])];
    var r0 := InitialRun(g, 'A');
    assert Qualifies(r0.cost, r0.finished, 'A');
    assert Scan(['A'], r0.cost, r0.finished, None) == Some('A');
    RelaxKeeps(r0.cost, r0.pred, 'A', RawEdge('A', 'A', 1), []);
    assert [RawEdge('A', 'A', 1)] == [RawEdge('A', 'A', 1)] + [];
    RoundStep(g, ['A'], r0, 'A', (r0.cost, r0.pred));
  }

  /**
    The store `A -> B` (weight 1), `B -> A` (weight `w`). The `addEdge` guard
    accepts every `w`, negative ones included.
   */
  function CycleStore(w: int): RawGraph<char> {
    map['A' := Some([RawEdge('A', 'B', 1)]), 'B' := Some([RawEdge('B', 'A', w)])]
  }

  /** Two `addVertex` and two `addEdge` calls build `CycleStore(w)`, whatever `w`. */
  lemma CycleStoreBuilt(w: int)
    ensures var g0 := AddVertexAsWritten(AddVertexAsWritten(map[], 'A').value, 'B').value;
            var g1 := AddEdgeAsWritten(g0, 'A', 'B', 1).value;
            AddEdgeAsWritten(g1, 'B', 'A', w) == Returned(CycleStore(w))
  {
    var g0 := AddVertexAsWritten(AddVertexAsWritten(map[], 'A').value, 'B').value;
    assert g0 == map['A' := None, 'B' := None];
    assert ListOf(g0, 'A') + [RawEdge('A', 'B', 1)] == [RawEdge('A', 'B', 1)];
    var g1 := AddEdgeAsWritten(g0, 'A', 'B', 1).value;
    assert g1 == g0['A' := Some([RawEdge('A', 'B', 1)])];
    assert ListOf(g1, 'B') + [RawEdge('B', 'A', w)] == [RawEdge('B', 'A', w)];
    assert AddEdgeAsWritten(g1, 'B', 'A', w).value == g1['B' := Some([RawEdge('B', 'A', w)])];
    assert g1['B' := Some([RawEdge('B', 'A', w)])] == CycleStore(w);
  }

  /** A negative weight, and `Integer.MAX_VALUE` through the wrap of `1 + w`, both make the sum negative. */
  lemma NegativeAndWrappedSums()
    ensures Int32Add(1, -5) < 0
    ensures Int32Add(1, IntMax) < 0
  {
  }

  /**
    When `1 + w` is negative as a Java `int`, Dijkstra from `'A'` on
    `CycleStore(w)` finishes both vertices in two rounds, which ends the main
    loop, and relaxes `'A'` through `'B'`. The two vertices become each
    other's predecessor, so no rank orders the map and the reconstruction
    never ends, from either vertex.
   */
  lemma CyclicPredecessorsAsWritten(w: int)
    requires Int32Add(1, w) < 0
    ensures var g := CycleStore(w);
            var r1 := RoundAsWritten(g, ['A', 'B'], InitialRun(g, 'A'));
            && r1.Returned?
            && var r2 := RoundAsWritten(g, ['A', 'B'], r1.value);
            && r2.Returned?
            && r2.value.finished == g.Keys
            && r2.value.pred == map['B' := 'A', 'A' := 'B']
            && (forall rank :: !RankedPreds(r2.value.pred, rank))
            && forall fuel: nat :: ReconstructAsWritten(r2.value.pred, 'B', fuel).None?
  {
    var g := CycleStore(w);
    var r0 := InitialRun(g, 'A');
    assert Qualifies(r0.cost, r0.finished, 'A') && !Qualifies(r0.cost, r0.finished, 'B');
    assert Scan(['A', 'B'], r0.cost, r0.finished, None) == Some('A');
    RelaxLowers(r0.cost, r0.pred, 'A', RawEdge('A', 'B', 1), [], 1);
    assert [RawEdge('A', 'B', 1)] == [RawEdge('A', 'B', 1)] + [];
    var c1, p1 := r0.cost['B' := 1], r0.pred['B' := 'A'];
    RoundStep(g, ['A', 'B'], r0, 'A', (c1, p1));
    var r1 := Run(r0.finished + {'A'}, r0.reported + [('A', 0)], c1, p1);
    assert !Qualifies(r1.cost, r1.finished, 'A') && Qualifies(r1.cost, r1.finished, 'B');
    assert Scan(['A', 'B'], r1.cost, r1.finished, None) == Some('B');
    var t := Int32Add(1, w);
    RelaxLowers(c1, p1, 'B', RawEdge('B', 'A', w), [], t);
    assert [RawEdge('B', 'A', w)] == [RawEdge('B', 'A', w)] + [];
    RoundStep(g, ['A', 'B'], r1, 'B', (c1['A' := t], p1['A' := 'B']));
    var p2 := p1['A' := 'B'];
    assert p2 == map['B' := 'A', 'A' := 'B'];
    forall rank
      ensures !RankedPreds(p2, rank)
    {
      CycleUnranked(p2, 'A', 'B', rank);
    }
    forall fuel: nat
      ensures ReconstructAsWritten(p2, 'B', fuel).None?
    {
      CycleNeverEnds(p2, 'A', 'B', fuel);
    }
  }
}
