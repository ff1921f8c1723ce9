/** Harmonic closeness by breadth-first search from every node. */
module Closeness {
  import opened Sums
  import opened Graphs
  import opened Ordering
  import opened ShortestPaths
  import opened Distances
  import opened Components
  import opened BreadthFirst
  import opened Pairs
  import opened PathTotals

  ghost function Reciprocal(g: Graph, s: Node): Node -> real {
    (t: Node) => if Dist(g, s, t) > 0 then 1.0 / Dist(g, s, t) as real else 0.0
  }

  ghost function Others(g: Graph, s: Node): set<Node> {
    Comp(g, {}, s) - {s}
  }

  /** Summed reciprocal distances to the other reachable nodes, over n - 1. */
  ghost function Harmonic(g: Graph, s: Node): real {
    if |g.nodes| > 1 then Sum(Others(g, s), Reciprocal(g, s)) / (|g.nodes| - 1) as real else 0.0
  }

  /** One breadth-first search. */
  method Search(g: Graph, adj: map<Node, set<Node>>, source: Node)
    returns (dist: map<Node, int>, ghost order: seq<Node>)
    requires Valid(g) && IsAdjacency(g, adj) && source in g.nodes
    ensures Exhausted(g, source, order, dist)
    ensures forall t :: t in dist <==> Conn(g, {}, source, t)
    ensures forall t | t in dist :: dist[t] == Dist(g, source, t)
  {
    hide Layered, Valid, Nbrs, Sorted, IsAdjacency, Get, Conn, Dist;
    dist := map[source := 0];
    var queue: seq<Node> := [source];
    order := [source];
    ghost var k := 0;
    LayeredStart(g, source);
    while queue != []
      invariant 0 <= k <= |order| && order[k..] == queue
      invariant Layered(g, source, order, k, dist, {})
      decreases g.nodes - dist.Keys, |queue|
    {
      LayeredTake(g, source, order, k, dist);
      var current := queue[0];
      queue := queue[1..];
      k := k + 1;
      ghost var before, height := dist.Keys, |queue|;
      LayeredKeys(g, source, order, k, dist, Nbrs(g, current));
      GetNbrs(g, adj, current);
      var list := Sorted(Get(adj, current));
      ghost var pending := Nbrs(g, current);
      for i := 0 to |list|
        invariant 0 < k <= |order| && order[k..] == queue && order[k - 1] == current
        invariant forall x :: x in pending <==> x in list[i..]
        invariant Layered(g, source, order, k, dist, pending)
        invariant before <= dist.Keys <= g.nodes && (dist.Keys == before ==> |queue| == height)
      {
        var neighbor := list[i];
        assert neighbor in Nbrs(g, current) by { assert neighbor in list; }
        CurrentKnown(g, source, order, k, dist, pending);
        if neighbor !in dist {
          LayeredAdd(g, source, order, k, dist, pending, neighbor);
          dist := dist[neighbor := dist[current] + 1];
          queue := queue + [neighbor];
          order := order + [neighbor];
        }
        LayeredSee(g, source, order, k, dist, pending, neighbor);
        LayeredKeys(g, source, order, k, dist, pending - {neighbor});
        DropFirst(list, i, pending);
        pending := pending - {neighbor};
      }
      assert pending == {} by {
        assert list[|list|..] == [];
        assert forall x :: x !in pending;
      }
    }
    forall t ensures (t in dist <==> Conn(g, {}, source, t)) && (t in dist ==> dist[t] == Dist(g, source, t)) {
      DistancesExact(g, source, order, dist, t);
    }
  }

  lemma ReciprocalOfDist(g: Graph, s: Node, order: seq<Node>, dist: map<Node, int>, t: Node)
    requires Valid(g) && Exhausted(g, s, order, dist) && t in dist
    ensures Reciprocal(g, s)(t) == if dist[t] > 0 then 1.0 / dist[t] as real else 0.0
  {
    DistancesExact(g, s, order, dist, t);
  }

  method SumReciprocals(g: Graph, s: Node, dist: map<Node, int>, ghost order: seq<Node>) returns (sum: real)
    requires Valid(g) && Exhausted(g, s, order, dist)
    ensures sum == Sum(dist.Keys, Reciprocal(g, s))
  {
    hide Sum, Exhausted, Dist, Valid;
    sum := 0.0;
    var rest := dist.Keys;
    ghost var done: set<Node> := {};
    SumConstant(done, 0.0, Reciprocal(g, s));
    while rest != {}
      invariant rest <= dist.Keys && done == dist.Keys - rest
      invariant sum == Sum(done, Reciprocal(g, s))
      decreases |rest|
    {
      var t :| t in rest;
      ReciprocalOfDist(g, s, order, dist, t);
      SumInsert(done, Reciprocal(g, s), t);
      if dist[t] > 0 {
        sum := sum + 1.0 / dist[t] as real;
      }
      rest := rest - {t};
      done := done + {t};
    }
    assert done == dist.Keys;
  }

  // ---------------------------------------------------------------- layer by layer

  ghost function AtDistance(g: Graph, s: Node, k: nat): set<Node> {
    set t | t in g.nodes && Conn(g, {}, s, t) && Dist(g, s, t) == k
  }

  /** The nodes at distance `k` weigh 1/k each. */
  ghost function LayerTerm(g: Graph, s: Node): nat -> real {
    (k: nat) => if k == 0 then 0.0 else |AtDistance(g, s, k)| as real / k as real
  }

  ghost predicate IsLevel(g: Graph, k: nat) {
    0 < k < |g.nodes|
  }

  ghost function Levels(g: Graph): set<nat> {
    set k: nat | k < |g.nodes| && IsLevel(g, k)
  }

  ghost function Weights(g: Graph, s: Node): (Node, nat) -> real {
    (t: Node, k: nat) => if k > 0 && Dist(g, s, t) == k then 1.0 / k as real else 0.0
  }

  /** A reachable node stands in exactly one layer. */
  lemma InOneLayer(g: Graph, s: Node, t: Node)
    requires Valid(g) && t in Others(g, s)
    ensures Reciprocal(g, s)(t) == Sum(Levels(g), Row(Weights(g, s), t))
  {
    var d := Dist(g, s, t);
    if d == 0 {
      DistZero(g, s, t);
    }
    DistIs(g, s, t);
    hide Sum, Dist, Conn;
    var p :| p in Shortest(g, s, t);
    ShortestIsSimple(g, s, t, p);
    SubsetSize(Elements(p), g.nodes);
    assert d in Levels(g);
    var row := Row(Weights(g, s), t);
    SumRestrict(Levels(g), {d}, row, row);
    SumOne(d, row);
  }

  /** A layer collects 1/k from each of its nodes. */
  lemma LayerCollects(g: Graph, s: Node, k: nat)
    requires Valid(g) && s in g.nodes && k > 0
    ensures LayerTerm(g, s)(k) == Sum(Others(g, s), Column(Weights(g, s), k))
  {
    DistSelf(g, s);
    hide Sum, Dist, Conn, Times;
    assert LayerTerm(g, s)(k) == |AtDistance(g, s, k)| as real / k as real;
    var layer, column := AtDistance(g, s, k), Column(Weights(g, s), k);
    assert layer <= Others(g, s);
    SumRestrict(Others(g, s), layer, column, column);
    SumEqual(layer, 1.0 / k as real, column);
    LayerWeight(|layer| as real, k as real);
    hide *;
  }

  lemma LayerWeight(n: real, k: real)
    requires k > 0.0
    ensures Times(n, 1.0 / k) == n / k
  {
    DivideProduct(n, 1.0, k);
  }

  /** Harmonic closeness adds up the sizes of the layers, each over its distance. */
  lemma HarmonicByLayers(g: Graph, s: Node)
    requires Valid(g) && s in g.nodes
    ensures Harmonic(g, s) ==
            if |g.nodes| > 1 then Sum(Levels(g), LayerTerm(g, s)) / (|g.nodes| - 1) as real else 0.0
  {
    hide Sum, Others, Levels, LayerTerm, Reciprocal, Weights;
    forall t | t in Others(g, s) ensures Reciprocal(g, s)(t) == Sum(Levels(g), Row(Weights(g, s), t)) {
      InOneLayer(g, s, t);
    }
    forall k | k in Levels(g) ensures LayerTerm(g, s)(k) == Sum(Others(g, s), Column(Weights(g, s), k)) {
      assert k > 0 by { LevelPositive(g, k); }
      LayerCollects(g, s, k);
    }
    SumSwap(Others(g, s), Levels(g), Weights(g, s), Reciprocal(g, s), LayerTerm(g, s));
  }

  lemma LevelPositive(g: Graph, k: nat)
    requires k in Levels(g)
    ensures k > 0
  {}

  /** Every node gets the sum of reciprocal distances to the nodes it can reach, over n - 1: the
      number of nodes at distance k, over k, for every k. */
  method ClosenessCentrality(g: Graph) returns (result: map<Node, real>)
    requires Valid(g)
    ensures result.Keys == g.nodes
    ensures forall v | v in g.nodes :: result[v] == Harmonic(g, v)
    ensures forall v | v in g.nodes && |g.nodes| > 1 ::
              result[v] == Sum(Levels(g), LayerTerm(g, v)) / (|g.nodes| - 1) as real
  {
    hide Harmonic, Sorted, Sum, Exhausted, Valid, IsAdjacency, Levels, LayerTerm;
    var adj := Adjacency(g);
    var nodes := Sorted(g.nodes);
    result := map v | v in g.nodes :: 0.0;
    for i := 0 to |nodes|
      invariant result.Keys == g.nodes
      invariant forall k | 0 <= k < i :: result[nodes[k]] == Harmonic(g, nodes[k])
    {
      var node := nodes[i];
      var dist, order := Search(g, adj, node);
      var sum := SumReciprocals(g, node, dist, order);
      HarmonicIs(g, node, order, dist, sum);
      var raw := if |nodes| > 1 then sum / (|nodes| - 1) as real else 0.0;
      result := result[node := raw];
    }
    forall v | v in g.nodes ensures result[v] == Harmonic(g, v) {
      assert v in nodes;
    }
    forall v | v in g.nodes && |g.nodes| > 1
      ensures result[v] == Sum(Levels(g), LayerTerm(g, v)) / (|g.nodes| - 1) as real
    {
      HarmonicByLayers(g, v);
    }
  }

  lemma HarmonicIs(g: Graph, s: Node, order: seq<Node>, dist: map<Node, int>, sum: real)
    requires Valid(g) && Exhausted(g, s, order, dist) && sum == Sum(dist.Keys, Reciprocal(g, s)) && s in g.nodes
    ensures Harmonic(g, s) == if |g.nodes| > 1 then sum / (|g.nodes| - 1) as real else 0.0
  {
    hide Sum, Exhausted, Comp;
    ReachedComponent(g, s, order, dist);
    DistSelf(g, s);
    CompMember(g, {}, s, s);
    SumRemove(dist.Keys, Reciprocal(g, s), s);
  }

  // ---------------------------------------------------------------- range

  lemma TermBound(g: Graph, s: Node, t: Node)
    ensures 0.0 <= Reciprocal(g, s)(t) <= 1.0
    ensures Reciprocal(g, s)(t) == 1.0 <==> Dist(g, s, t) == 1
  {
    var d := Dist(g, s, t);
    if d > 1 {
      assert 1.0 / d as real < 1.0;
    }
  }

  lemma DistOne(g: Graph, s: Node, t: Node)
    requires Valid(g) && Conn(g, {}, s, t)
    ensures Dist(g, s, t) == 1 ==> t in Nbrs(g, s)
  {
    if Dist(g, s, t) == 1 {
      DistIs(g, s, t);
      CountStepOne(g, s, t);
    }
  }

  lemma CountStepOne(g: Graph, s: Node, t: Node)
    requires Valid(g) && Count(g, s, t, 1) > 0
    ensures t in Nbrs(g, s)
  {
    var p :| p in WalkSet(g, s, t, 1);
    WalkSetExact(g, s, t, 1, p);
    assert Adj(g, p[0], p[0 + 1]);
  }

  ghost predicate AdjacentToAll(g: Graph, s: Node) {
    forall t | t in g.nodes && t != s :: t in Nbrs(g, s)
  }

  ghost function One(): Node -> real {
    (t: Node) => 1.0
  }

  lemma HarmonicSum(g: Graph, s: Node)
    requires s in g.nodes
    ensures 0.0 <= Sum(Others(g, s), Reciprocal(g, s)) <= |Others(g, s)| as real
    ensures |Others(g, s)| <= |g.nodes| - 1
    ensures |Others(g, s)| == |g.nodes| - 1 ==> Others(g, s) == g.nodes - {s}
  {
    hide Sum, Reciprocal, Conn;
    var c := Others(g, s);
    var zero := (t: Node) => 0.0;
    assert c <= g.nodes - {s} && |g.nodes - {s}| == |g.nodes| - 1;
    SubsetSize(c, g.nodes - {s});
    SumConstant(c, 0.0, zero);
    SumConstant(c, 1.0, One());
    forall t ensures zero(t) <= Reciprocal(g, s)(t) <= One()(t) { TermBound(g, s, t); }
    SumMonotone(c, zero, Reciprocal(g, s));
    SumMonotone(c, Reciprocal(g, s), One());
  }

  /** The sum is maximal only when every term is 1. */
  lemma FullSum(g: Graph, s: Node)
    requires Valid(g) && s in g.nodes && Sum(Others(g, s), Reciprocal(g, s)) == (|g.nodes| - 1) as real
    ensures AdjacentToAll(g, s)
  {
    HarmonicSum(g, s);
    hide Sum, Reciprocal;
    var c := Others(g, s);
    SumConstant(c, 1.0, One());
    forall t | t in g.nodes && t != s ensures t in Nbrs(g, s) {
      assert t in c;
      FullTerm(g, s, t);
      CompMember(g, {}, s, t);
      DistOne(g, s, t);
    }
  }

  lemma FullTerm(g: Graph, s: Node, t: Node)
    requires t in Others(g, s) && Sum(Others(g, s), Reciprocal(g, s)) == |Others(g, s)| as real
    ensures Dist(g, s, t) == 1
  {
    hide Sum, Reciprocal, Others;
    var c := Others(g, s);
    SumConstant(c, 1.0, One());
    forall x ensures Reciprocal(g, s)(x) <= One()(x) { TermBound(g, s, x); }
    TermBound(g, s, t);
    if Reciprocal(g, s)(t) < One()(t) {
      SumStrict(c, Reciprocal(g, s), One(), t);
    }
  }

  lemma AdjacentSum(g: Graph, s: Node)
    requires Valid(g) && s in g.nodes && AdjacentToAll(g, s)
    ensures Sum(Others(g, s), Reciprocal(g, s)) == (|g.nodes| - 1) as real
  {
    hide Sum, Reciprocal, Nbrs, Valid, Dist, Conn;
    var c := Others(g, s);
    forall t | t in g.nodes && t != s ensures t in c && Reciprocal(g, s)(t) == 1.0 {
      EdgeDist(g, s, t);
      TermBound(g, s, t);
    }
    assert c == g.nodes - {s};
    hide Others;
    assert |c| == |g.nodes| - 1;
    SumConstant(c, 1.0, Reciprocal(g, s));
  }

  /** Closeness lies in [0, 1] and is 1 exactly for a node adjacent to every other node. */
  lemma HarmonicRange(g: Graph, s: Node)
    requires Valid(g) && s in g.nodes
    ensures 0.0 <= Harmonic(g, s) <= 1.0
    ensures |g.nodes| > 1 ==> (Harmonic(g, s) == 1.0 <==> AdjacentToAll(g, s))
  {
    hide Sum, AdjacentToAll, Comp;
    HarmonicSum(g, s);
    if AdjacentToAll(g, s) {
      AdjacentSum(g, s);
    } else if Sum(Others(g, s), Reciprocal(g, s)) == (|g.nodes| - 1) as real {
      FullSum(g, s);
    }
    if |g.nodes| > 1 {
      QuotientRange(Sum(Others(g, s), Reciprocal(g, s)), (|g.nodes| - 1) as real);
    }
  }

  lemma QuotientRange(x: real, y: real)
    requires 0.0 <= x <= y && y > 0.0
    ensures 0.0 <= x / y <= 1.0 && (x / y == 1.0 <==> x == y)
  {}
}
