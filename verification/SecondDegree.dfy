/** Pairs of nodes at distance exactly two: the neighbourhood expansion that counts them. */
module SecondDegree {
  import opened Sums
  import opened Graphs
  import opened Pairs
  import opened ShortestPaths
  import opened Distances
  import opened Closeness
  import opened PathTotals

  ghost predicate TwoApart(g: Graph, a: Node, b: Node) {
    Conn(g, {}, a, b) && Dist(g, a, b) == 2
  }

  /** Neighbours of neighbours, less the neighbours and the node itself. */
  function SecondRing(g: Graph, a: Node): set<Node> {
    (set n, w | n in Nbrs(g, a) && w in Nbrs(g, n) :: w) - Nbrs(g, a) - {a}
  }

  lemma RingIsTwoApart(g: Graph, a: Node, b: Node)
    requires Valid(g) && a in g.nodes && b in SecondRing(g, a)
    ensures TwoApart(g, a, b)
  {
    var n :| n in Nbrs(g, a) && b in Nbrs(g, n);
    var p := [a, n, b];
    assert Walk(g, {}, p, a, b);
    WalkSetExact(g, a, b, 2, p);
    assert Count(g, a, b, 2) > 0 by { assert p in WalkSet(g, a, b, 2); }
    hide Count, Dist;
    DistLeast(g, a, b, 2);
    DistOne(g, a, b);
    if Dist(g, a, b) == 0 {
      DistZero(g, a, b);
    }
  }

  lemma TwoApartInRing(g: Graph, a: Node, b: Node)
    requires Valid(g) && TwoApart(g, a, b)
    ensures b in SecondRing(g, a)
  {
    DistIs(g, a, b);
    var p :| p in WalkSet(g, a, b, 2);
    WalkSetExact(g, a, b, 2, p);
    assert Adj(g, p[0], p[0 + 1]) && Adj(g, p[1], p[1 + 1]);
    ConnEnds(g, {}, a, b);
    DistSelf(g, a);
    if b in Nbrs(g, a) {
      EdgeDist(g, a, b);
    }
    assert p[1] in Nbrs(g, a) && b in Nbrs(g, p[1]);
  }

  /** The ring of a node holds exactly the nodes at distance two. */
  lemma RingExact(g: Graph, a: Node, b: Node)
    requires Valid(g) && a in g.nodes
    ensures b in SecondRing(g, a) <==> TwoApart(g, a, b)
  {
    if b in SecondRing(g, a) {
      RingIsTwoApart(g, a, b);
    } else if TwoApart(g, a, b) {
      TwoApartInRing(g, a, b);
    }
  }

  /** Two actors without an edge share a neighbour exactly when they are at distance two. */
  lemma SharedNeighbour(g: Graph, a: Node, b: Node)
    requires Valid(g) && a in g.nodes && b in g.nodes && a != b
    ensures b !in Nbrs(g, a) && Nbrs(g, a) * Nbrs(g, b) != {} <==> TwoApart(g, a, b)
  {
    RingExact(g, a, b);
    hide TwoApart;
    if b !in Nbrs(g, a) && Nbrs(g, a) * Nbrs(g, b) != {} {
      var n :| n in Nbrs(g, a) * Nbrs(g, b);
      assert b in Nbrs(g, n);
    }
    if b in SecondRing(g, a) {
      var n :| n in Nbrs(g, a) && b in Nbrs(g, n);
      assert n in Nbrs(g, a) * Nbrs(g, b);
    }
  }

  // ---------------------------------------------------------------- counting

  ghost function TwoApartPairs(g: Graph): set<Edge> {
    set e | e in PairsIn(g.nodes) && TwoApart(g, e.a, e.b)
  }

  ghost function Indicator(g: Graph): (Node, Node) -> real {
    (a: Node, b: Node) => if TwoApart(g, a, b) then 1.0 else 0.0
  }

  ghost function RingSizes(g: Graph): Node -> real {
    (a: Node) => |SecondRing(g, a)| as real
  }

  /** Over all nodes the rings count every pair at distance two twice. */
  lemma RingsCountTwice(g: Graph)
    requires Valid(g)
    ensures Sum(g.nodes, RingSizes(g)) == 2.0 * |TwoApartPairs(g)| as real
  {
    hide Sum, Dist;
    var f := Indicator(g);
    forall a, b ensures f(a, b) == f(b, a) { TwoApartSymmetric(g, a, b); }
    forall a | a in g.nodes ensures f(a, a) == 0.0 { DistSelf(g, a); }
    OrderedPairsTwice(f, g.nodes);
    forall a | a in g.nodes ensures RingSizes(g)(a) == RowSums(f, g.nodes)(a) { RingRow(g, a); }
    SumCongruent(g.nodes, RingSizes(g), RowSums(f, g.nodes));
    hide TwoApart;
    SumSubset(PairsIn(g.nodes), TwoApartPairs(g), OnPair(f));
  }

  lemma TwoApartSymmetric(g: Graph, a: Node, b: Node)
    requires Valid(g)
    ensures TwoApart(g, a, b) <==> TwoApart(g, b, a)
  {
    if Conn(g, {}, a, b) {
      DistSymmetric(g, a, b);
    } else if Conn(g, {}, b, a) {
      DistSymmetric(g, b, a);
    }
  }

  lemma RingRow(g: Graph, a: Node)
    requires Valid(g) && a in g.nodes
    ensures RingSizes(g)(a) == RowSums(Indicator(g), g.nodes)(a)
  {
    hide Sum, TwoApart;
    forall b ensures b in SecondRing(g, a) <==> TwoApart(g, a, b) { RingExact(g, a, b); }
    SumSubset(g.nodes, SecondRing(g, a), Row(Indicator(g), a));
  }

  // ---------------------------------------------------------------- the loop

  /** The ring of one node, gathered neighbour by neighbour. */
  method Expand(g: Graph, adj: map<Node, set<Node>>, a: Node) returns (depth2: set<Node>)
    requires Valid(g) && IsAdjacency(g, adj)
    ensures depth2 == SecondRing(g, a)
  {
    var neighbors := Get(adj, a);
    depth2 := {};
    var rest := neighbors;
    while rest != {}
      invariant rest <= neighbors
      invariant depth2 == set n, w | n in neighbors - rest && w in Nbrs(g, n) :: w
      decreases |rest|
    {
      var nb :| nb in rest;
      depth2 := depth2 + Get(adj, nb);
      rest := rest - {nb};
    }
    depth2 := depth2 - neighbors;
    depth2 := depth2 - {a};
  }

  /** The summed ring sizes are even, and half of them is the number of unordered pairs at distance two. */
  method SecondHops(g: Graph) returns (pairs: nat, ghost total: nat)
    requires Valid(g)
    ensures total == 2 * |TwoApartPairs(g)|
    ensures pairs == |TwoApartPairs(g)|
  {
    hide Sum, TwoApartPairs, SecondRing, Valid, IsAdjacency;
    var hops := 0;
    RingsCountTwice(g);
    if |g.nodes| > 1 {
      var adj := Adjacency(g);
      var rest := g.nodes;
      ghost var done: set<Node> := {};
      SumConstant(done, 0.0, RingSizes(g));
      while rest != {}
        invariant rest <= g.nodes && done == g.nodes - rest
        invariant hops >= 0 && hops as real == Sum(done, RingSizes(g))
        decreases |rest|
      {
        var a :| a in rest;
        var depth2 := Expand(g, adj, a);
        SumInsert(done, RingSizes(g), a);
        hops := hops + |depth2|;
        rest := rest - {a};
        done := done + {a};
      }
      assert done == g.nodes;
    } else {
      FewNodes(g);
    }
    total := hops;
    pairs := hops / 2;
  }

  lemma FewNodes(g: Graph)
    requires |g.nodes| <= 1
    ensures TwoApartPairs(g) == {}
  {
    PairsInSize(g.nodes);
    var n := |g.nodes|;
    assert n * (n - 1) == 0 by {
      assert n == 0 || n == 1;
    }
    assert PairsIn(g.nodes) == {};
  }
}
