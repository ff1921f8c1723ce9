/** Conservation: total betweenness equals total distance minus one, over the joined pairs. */
module PathTotals {
  import opened Sums
  import opened Graphs
  import opened Ordering
  import opened Pairs
  import opened ShortestPaths
  import opened Distances
  import opened Betweenness

  /** A shortest path meets each of its nodes once. */
  lemma ShortestIsSimple(g: Graph, s: Node, t: Node, p: seq<Node>)
    requires Valid(g) && Conn(g, {}, s, t) && p in Shortest(g, s, t)
    ensures |p| == Dist(g, s, t) + 1 && |Elements(p)| == |p| && Elements(p) <= g.nodes
  {
    WalkSetExact(g, s, t, Dist(g, s, t), p);
    forall i, j | 0 <= i < j < |p| ensures p[i] != p[j] {
      ViaPosition(g, s, t, p[i], p, i);
      if p[i] == p[j] {
        ViaPosition(g, s, t, p[i], p, j);
      }
    }
    ElementsSize(p);
  }

  ghost function Meets(): (Node, seq<Node>) -> real {
    (v: Node, p: seq<Node>) => if v in p then 1.0 else 0.0
  }

  ghost function ViaSizes(g: Graph, s: Node, t: Node): Node -> real {
    (v: Node) => |Via(g, s, t, v)| as real
  }

  ghost function Lengths(): seq<Node> -> real {
    (p: seq<Node>) => |p| as real
  }

  lemma SumSubset<T(!new)>(s: set<T>, sub: set<T>, f: T -> real)
    requires sub <= s && forall x | x in s :: f(x) == if x in sub then 1.0 else 0.0
    ensures Sum(s, f) == |sub| as real
  {
    hide Sum;
    SumRestrict(s, sub, f, f);
    SumConstant(sub, 1.0, f);
  }

  /** Counting (node, path) incidences by node or by path. */
  lemma Incidences(g: Graph, s: Node, t: Node)
    requires Valid(g) && Conn(g, {}, s, t)
    ensures Sum(g.nodes, ViaSizes(g, s, t)) == Sum(Shortest(g, s, t), Lengths())
  {
    hide Sum, Dist;
    var ps := Shortest(g, s, t);
    forall v | v in g.nodes ensures ViaSizes(g, s, t)(v) == Sum(ps, Row(Meets(), v)) {
      SumSubset(ps, Via(g, s, t, v), Row(Meets(), v));
    }
    forall p | p in ps ensures Lengths()(p) == Sum(g.nodes, Column(Meets(), p)) {
      ShortestIsSimple(g, s, t, p);
      SumSubset(g.nodes, Elements(p), Column(Meets(), p));
    }
    SumSwap(g.nodes, ps, Meets(), ViaSizes(g, s, t), Lengths());
  }

  lemma AllLengths(g: Graph, s: Node, t: Node)
    requires Valid(g) && Conn(g, {}, s, t)
    ensures Sum(Shortest(g, s, t), Lengths()) == Times(Sigma(g, s, t) as real, (Dist(g, s, t) + 1) as real)
  {
    var ps, d := Shortest(g, s, t), (Dist(g, s, t) + 1) as real;
    assert |ps| == Sigma(g, s, t);
    hide Sum, Dist, Shortest, Sigma, Times, Valid, Conn;
    forall p | p in ps ensures Lengths()(p) == d {
      ShortestIsSimple(g, s, t, p);
    }
    SumEqual(ps, d, Lengths());
  }

  lemma ShareTotal(g: Graph, s: Node, t: Node)
    requires Valid(g) && Conn(g, {}, s, t)
    ensures Sum(g.nodes, SharesOf(g, s, t)) == (Dist(g, s, t) + 1) as real
  {
    DistIs(g, s, t);
    var c := Sigma(g, s, t) as real;
    hide Sum, Dist, Sigma, Times, Shortest;
    Incidences(g, s, t);
    AllLengths(g, s, t);
    forall v | v in g.nodes ensures ViaSizes(g, s, t)(v) == Times(c, SharesOf(g, s, t)(v)) {
      ShareTimes(g, s, t, v);
    }
    SumTimes(g.nodes, c, SharesOf(g, s, t), ViaSizes(g, s, t));
    CancelLeft(c, Sum(g.nodes, SharesOf(g, s, t)), (Dist(g, s, t) + 1) as real);
  }

  ghost function SharesOf(g: Graph, s: Node, t: Node): Node -> real {
    (v: Node) => Share(g, s, t, v)
  }

  lemma ShareTimes(g: Graph, s: Node, t: Node, v: Node)
    requires Conn(g, {}, s, t) && Sigma(g, s, t) > 0
    ensures |Via(g, s, t, v)| as real == Times(Sigma(g, s, t) as real, Share(g, s, t, v))
  {}

  lemma CancelLeft(c: real, x: real, y: real)
    requires c > 0.0 && Times(c, x) == Times(c, y)
    ensures x == y
  {}

  /** The inner nodes of a joined pair share its distance less one. */
  lemma InnerTotal(g: Graph, s: Node, t: Node)
    requires Valid(g) && Conn(g, {}, s, t) && s != t
    ensures Sum(g.nodes - {s, t}, SharesOf(g, s, t)) == Dist(g, s, t) as real - 1.0
  {
    hide Sum, Dist, Share;
    ShareTotal(g, s, t);
    ShareEnds(g, s, t);
    ConnEnds(g, {}, s, t);
    SumRemove(g.nodes, SharesOf(g, s, t), s);
    SumRemove(g.nodes - {s}, SharesOf(g, s, t), t);
    assert g.nodes - {s} - {t} == g.nodes - {s, t};
  }

  /** The share of `v` for the pair `e`, 0 when `v` is one of its ends. */
  ghost function Inner(g: Graph): (Node, Edge) -> real {
    (v: Node, e: Edge) => if v == e.a || v == e.b then 0.0 else Share(g, e.a, e.b, v)
  }

  ghost function Scores(g: Graph): Node -> real {
    (v: Node) => Betweenness.Betweenness(g, v)
  }

  /** Distance less one for a joined pair, 0 for any other. */
  ghost function Detours(g: Graph): Edge -> real {
    (e: Edge) => if Conn(g, {}, e.a, e.b) then Dist(g, e.a, e.b) as real - 1.0 else 0.0
  }

  lemma ScoreAsColumn(g: Graph, v: Node)
    requires v in g.nodes
    ensures Scores(g)(v) == Sum(PairsIn(g.nodes), Row(Inner(g), v))
  {
    hide Sum, Share;
    SumRestrict(PairsIn(g.nodes), PairsIn(g.nodes - {v}), Row(Inner(g), v), OnPair(Shares(g, v)));
  }

  lemma PairAsRow(g: Graph, e: Edge)
    requires Valid(g) && e in PairsIn(g.nodes)
    ensures Detours(g)(e) == Sum(g.nodes, Column(Inner(g), e))
  {
    hide Sum, Share, Dist;
    var rest := g.nodes - {e.a, e.b};
    SumRestrict(g.nodes, rest, Column(Inner(g), e), SharesOf(g, e.a, e.b));
    if Conn(g, {}, e.a, e.b) {
      InnerTotal(g, e.a, e.b);
    } else {
      forall v | v in rest ensures SharesOf(g, e.a, e.b)(v) == 0.0 {
        NoShare(g, e.a, e.b, v);
      }
      SumConstant(rest, 0.0, SharesOf(g, e.a, e.b));
    }
  }

  /** Total betweenness over all nodes is the sum of (distance - 1) over the joined pairs. */
  lemma TotalBetweenness(g: Graph)
    requires Valid(g)
    ensures Sum(g.nodes, Scores(g)) == Sum(PairsIn(g.nodes), Detours(g))
  {
    hide Sum, Share, Dist, PairsIn;
    forall v | v in g.nodes ensures Scores(g)(v) == Sum(PairsIn(g.nodes), Row(Inner(g), v)) {
      ScoreAsColumn(g, v);
    }
    forall e | e in PairsIn(g.nodes) ensures Detours(g)(e) == Sum(g.nodes, Column(Inner(g), e)) {
      PairAsRow(g, e);
    }
    SumSwap(g.nodes, PairsIn(g.nodes), Inner(g), Scores(g), Detours(g));
  }
}
