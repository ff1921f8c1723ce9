/** The bridge score of a node: the share of node pairs that its removal leaves in different
    components. */
module BridgeScore {
  import opened Graphs
  import opened Pairs
  import opened Components
  import opened CutVertices
  import opened Articulation

  /** Pairs of other nodes with no walk between them once `v` is gone. */
  ghost function Separated(g: Graph, v: Node): set<Edge> {
    set e | e in PairsIn(g.nodes - {v}) && !Conn(g, {v}, e.a, e.b)
  }

  // ---------------------------------------------------------------- counting over the parts

  function SizeSum(parts: seq<set<Node>>): nat {
    if parts == [] then 0 else |parts[0]| + SizeSum(parts[1..])
  }

  ghost function PairTotal(parts: seq<set<Node>>): nat {
    if parts == [] then 0 else |parts[0]| * SizeSum(parts[1..]) + PairTotal(parts[1..])
  }

  /** Pairs whose ends lie in different parts. */
  ghost function Cross(parts: seq<set<Node>>): set<Edge> {
    if parts == [] then {} else Across(parts[0], Union(parts[1..])) + Cross(parts[1..])
  }

  lemma {:induction false} UnionSize(parts: seq<set<Node>>)
    requires forall i, j :: ApartAt(parts, i, j)
    ensures |Union(parts)| == SizeSum(parts)
  {
    if parts != [] {
      FirstApart(parts);
      UnionSize(parts[1..]);
    }
  }

  lemma {:induction false} CrossInside(parts: seq<set<Node>>, e: Edge)
    requires e in Cross(parts)
    ensures e.a in Union(parts) && e.b in Union(parts) && e.a < e.b
  {
    if e in Cross(parts[1..]) {
      CrossInside(parts[1..], e);
    }
  }

  lemma {:induction false} CrossSize(parts: seq<set<Node>>)
    requires forall i, j :: ApartAt(parts, i, j)
    ensures |Cross(parts)| == PairTotal(parts)
  {
    if parts != [] {
      var first, rest := parts[0], Union(parts[1..]);
      FirstApart(parts);
      CrossSize(parts[1..]);
      UnionSize(parts[1..]);
      AcrossSize(first, rest);
      forall e | e in Across(first, rest) ensures e !in Cross(parts[1..]) {
        if e in Cross(parts[1..]) {
          CrossInside(parts[1..], e);
        }
      }
    }
  }

  ghost predicate Apart(parts: seq<set<Node>>, i: int, j: int, e: Edge) {
    i != j && Holds(parts, i, e.a) && Holds(parts, j, e.b)
  }

  lemma {:induction false} CrossMember(parts: seq<set<Node>>, e: Edge)
    requires (forall i, j :: ApartAt(parts, i, j)) && e.a < e.b
    ensures e in Cross(parts) <==> exists i, j :: Apart(parts, i, j, e)
  {
    if parts != [] {
      var first, tail := parts[0], parts[1..];
      FirstApart(parts);
      CrossMember(tail, e);
      UnionMember(tail, e.a);
      UnionMember(tail, e.b);
      if i, j :| Apart(parts, i, j, e) {
        CrossSplit(parts, i, j, e);
      }
      if e in Cross(tail) {
        var i, j :| Apart(tail, i, j, e);
        assert Apart(parts, i + 1, j + 1, e);
      } else if e in Across(first, Union(tail)) {
        AcrossIsApart(parts, e);
      }
    }
  }

  lemma CrossSplit(parts: seq<set<Node>>, i: int, j: int, e: Edge)
    requires parts != [] && e.a < e.b && Apart(parts, i, j, e)
    ensures (exists k, l :: Apart(parts[1..], k, l, e)) || e in Across(parts[0], Union(parts[1..]))
  {
    var tail := parts[1..];
    if i == 0 {
      assert Holds(tail, j - 1, e.b);
      UnionMember(tail, e.b);
      assert e == Key(e.a, e.b);
    } else if j == 0 {
      assert Holds(tail, i - 1, e.a);
      UnionMember(tail, e.a);
      assert e == Key(e.b, e.a);
    } else {
      assert Apart(tail, i - 1, j - 1, e);
    }
  }

  lemma AcrossIsApart(parts: seq<set<Node>>, e: Edge)
    requires parts != [] && e.a < e.b && e in Across(parts[0], Union(parts[1..]))
    ensures exists i, j :: Apart(parts, i, j, e)
  {
    var tail := parts[1..];
    var a, b :| a in parts[0] && b in Union(tail) && a != b && e == Key(a, b);
    UnionMember(tail, b);
    var k :| Holds(tail, k, b);
    if a < b {
      assert Apart(parts, 0, k + 1, e);
    } else {
      assert Apart(parts, k + 1, 0, e);
    }
  }

  /** Cross pairs of the components left by `v` are exactly the separated pairs. */
  lemma CrossIsSeparated(g: Graph, v: Node, parts: seq<set<Node>>)
    requires PartsOf(g, {v}, parts, g.nodes - {v})
    ensures Cross(parts) == Separated(g, v)
  {
    forall e ensures e in Cross(parts) <==> e in Separated(g, v) {
      if e in Cross(parts) {
        CrossInside(parts, e);
        CrossIsApart(g, v, parts, e);
      } else if e in Separated(g, v) {
        SeparatedIsCross(g, v, parts, e);
      }
    }
  }

  lemma CrossIsApart(g: Graph, v: Node, parts: seq<set<Node>>, e: Edge)
    requires PartsOf(g, {v}, parts, g.nodes - {v}) && e in Cross(parts) && e.a < e.b
    ensures e in Separated(g, v)
  {
    hide Cross, Comp;
    CrossMember(parts, e);
    var i, j :| Apart(parts, i, j, e);
    assert MemberAt(g, {v}, parts, g.nodes - {v}, i, e.a) && MemberAt(g, {v}, parts, g.nodes - {v}, j, e.b);
    assert ApartAt(parts, i, j) && ApartAt(parts, j, i);
    CompMember(g, {v}, e.a, e.b);
  }

  lemma SeparatedIsCross(g: Graph, v: Node, parts: seq<set<Node>>, e: Edge)
    requires PartsOf(g, {v}, parts, g.nodes - {v}) && e in Separated(g, v)
    ensures e in Cross(parts)
  {
    hide Cross, Comp;
    assert CoveredAt(parts, g.nodes - {v}, e.a) && CoveredAt(parts, g.nodes - {v}, e.b);
    var i :| Holds(parts, i, e.a);
    var j :| Holds(parts, j, e.b);
    assert MemberAt(g, {v}, parts, g.nodes - {v}, i, e.a);
    CompMember(g, {v}, e.a, e.b);
    assert Apart(parts, i, j, e);
    CrossMember(parts, e);
  }

  // ---------------------------------------------------------------- the algorithm

  method CountAcross(parts: seq<set<Node>>) returns (pairs: nat)
    ensures pairs == PairTotal(parts)
  {
    pairs := 0;
    for i := 0 to |parts|
      invariant pairs + PairTotal(parts[i..]) == PairTotal(parts)
    {
      assert parts[i..][1..] == parts[i + 1..];
      pairs := pairs + |parts[i]| * SizeSum(parts[i + 1..]);
    }
  }

  /** Number of node pairs, `n * (n - 1) // 2`. */
  function TotalPairs(g: Graph): nat {
    var n := |g.nodes|;
    if n == 0 then 0 else n * (n - 1) / 2
  }

  ghost function Score(g: Graph, v: Node): real {
    if TotalPairs(g) == 0 then 0.0 else |Separated(g, v)| as real / TotalPairs(g) as real
  }

  function Without(adj: map<Node, set<Node>>, v: Node): map<Node, set<Node>> {
    map u | u in adj && u != v :: adj[u] - {v}
  }

  lemma WithoutIsAdjacency(g: Graph, adj: map<Node, set<Node>>, v: Node)
    requires IsAdjacency(g, adj)
    ensures IsAdjacencyWithout(g, {v}, Without(adj, v))
  {
    forall u | u != v ensures Get(Without(adj, v), u) == Nbrs(g, u) - {v} {
      GetNbrs(g, adj, u);
    }
  }

  /** A cut vertex scores the share of pairs it separates, every other node scores zero. */
  method ComputeBridgeScore(g: Graph) returns (score: map<Node, real>)
    requires Valid(g)
    ensures score.Keys == g.nodes
    ensures forall v | v in g.nodes :: score[v] == if IsCut(g, v) then Score(g, v) else 0.0
    ensures forall v | v in g.nodes ::
              score[v] * |PairsIn(g.nodes)| as real == if IsCut(g, v) then |Separated(g, v)| as real else 0.0
  {
    hide Valid, PairsIn, IsCut, Separated, PartsOf, PairTotal, Score, TotalPairs, IsAdjacency;
    var cuts, _ := ArticulationPoints(g);
    forall v | v in cuts ensures |g.nodes| > 1 {
      CutNeedsThree(g, v);
    }
    if cuts == {} || |g.nodes| <= 1 {
      score := map v | v in g.nodes :: 0.0;
    } else {
      var adj := Adjacency(g);
      var total := TotalPairs(g);
      var found: map<Node, real> := map[];
      var rest := cuts;
      while rest != {}
        invariant rest <= cuts && found.Keys == cuts - rest
        invariant forall v | v in found :: found[v] == Score(g, v)
        decreases |rest|
      {
        var cut :| cut in rest;
        WithoutIsAdjacency(g, adj, cut);
        var parts := Parts(g, {cut}, Without(adj, cut));
        var pairs := CountAcross(parts);
        PairsAreSeparated(g, cut, parts);
        found := found[cut := if total != 0 then pairs as real / total as real else 0.0];
        rest := rest - {cut};
      }
      score := map v | v in g.nodes :: if v in found then found[v] else 0.0;
    }
    SharesOfPairs(g, score);
  }

  /** What the products over the parts count at a node. */
  lemma PairsAreSeparated(g: Graph, v: Node, parts: seq<set<Node>>)
    requires PartsOf(g, {v}, parts, g.nodes - {v})
    ensures PairTotal(parts) == |Separated(g, v)|
    ensures Score(g, v) == if TotalPairs(g) != 0 then PairTotal(parts) as real / TotalPairs(g) as real else 0.0
  {
    hide PartsOf, PairTotal, Cross, Separated, TotalPairs;
    CrossIsSeparated(g, v, parts);
    assert forall i, j :: ApartAt(parts, i, j) by { PartsApart(g, {v}, parts, g.nodes - {v}); }
    CrossSize(parts);
  }

  lemma SharesOfPairs(g: Graph, score: map<Node, real>)
    requires score.Keys == g.nodes && forall v | v in g.nodes :: score[v] == if IsCut(g, v) then Score(g, v) else 0.0
    ensures forall v | v in g.nodes ::
              score[v] * |PairsIn(g.nodes)| as real == if IsCut(g, v) then |Separated(g, v)| as real else 0.0
  {
    hide IsCut, Separated, PairsIn, Score;
    forall v | v in g.nodes
      ensures score[v] * |PairsIn(g.nodes)| as real == if IsCut(g, v) then |Separated(g, v)| as real else 0.0
    {
      if IsCut(g, v) {
        ScoreTimesPairs(g, v);
      } else {
        NothingTimes(|PairsIn(g.nodes)| as real);
      }
    }
  }

  lemma NothingTimes(x: real)
    ensures 0.0 * x == 0.0
  {}

  /** The denominator is the number of unordered pairs of nodes. */
  lemma TotalPairsCounts(g: Graph)
    ensures TotalPairs(g) == |PairsIn(g.nodes)|
  {
    var n := |g.nodes|;
    PairsInSize(g.nodes);
    if n == 0 {
      assert PairsIn(g.nodes) == {};
    }
  }

  lemma ScoreTimesPairs(g: Graph, v: Node)
    requires IsCut(g, v)
    ensures Score(g, v) * |PairsIn(g.nodes)| as real == |Separated(g, v)| as real
  {
    CutNeedsThree(g, v);
    SeparatedBound(g, v);
    TotalPairsCounts(g);
    hide TotalPairs, Separated, PairsIn;
    Undivide(|Separated(g, v)| as real, TotalPairs(g) as real);
  }

  lemma Undivide(x: real, t: real)
    requires t > 0.0
    ensures x / t * t == x
  {}

  lemma PartsApart(g: Graph, banned: set<Node>, parts: seq<set<Node>>, covered: set<Node>)
    requires PartsOf(g, banned, parts, covered)
    ensures forall i, j :: ApartAt(parts, i, j)
  {}

  // ---------------------------------------------------------------- what the score means

  lemma CutNeedsThree(g: Graph, v: Node)
    requires IsCut(g, v)
    ensures v in g.nodes && |g.nodes| >= 3 && Separated(g, v) != {}
  {
    var a, b :| Separates(g, v, a, b);
    ConnEnds(g, {}, v, a);
    ConnEnds(g, {}, v, b);
    if a == b {
      ConnRefl(g, {v}, a);
    }
    assert |{a, b, v}| == 3;
    SubsetSize({a, b, v}, g.nodes);
    if a > b && Conn(g, {v}, b, a) {
      ConnSym(g, {v}, b, a);
    }
    assert Key(a, b) in Separated(g, v);
  }

  /** The separated pairs avoid `v`, so they are fewer than all pairs. */
  lemma SeparatedBound(g: Graph, v: Node)
    requires v in g.nodes && |g.nodes| >= 2
    ensures |Separated(g, v)| < TotalPairs(g)
  {
    var n := |g.nodes|;
    assert |g.nodes - {v}| == n - 1;
    PairsInSize(g.nodes - {v});
    SubsetSize(Separated(g, v), PairsIn(g.nodes - {v}));
    assert (n - 1) * (n - 2) == n * (n - 1) - 2 * (n - 1);
    PairsInSize(g.nodes);
  }

  /** Over the reported scores: below one, and positive exactly on the articulation points. */
  lemma ScoreRange(g: Graph, v: Node)
    requires v in g.nodes
    ensures var reported := if IsCut(g, v) then Score(g, v) else 0.0;
            0.0 <= reported < 1.0 && (reported > 0.0 <==> IsCut(g, v))
  {
    if IsCut(g, v) {
      CutNeedsThree(g, v);
      SeparatedBound(g, v);
      var k, t := |Separated(g, v)|, TotalPairs(g);
      assert 0 < k < t by {
        assert k == 0 ==> Separated(g, v) == {};
      }
      Fraction(k, t);
    }
  }

  lemma Fraction(k: nat, t: nat)
    requires 0 < k < t
    ensures 0.0 < k as real / t as real < 1.0
  {}

  /** All walks between the ends of `e` meet `v`, and there is at least one. */
  ghost predicate OnlyThrough(g: Graph, v: Node, e: Edge) {
    Conn(g, {}, e.a, e.b) && forall p | Walk(g, {}, p, e.a, e.b) :: v in p
  }

  /** The pairs the documentation speaks of: joined, but only through `v`. */
  ghost function Documented(g: Graph, v: Node): set<Edge> {
    set e | e in PairsIn(g.nodes - {v}) && OnlyThrough(g, v, e)
  }

  lemma OnlyThroughIffSeparated(g: Graph, v: Node, e: Edge)
    ensures OnlyThrough(g, v, e) <==> Conn(g, {}, e.a, e.b) && !Conn(g, {v}, e.a, e.b)
  {
    if p :| Walk(g, {}, p, e.a, e.b) && v !in p {
      assert Walk(g, {v}, p, e.a, e.b);
    }
    if p :| Walk(g, {v}, p, e.a, e.b) {
      assert Walk(g, {}, p, e.a, e.b);
    }
  }

  ghost predicate Connected(g: Graph) {
    forall a, b | a in g.nodes && b in g.nodes :: Conn(g, {}, a, b)
  }

  lemma ConnectedAgrees(g: Graph, v: Node)
    requires Connected(g)
    ensures Separated(g, v) == Documented(g, v)
  {
    forall e | e in PairsIn(g.nodes - {v}) ensures e in Separated(g, v) <==> e in Documented(g, v) {
      OnlyThroughIffSeparated(g, v, e);
    }
  }

  /** The score of a cut vertex counts the documented pairs exactly when the graph is connected;
      otherwise it also counts pairs that no walk ever joined. */
  lemma CountsDocumentedIffConnected(g: Graph, v: Node)
    requires IsCut(g, v)
    ensures |Separated(g, v)| == |Documented(g, v)| <==> Connected(g)
  {
    if Connected(g) {
      ConnectedAgrees(g, v);
    } else {
      var e := StrayPair(g, v);
      forall f | f in Documented(g, v) ensures f in Separated(g, v) {
        OnlyThroughIffSeparated(g, v, f);
      }
      SubsetSize(Documented(g, v), Separated(g, v));
    }
  }

  /** Away from the cut vertices there is nothing to document: whatever a walk joins stays joined. */
  lemma NothingDocumented(g: Graph, v: Node)
    requires v in g.nodes && !IsCut(g, v)
    ensures Documented(g, v) == {}
  {
    forall e | e in PairsIn(g.nodes - {v}) ensures !OnlyThrough(g, v, e) {
      OnlyThroughIffSeparated(g, v, e);
      if OnlyThrough(g, v, e) {
        var p :| Walk(g, {}, p, e.a, e.b);
        assert v in p;
        MeetsMate(g, p, e.a, e.b, v);
        assert Separates(g, v, e.a, e.b);
      }
    }
  }

  /** A walk through `v` makes its ends mates of `v`. */
  lemma MeetsMate(g: Graph, p: seq<Node>, a: Node, b: Node, v: Node)
    requires Walk(g, {}, p, a, b) && v in p
    ensures Conn(g, {}, v, a) && Conn(g, {}, v, b)
  {
    var i :| 0 <= i < |p| && p[i] == v;
    assert Walk(g, {}, p[..i + 1], a, v);
    assert Walk(g, {}, p[i..], v, b);
    ConnSym(g, {}, a, v);
  }

  /** The pairs that the score of `v` counts: the separated ones at a cut vertex, none elsewhere. */
  ghost function Counted(g: Graph, v: Node): set<Edge> {
    if IsCut(g, v) then Separated(g, v) else {}
  }

  /** The score and its documentation disagree exactly at the cut vertices of disconnected graphs. */
  lemma DisagreesIffDisconnectedCut(g: Graph, v: Node)
    requires v in g.nodes
    ensures |Counted(g, v)| != |Documented(g, v)| <==> IsCut(g, v) && !Connected(g)
  {
    if IsCut(g, v) {
      CountsDocumentedIffConnected(g, v);
    } else {
      NothingDocumented(g, v);
    }
  }

  /** In a disconnected graph a mate of `v` and a node of another component form a pair that is
      counted without being documented. */
  lemma StrayPair(g: Graph, v: Node) returns (e: Edge)
    requires IsCut(g, v) && !Connected(g)
    ensures e in Separated(g, v) && e !in Documented(g, v)
  {
    var a, b :| Separates(g, v, a, b);
    ConnEnds(g, {}, v, a);
    var z := FarNode(g, v);
    if Conn(g, {}, a, z) {
      ConnTrans(g, {}, v, a, z);
    }
    if Conn(g, {}, z, a) {
      ConnSym(g, {}, z, a);
    }
    assert a != z && z != v by {
      ConnRefl(g, {}, v);
    }
    e := Key(a, z);
    if Conn(g, {v}, e.a, e.b) {
      ConnMonotone(g, {}, {v}, e.a, e.b);
    }
  }

  lemma FarNode(g: Graph, v: Node) returns (z: Node)
    requires !Connected(g) && v in g.nodes
    ensures z in g.nodes && !Conn(g, {}, v, z)
  {
    var x, y :| x in g.nodes && y in g.nodes && !Conn(g, {}, x, y);
    if Conn(g, {}, v, x) && Conn(g, {}, v, y) {
      ConnSym(g, {}, v, x);
      ConnTrans(g, {}, x, v, y);
    }
    z := if Conn(g, {}, v, x) then y else x;
  }

  /** The smallest case: on the path 0-1-2 beside the isolated node 3, the pair (0, 3) counts
      towards the score of 1 although no walk joins it. */
  lemma IsolatedNodeCounted()
    ensures var g := Graph({0, 1, 2, 3}, {Edge(0, 1), Edge(1, 2)}, []);
            Valid(g) && IsCut(g, 1) && Edge(0, 3) in Separated(g, 1) && Edge(0, 3) !in Documented(g, 1)
  {
    var g := Graph({0, 1, 2, 3}, {Edge(0, 1), Edge(1, 2)}, []);
    ConnEdge(g, {}, 1, 0);
    ConnEdge(g, {}, 1, 2);
    if Conn(g, {1}, 0, 2) {
      ConnClosed(g, {1}, {0}, 0, 2);
    }
    assert Separates(g, 1, 0, 2);
    if Conn(g, {}, 0, 3) {
      ConnClosed(g, {}, {0, 1, 2}, 0, 3);
    }
    if Conn(g, {1}, 0, 3) {
      ConnMonotone(g, {}, {1}, 0, 3);
    }
  }
}
