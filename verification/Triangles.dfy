/** Enumeration of the 3-cycles of the undirected graph. */
module Triangles {
  import opened Graphs
  import opened Ordering

  /** Three nodes listed in increasing order, standing for the set of the three. */
  datatype Triangle = Triangle(a: Node, b: Node, c: Node)

  ghost predicate IsTriangle(g: Graph, t: Triangle) {
    t.a < t.b < t.c && t.a in g.nodes && t.b in Nbrs(g, t.a) && t.c in Nbrs(g, t.a) && t.c in Nbrs(g, t.b)
  }

  /** Lexicographic order of the sorted members. */
  predicate Precedes(s: Triangle, t: Triangle) {
    s.a < t.a || (s.a == t.a && (s.b < t.b || (s.b == t.b && s.c <= t.c)))
  }

  predicate IsFirst(ts: set<Triangle>, t: Triangle) {
    t in ts && forall s | s in ts :: Precedes(t, s)
  }

  lemma {:induction false} FirstExists(ts: set<Triangle>)
    requires ts != {}
    ensures exists t :: IsFirst(ts, t)
  {
    var x :| x in ts;
    if ts == {x} {
      assert IsFirst(ts, x);
    } else {
      assert ts - {x} != {} by { assert ts == (ts - {x}) + {x}; }
      FirstExists(ts - {x});
      var m :| IsFirst(ts - {x}, m);
      var first := if Precedes(m, x) then m else x;
      forall s | s in ts ensures Precedes(first, s) {
        assert s == x || s in ts - {x};
      }
      assert IsFirst(ts, first);
    }
  }

  function SortedTriangles(ts: set<Triangle>): (q: seq<Triangle>)
    ensures forall t :: t in q <==> t in ts
    ensures forall i, j | 0 <= i < j < |q| :: q[i] != q[j] && Precedes(q[i], q[j])
  {
    if ts == {} then []
    else
      FirstExists(ts);
      var t :| IsFirst(ts, t);
      [t] + SortedTriangles(ts - {t})
  }

  /** Every 3-cycle on three nodes, in whatever order they are named. */
  ghost predicate Cycle(g: Graph, x: Node, y: Node, z: Node) {
    x != y && y != z && x != z && Adj(g, x, y) && Adj(g, y, z) && Adj(g, x, z)
  }

  /** The increasing listing of any 3-cycle is a triangle, and every triangle is a 3-cycle. */
  lemma TrianglesAreCycles(g: Graph, t: Triangle)
    requires Valid(g) && t.a < t.b < t.c
    ensures IsTriangle(g, t) <==> Cycle(g, t.a, t.b, t.c)
    ensures forall x, y, z | {x, y, z} == {t.a, t.b, t.c} && x != y && y != z && x != z ::
              Cycle(g, x, y, z) <==> IsTriangle(g, t)
  {
    forall x, y, z | {x, y, z} == {t.a, t.b, t.c} && x != y && y != z && x != z
      ensures Cycle(g, x, y, z) <==> IsTriangle(g, t)
    {
      assert x in {t.a, t.b, t.c} && y in {t.a, t.b, t.c} && z in {t.a, t.b, t.c};
    }
  }

  /** Triangles whose smallest member is `a` and whose middle member is in `bs`. */
  ghost predicate Found(g: Graph, done: set<Node>, a: Node, bs: set<Node>, t: Triangle) {
    IsTriangle(g, t) && (t.a in done || (t.a == a && t.b in bs))
  }

  /** The enumeration finds every 3-cycle once and nothing else, in increasing order. */
  method FindTriangles(g: Graph) returns (result: seq<Triangle>)
    requires Valid(g)
    ensures forall t :: t in result <==> IsTriangle(g, t)
    ensures forall i, j | 0 <= i < j < |result| ::
              || result[i].a < result[j].a
              || (result[i].a == result[j].a && result[i].b < result[j].b)
              || (result[i].a == result[j].a && result[i].b == result[j].b && result[i].c < result[j].c)
  {
    hide SortedTriangles, Sorted, Nbrs, IsAdjacency;
    var adj := Adjacency(g);
    var triangles: set<Triangle> := {};
    var nodes := Sorted(g.nodes);
    ghost var done: set<Node> := {};
    for i := 0 to |nodes|
      invariant forall u :: u in done <==> u in nodes[..i]
      invariant forall t :: t in triangles <==> IsTriangle(g, t) && t.a in done
    {
      triangles := From(g, adj, nodes[i], done, triangles);
      done := done + {nodes[i]};
    }
    assert nodes[..|nodes|] == nodes;
    result := SortedTriangles(triangles);
  }

  /** All triangles whose smallest member is `a`. */
  method From(g: Graph, adj: map<Node, set<Node>>, a: Node, ghost done: set<Node>, found: set<Triangle>)
    returns (triangles: set<Triangle>)
    requires Valid(g) && IsAdjacency(g, adj) && a in g.nodes
    requires forall t :: t in found <==> IsTriangle(g, t) && t.a in done
    ensures forall t :: t in triangles <==> IsTriangle(g, t) && t.a in done + {a}
  {
    hide Nbrs, IsAdjacency, Valid;
    triangles := found;
    GetNbrs(g, adj, a);
    var rest := Get(adj, a);
    ghost var seen: set<Node> := {};
    while rest != {}
      invariant rest <= Nbrs(g, a) && seen == Nbrs(g, a) - rest
      invariant forall t :: t in triangles <==> Found(g, done, a, seen, t)
      decreases |rest|
    {
      var b :| b in rest;
      if b > a {
        GetNbrs(g, adj, b);
        var shared := Get(adj, a) * Get(adj, b);
        var fresh' := set c | c in shared && c > b :: Triangle(a, b, c);
        triangles := triangles + fresh';
      }
      rest := rest - {b};
      seen := seen + {b};
    }
  }
}
