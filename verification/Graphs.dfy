/** The simple undirected graph and directed multigraph of a case, walks that avoid a set of
    nodes, and the degree totals every edge-counting argument rests on. */
module Graphs {
  import opened Sums

  /** Node ids; only their total order matters. */
  type Node = nat

  datatype Edge = Edge(a: Node, b: Node)

  datatype Arc = Arc(src: Node, dst: Node, rel: string)

  datatype Graph = Graph(nodes: set<Node>, edges: set<Edge>, directed: seq<Arc>)

  /** What `BuildGraph` yields when every relationship endpoint is one of the nodes. */
  ghost predicate Valid(g: Graph) {
    && (forall e | e in g.edges :: e.a < e.b && e.a in g.nodes && e.b in g.nodes)
    && (forall r | r in g.directed :: r.src != r.dst && r.src in g.nodes && r.dst in g.nodes)
  }

  function Key(u: Node, w: Node): Edge {
    if u < w then Edge(u, w) else Edge(w, u)
  }

  predicate Adj(g: Graph, u: Node, w: Node) {
    Edge(u, w) in g.edges || Edge(w, u) in g.edges
  }

  function Nbrs(g: Graph, u: Node): set<Node> {
    set w | w in g.nodes && Adj(g, u, w)
  }

  // ---------------------------------------------------------------- construction

  /** Relationships that are not self-loops. */
  function Loopless(rels: seq<Arc>): (r: seq<Arc>)
    ensures forall x :: x in r <==> x in rels && x.src != x.dst
  {
    if rels == [] then []
    else
      var rest := Loopless(rels[..|rels| - 1]);
      var last := rels[|rels| - 1];
      if last.src == last.dst then rest else rest + [last]
  }

  /** `at` lists the positions below `i` that are no self-loops, `arcs` what stands there. */
  ghost predicate Selected(rels: seq<Arc>, i: int, arcs: seq<Arc>, at: seq<int>) {
    && 0 <= i <= |rels| && |at| == |arcs|
    && (forall k | 0 <= k < |at| :: 0 <= at[k] < i && arcs[k] == rels[at[k]])
    && (forall j, k | 0 <= j < k < |at| :: at[j] < at[k])
    && (forall k | 0 <= k < i :: rels[k].src != rels[k].dst <==> k in at)
  }

  lemma SelectedStart(rels: seq<Arc>)
    ensures Selected(rels, 0, [], [])
  {}

  lemma SelectedStep(rels: seq<Arc>, i: int, arcs: seq<Arc>, at: seq<int>)
    requires Selected(rels, i, arcs, at) && i < |rels|
    ensures if rels[i].src != rels[i].dst then Selected(rels, i + 1, arcs + [rels[i]], at + [i])
            else Selected(rels, i + 1, arcs, at)
  {
    assert i !in at;
  }

  lemma SelectedEnd(rels: seq<Arc>, arcs: seq<Arc>, at: seq<int>)
    requires Selected(rels, |rels|, arcs, at)
    ensures |at| == |arcs| && forall k | 0 <= k < |at| :: 0 <= at[k] < |rels| && arcs[k] == rels[at[k]]
    ensures forall j, k | 0 <= j < k < |at| :: at[j] < at[k]
    ensures forall i | 0 <= i < |rels| :: rels[i].src != rels[i].dst <==> i in at
  {}

  /** `at` holds the positions of the relationships that become arcs: all but the self-loops, in order. */
  method BuildGraph(nodes: set<Node>, rels: seq<Arc>) returns (g: Graph, ghost at: seq<int>)
    ensures g.nodes == nodes && g.directed == Loopless(rels)
    ensures |at| == |g.directed| && forall k | 0 <= k < |at| :: 0 <= at[k] < |rels| && g.directed[k] == rels[at[k]]
    ensures forall j, k | 0 <= j < k < |at| :: at[j] < at[k]
    ensures forall i | 0 <= i < |rels| :: rels[i].src != rels[i].dst <==> i in at
    ensures forall u, w :: Adj(g, u, w) <==>
                           u != w && exists r :: r in rels && ((r.src == u && r.dst == w) || (r.src == w && r.dst == u))
    ensures forall e | e in g.edges :: e.a < e.b
    ensures Valid(g) <==> forall r | r in rels && r.src != r.dst :: r.src in nodes && r.dst in nodes
  {
    hide Selected, Keyed, Loopless, Valid, Adj;
    var edges: set<Edge> := {};
    var directed: seq<Arc> := [];
    at := [];
    SelectedStart(rels);
    KeyedStart();
    LooplessStep(rels, 0);
    for i := 0 to |rels|
      invariant directed == Loopless(rels[..i])
      invariant Keyed(directed, edges) && Selected(rels, i, directed, at)
    {
      SelectedStep(rels, i, directed, at);
      LooplessStep(rels, i);
      if rels[i].src != rels[i].dst {
        KeyedStep(directed, edges, rels[i]);
        directed := directed + [rels[i]];
        edges := edges + {Key(rels[i].src, rels[i].dst)};
        at := at + [i];
      }
    }
    assert rels[..|rels|] == rels;
    g := Graph(nodes, edges, directed);
    SelectedEnd(rels, directed, at);
    Built(nodes, rels, g);
  }

  lemma LooplessStep(rels: seq<Arc>, i: nat)
    requires i <= |rels|
    ensures Loopless(rels[..0]) == []
    ensures i < |rels| ==> Loopless(rels[..i + 1]) ==
                           if rels[i].src != rels[i].dst then Loopless(rels[..i]) + [rels[i]] else Loopless(rels[..i])
  {
    if i < |rels| {
      assert rels[..i + 1][..i] == rels[..i];
    }
  }

  /** The edges are the arcs without their direction. */
  ghost predicate Keyed(arcs: seq<Arc>, edges: set<Edge>) {
    && (forall e | e in edges :: exists r :: r in arcs && e == Key(r.src, r.dst))
    && (forall r | r in arcs :: Key(r.src, r.dst) in edges)
  }

  lemma KeyedStart()
    ensures Keyed([], {})
  {}

  lemma KeyedStep(arcs: seq<Arc>, edges: set<Edge>, r: Arc)
    requires Keyed(arcs, edges)
    ensures Keyed(arcs + [r], edges + {Key(r.src, r.dst)})
  {
    hide Key;
    var more := arcs + [r];
    forall e | e in edges + {Key(r.src, r.dst)} ensures exists q :: q in more && e == Key(q.src, q.dst) {
      if e in edges {
        var q :| q in arcs && e == Key(q.src, q.dst);
        assert q in more;
      } else {
        assert r in more;
      }
    }
  }

  lemma Built(nodes: set<Node>, rels: seq<Arc>, g: Graph)
    requires g.nodes == nodes && g.directed == Loopless(rels) && Keyed(g.directed, g.edges)
    ensures forall u, w :: Adj(g, u, w) <==>
                           u != w && exists r :: r in rels && ((r.src == u && r.dst == w) || (r.src == w && r.dst == u))
    ensures forall e | e in g.edges :: e.a < e.b
    ensures Valid(g) <==> forall r | r in rels && r.src != r.dst :: r.src in nodes && r.dst in nodes
  {
    hide Loopless;
    forall u, w
      ensures Adj(g, u, w) <==>
              u != w && exists r :: r in rels && ((r.src == u && r.dst == w) || (r.src == w && r.dst == u))
    {
      if u != w && exists r :: r in rels && ((r.src == u && r.dst == w) || (r.src == w && r.dst == u)) {
        var r :| r in rels && ((r.src == u && r.dst == w) || (r.src == w && r.dst == u));
        assert r in g.directed;
      }
    }
    if Valid(g) {
      forall r | r in rels && r.src != r.dst ensures r.src in nodes && r.dst in nodes {
        assert r in g.directed;
      }
    }
  }

  /** The neighbour set stored for `u`; a node without edges has no entry. */
  function Get(adj: map<Node, set<Node>>, u: Node): set<Node> {
    if u in adj then adj[u] else {}
  }

  ghost predicate IsAdjacency(g: Graph, adj: map<Node, set<Node>>) {
    forall u :: Get(adj, u) == Nbrs(g, u) && (u in adj <==> Nbrs(g, u) != {})
  }

  lemma GetNbrs(g: Graph, adj: map<Node, set<Node>>, u: Node)
    requires IsAdjacency(g, adj)
    ensures Get(adj, u) == Nbrs(g, u) && (u in adj <==> Nbrs(g, u) != {})
  {}

  /** Registering `e` from both ends turns the adjacency of `g` into that of `g` plus `e`. */
  lemma AdjacencyAddEdge(g: Graph, e: Edge, adj: map<Node, set<Node>>, half: map<Node, set<Node>>,
                         full: map<Node, set<Node>>)
    requires e.a < e.b && e.a in g.nodes && e.b in g.nodes && IsAdjacency(g, adj)
    requires half == adj[e.a := Get(adj, e.a) + {e.b}] && full == half[e.b := Get(half, e.b) + {e.a}]
    ensures IsAdjacency(g.(edges := g.edges + {e}), full)
  {
    NbrsAddEdge(g, e);
    hide Nbrs;
    var h := g.(edges := g.edges + {e});
    forall u ensures Get(full, u) == Nbrs(h, u) && (u in full <==> Nbrs(h, u) != {}) {
      assert Get(adj, u) == Nbrs(g, u) && (u in adj <==> Nbrs(g, u) != {});
      assert Nbrs(h, u) ==
             Nbrs(g, u) + (if u == e.a then {e.b} else {}) + (if u == e.b then {e.a} else {});
      if u == e.a {
        assert e.b in Nbrs(h, u);
      } else if u == e.b {
        assert e.a in Nbrs(h, u);
      }
    }
  }

  lemma AdjacencyEmpty(g: Graph)
    requires g.edges == {}
    ensures IsAdjacency(g, map[])
  {
    forall u ensures Nbrs(g, u) == {} {}
  }

  method Adjacency(g: Graph) returns (adj: map<Node, set<Node>>)
    requires Valid(g)
    ensures IsAdjacency(g, adj)
  {
    hide IsAdjacency, Nbrs;
    adj := map[];
    var rest := g.edges;
    ghost var h := g.(edges := {});
    AdjacencyEmpty(h);
    while rest != {}
      invariant rest <= g.edges && h == g.(edges := g.edges - rest)
      invariant IsAdjacency(h, adj)
      decreases |rest|
    {
      var e :| e in rest;
      rest := rest - {e};
      var half := adj[e.a := Get(adj, e.a) + {e.b}];
      var full := half[e.b := Get(half, e.b) + {e.a}];
      AdjacencyAddEdge(h, e, adj, half, full);
      adj := full;
      h := h.(edges := h.edges + {e});
      assert h.edges == g.edges - rest;
    }
    assert h.edges == g.edges;
  }

  lemma NbrsAddEdge(g: Graph, e: Edge)
    requires e.a < e.b && e.a in g.nodes && e.b in g.nodes
    ensures forall u :: Nbrs(g.(edges := g.edges + {e}), u) ==
                        Nbrs(g, u) + (if u == e.a then {e.b} else {}) + (if u == e.b then {e.a} else {})
  {
    var h := g.(edges := g.edges + {e});
    forall u, w ensures Adj(h, u, w) <==> Adj(g, u, w) || (u == e.a && w == e.b) || (u == e.b && w == e.a) {
      assert Edge(u, w) == e <==> u == e.a && w == e.b;
    }
  }

  lemma NbrsSymmetric(g: Graph, u: Node, w: Node)
    requires Valid(g)
    ensures u in Nbrs(g, w) <==> w in Nbrs(g, u)
    ensures w in Nbrs(g, u) ==> u != w && u in g.nodes && w in g.nodes
  {}

  // ---------------------------------------------------------------- walks

  /** `p` is a walk from `a` to `b` along edges of `g`, meeting no node of `banned`. */
  ghost predicate Walk(g: Graph, banned: set<Node>, p: seq<Node>, a: Node, b: Node) {
    && |p| > 0 && p[0] == a && p[|p| - 1] == b
    && (forall i | 0 <= i < |p| :: p[i] in g.nodes && p[i] !in banned)
    && (forall i | 0 <= i < |p| - 1 :: Adj(g, p[i], p[i + 1]))
  }

  ghost predicate Conn(g: Graph, banned: set<Node>, a: Node, b: Node) {
    exists p :: Walk(g, banned, p, a, b)
  }

  lemma ConnRefl(g: Graph, banned: set<Node>, a: Node)
    requires a in g.nodes && a !in banned
    ensures Conn(g, banned, a, a)
  {
    assert Walk(g, banned, [a], a, a);
  }

  lemma ConnTrans(g: Graph, banned: set<Node>, a: Node, b: Node, c: Node)
    requires Conn(g, banned, a, b) && Conn(g, banned, b, c)
    ensures Conn(g, banned, a, c)
  {
    var p :| Walk(g, banned, p, a, b);
    var q :| Walk(g, banned, q, b, c);
    var r := p + q[1..];
    forall i | 0 <= i < |r| - 1 ensures Adj(g, r[i], r[i + 1]) {
      if i >= |p| - 1 {
        assert r[i] == q[i - (|p| - 1)] && r[i + 1] == q[i + 1 - (|p| - 1)];
      }
    }
    assert Walk(g, banned, r, a, c);
  }

  lemma ConnEdge(g: Graph, banned: set<Node>, a: Node, b: Node)
    requires a in g.nodes && b in g.nodes && a !in banned && b !in banned && Adj(g, a, b)
    ensures Conn(g, banned, a, b)
  {
    assert Walk(g, banned, [a, b], a, b);
  }

  lemma ConnStep(g: Graph, banned: set<Node>, a: Node, b: Node, c: Node)
    requires Conn(g, banned, a, b) && c in g.nodes && c !in banned && Adj(g, b, c)
    ensures Conn(g, banned, a, c)
  {
    var p :| Walk(g, banned, p, a, b);
    assert p[|p| - 1] == b;
    ConnEdge(g, banned, b, c);
    ConnTrans(g, banned, a, b, c);
  }

  lemma ConnSym(g: Graph, banned: set<Node>, a: Node, b: Node)
    requires Conn(g, banned, a, b)
    ensures Conn(g, banned, b, a)
  {
    var p :| Walk(g, banned, p, a, b);
    var r := seq(|p|, i requires 0 <= i < |p| => p[|p| - 1 - i]);
    forall i | 0 <= i < |r| - 1 ensures Adj(g, r[i], r[i + 1]) {
      var j := |p| - 2 - i;
      assert Adj(g, p[j], p[j + 1]);
    }
    assert Walk(g, banned, r, b, a);
  }

  /** Lifting a ban keeps every walk. */
  lemma ConnMonotone(g: Graph, less: set<Node>, more: set<Node>, a: Node, b: Node)
    requires less <= more && Conn(g, more, a, b)
    ensures Conn(g, less, a, b)
  {
    var p :| Walk(g, more, p, a, b);
    assert Walk(g, less, p, a, b);
  }

  lemma ConnEnds(g: Graph, banned: set<Node>, a: Node, b: Node)
    requires Conn(g, banned, a, b)
    ensures a in g.nodes && a !in banned && b in g.nodes && b !in banned
  {
    var p :| Walk(g, banned, p, a, b);
    assert p[0] == a && p[|p| - 1] == b;
  }

  /** No edge leaves `s` except into banned nodes. */
  ghost predicate Closed(g: Graph, banned: set<Node>, s: set<Node>) {
    forall u, w | u in s && u !in banned && w in Nbrs(g, u) && w !in banned :: w in s
  }

  /** A walk cannot leave a closed set. */
  lemma ConnClosed(g: Graph, banned: set<Node>, s: set<Node>, a: Node, b: Node)
    requires Closed(g, banned, s) && a in s && Conn(g, banned, a, b)
    ensures b in s
  {
    var p :| Walk(g, banned, p, a, b);
    WalkClosed(g, banned, s, p, |p| - 1);
  }

  lemma {:induction false} WalkClosed(g: Graph, banned: set<Node>, s: set<Node>, p: seq<Node>, i: nat)
    requires Closed(g, banned, s) && i < |p| && p[0] in s && Walk(g, banned, p, p[0], p[|p| - 1])
    ensures p[i] in s
  {
    if i > 0 {
      WalkClosed(g, banned, s, p, i - 1);
      assert Adj(g, p[i - 1], p[i - 1 + 1]);
      assert p[i] in Nbrs(g, p[i - 1]);
    }
  }

  // ---------------------------------------------------------------- degrees

  ghost function Degrees(g: Graph): Node -> real {
    (u: Node) => |Nbrs(g, u)| as real
  }

  /** Edges with both ends in `s`. */
  function Internal(g: Graph, s: set<Node>): set<Edge> {
    set e | e in g.edges && e.a in s && e.b in s
  }

  /** Edges with exactly one end in `s`. */
  function External(g: Graph, s: set<Node>): set<Edge> {
    set e | e in g.edges && (e.a in s) != (e.b in s)
  }

  ghost function Hit(x: Node): Node -> real {
    (u: Node) => if u == x then 1.0 else 0.0
  }

  lemma SumHit(s: set<Node>, x: Node)
    ensures Sum(s, Hit(x)) == if x in s then 1.0 else 0.0
  {
    if x in s {
      SumRemove(s, Hit(x), x);
      SumConstant(s - {x}, 0.0, Hit(x));
    } else {
      SumConstant(s, 0.0, Hit(x));
    }
  }

  /** The handshake identity on any set of nodes: an internal edge is seen from both ends,
      an external edge from one. */
  lemma {:induction false} Handshake(g: Graph, s: set<Node>)
    requires Valid(g)
    ensures Sum(s, Degrees(g)) == 2.0 * |Internal(g, s)| as real + |External(g, s)| as real
    decreases |g.edges|
  {
    hide Sum, Degrees, Internal, External;
    if g.edges == {} {
      NoEdgesNoDegrees(g, s);
    } else {
      var e :| e in g.edges;
      var h := g.(edges := g.edges - {e});
      Handshake(h, s);
      assert g == h.(edges := h.edges + {e});
      DegreesAddEdge(h, e, s);
      InternalAddEdge(h, e, s);
    }
  }

  lemma NoEdgesNoDegrees(g: Graph, s: set<Node>)
    requires g.edges == {}
    ensures Sum(s, Degrees(g)) == 0.0 && Internal(g, s) == {} && External(g, s) == {}
  {
    forall u | u in s ensures Degrees(g)(u) == 0.0 {
      assert Nbrs(g, u) == {};
    }
    SumConstant(s, 0.0, Degrees(g));
  }

  /** How many ends of `e` are `u`. */
  ghost function Ends(e: Edge): Node -> real {
    (u: Node) => Hit(e.a)(u) + Hit(e.b)(u)
  }

  lemma DegreeAddEdge(g: Graph, e: Edge, u: Node)
    requires Valid(g) && e !in g.edges && e.a < e.b && e.a in g.nodes && e.b in g.nodes
    ensures |Nbrs(g.(edges := g.edges + {e}), u)| == |Nbrs(g, u)| + (if u == e.a || u == e.b then 1 else 0)
  {
    var h := g.(edges := g.edges + {e});
    assert e.b !in Nbrs(g, e.a) && e.a !in Nbrs(g, e.b);
    NbrsAddEdge(g, e);
    hide Nbrs, Valid;
    assert Nbrs(h, u) ==
           Nbrs(g, u) + (if u == e.a then {e.b} else {}) + (if u == e.b then {e.a} else {});
    if u == e.a {
      assert Nbrs(h, u) == Nbrs(g, u) + {e.b};
    } else if u == e.b {
      assert Nbrs(h, u) == Nbrs(g, u) + {e.a};
    } else {
      assert Nbrs(h, u) == Nbrs(g, u);
    }
  }

  lemma DegreesAddEdge(g: Graph, e: Edge, s: set<Node>)
    requires Valid(g) && e !in g.edges && e.a < e.b && e.a in g.nodes && e.b in g.nodes
    ensures Sum(s, Degrees(g.(edges := g.edges + {e}))) ==
            Sum(s, Degrees(g)) + (if e.a in s then 1.0 else 0.0) + (if e.b in s then 1.0 else 0.0)
  {
    var h := g.(edges := g.edges + {e});
    forall u | u in s ensures Degrees(h)(u) == Degrees(g)(u) + Ends(e)(u) {
      DegreeAddEdge(g, e, u);
      assert Degrees(h)(u) == |Nbrs(h, u)| as real && Degrees(g)(u) == |Nbrs(g, u)| as real;
      assert Ends(e)(u) == Hit(e.a)(u) + Hit(e.b)(u);
    }
    SumPlus(s, Degrees(g), Ends(e), Degrees(h));
    SumPlus(s, Hit(e.a), Hit(e.b), Ends(e));
    SumHit(s, e.a);
    SumHit(s, e.b);
  }

  lemma InternalAddEdge(g: Graph, e: Edge, s: set<Node>)
    requires e !in g.edges
    ensures |Internal(g.(edges := g.edges + {e}), s)| == |Internal(g, s)| + (if e.a in s && e.b in s then 1 else 0)
    ensures |External(g.(edges := g.edges + {e}), s)| == |External(g, s)| + (if (e.a in s) != (e.b in s) then 1 else 0)
  {
    var h := g.(edges := g.edges + {e});
    if e.a in s && e.b in s {
      assert Internal(h, s) == Internal(g, s) + {e} && External(h, s) == External(g, s);
    } else if e.a in s || e.b in s {
      assert Internal(h, s) == Internal(g, s) && External(h, s) == External(g, s) + {e};
    } else {
      assert Internal(h, s) == Internal(g, s) && External(h, s) == External(g, s);
    }
  }

  /** Degrees over all nodes add up to twice the number of edges. */
  lemma TotalDegree(g: Graph)
    requires Valid(g)
    ensures Sum(g.nodes, Degrees(g)) == 2.0 * |g.edges| as real
  {
    Handshake(g, g.nodes);
    assert Internal(g, g.nodes) == g.edges && External(g, g.nodes) == {};
  }
}
