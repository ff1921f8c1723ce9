/** What a finished depth-first search says about the graph: the nodes it marked are exactly
    the nodes whose removal disconnects two of their component-mates. */
module CutVertices {
  import opened Graphs
  import opened DepthFirst
  import opened Pairs

  /** Removing `v` leaves two nodes of its component with no walk between them. */
  ghost predicate Separates(g: Graph, v: Node, a: Node, b: Node) {
    a != v && b != v && Conn(g, {}, v, a) && Conn(g, {}, v, b) && !Conn(g, {v}, a, b)
  }

  ghost predicate IsCut(g: Graph, v: Node) {
    exists a, b :: Separates(g, v, a, b)
  }

  /** The search is over and has visited every node that has an edge. */
  ghost predicate Finished(g: Graph, s: State) {
    Valid(g) && Inv(g, s) && s.stack == [] && forall u | u in g.nodes && Nbrs(g, u) != {} :: u in s.disc
  }

  ghost function Subtree(s: State, u: Node): set<Node> {
    set x | x in s.disc && In(s, u, x)
  }

  lemma AllLeft(g: Graph, s: State, u: Node)
    requires Finished(g, s) && u in s.disc
    ensures u in s.fin && Rest(s, u) == [] && NodeAt(g, s, u)
  {
    assert NodeAt(g, s, u) && OpenAt(s, u);
  }

  /** Every edge of a finished search joins an ancestor and a descendant. */
  lemma NoCrossEdge(g: Graph, s: State, u: Node, w: Node)
    requires Finished(g, s) && u in s.disc && w in Nbrs(g, u)
    ensures w in s.disc && (In(s, u, w) || In(s, w, u))
  {
    AllLeft(g, s, u);
    assert ReachAt(g, s, u, w);
    AllLeft(g, s, w);
    NbrsSymmetric(g, u, w);
    assert ReachAt(g, s, w, u);
  }

  lemma InTrans(g: Graph, s: State, u: Node, v: Node, w: Node)
    requires Forest(g, s) && In(s, u, v) && In(s, v, w)
    ensures In(s, u, w)
  {
    assert NestedAt(s, u, v);
  }

  /** Two intervals around the same node are nested. */
  lemma Comparable(s: State, u: Node, v: Node, w: Node)
    requires In(s, u, w) && In(s, v, w)
    ensures In(s, u, v) || In(s, v, u)
  {}

  /** Inside the subtree of `u` the tree itself is a connection, and it avoids any node outside. */
  lemma {:induction false} SubtreeConn(g: Graph, s: State, v: Node, u: Node, x: Node)
    requires Finished(g, s) && In(s, u, x) && !In(s, u, v)
    ensures Conn(g, {v}, u, x)
    decreases s.disc[x]
  {
    assert NodeAt(g, s, u) && NodeAt(g, s, x);
    if x == u {
      ConnRefl(g, {v}, u);
    } else {
      assert TreeAt(s, u, x) && ParentAt(g, s, x);
      var q := s.parent[x].node;
      assert DistinctAt(s, q, x) && NodeAt(g, s, q);
      SubtreeConn(g, s, v, u, q);
      NbrsSymmetric(g, x, q);
      ConnStep(g, {v}, u, q, x);
    }
  }

  /** Low-links bound every non-tree edge of the subtree. */
  lemma {:induction false} LowOfSubtree(g: Graph, s: State, u: Node, x: Node)
    requires Finished(g, s) && In(s, u, x)
    ensures u in s.low && x in s.low && s.low[u] <= s.low[x]
    decreases s.disc[x]
  {
    assert NodeAt(g, s, u) && NodeAt(g, s, x);
    if x != u {
      assert TreeAt(s, u, x) && ParentAt(g, s, x);
      var q := s.parent[x].node;
      assert DistinctAt(s, q, x);
      LowOfSubtree(g, s, u, q);
      AllLeft(g, s, x);
      assert LowChildAt(s, x, q);
    }
  }

  /** The low-link is attained by an edge of the subtree. */
  lemma {:induction false} LowWitness(g: Graph, s: State, u: Node) returns (x: Node, w: Node)
    requires Finished(g, s) && u in s.disc && u in s.low && s.low[u] < s.disc[u]
    ensures In(s, u, x) && w in Nbrs(g, x) && w in s.disc && s.disc[w] == s.low[u]
    decreases s.timer - s.disc[u]
  {
    AllLeft(g, s, u);
    assert AttainedAt(g, s, u);
    if edge :| ViaEdge(g, s, u, edge) {
      x, w := u, edge;
    } else {
      var c :| ViaChild(s, u, c);
      assert NodeAt(g, s, c) && ParentAt(g, s, c);
      assert DistinctAt(s, u, c);
      x, w := LowWitness(g, s, c);
      InTrans(g, s, u, c, x);
    }
  }

  /** The subtree of a child `c` of `p` has no way out but `p`, when `p` is a root or the
      low-link of `c` does not reach above `p`. */
  lemma ChildEnclosed(g: Graph, s: State, p: Node, c: Node)
    requires Finished(g, s) && ChildOf(s, c, p) && p in s.parent && c in s.low && p in s.disc
    requires s.parent[p] == Root || s.low[c] >= s.disc[p]
    ensures Closed(g, {p}, Subtree(s, c))
  {
    forall x, w | In(s, c, x) && w in Nbrs(g, x) && w != p
      ensures In(s, c, w)
    {
      NoCrossEdge(g, s, x, w);
      if In(s, x, w) {
        InTrans(g, s, c, x, w);
      } else {
        Comparable(s, w, c, x);
        if In(s, w, c) {
          NoEscape(g, s, p, c, x, w);
        }
      }
    }
  }

  lemma NoEscape(g: Graph, s: State, p: Node, c: Node, x: Node, w: Node)
    requires Finished(g, s) && ChildOf(s, c, p) && p in s.parent && c in s.low && p in s.disc
    requires s.parent[p] == Root || s.low[c] >= s.disc[p]
    requires In(s, c, x) && In(s, w, c) && w in Nbrs(g, x)
    ensures w == c || w == p
  {
    assert TreeAt(s, w, c) && TreeAt(s, w, p) && DistinctAt(s, w, p);
    assert TreeAt(s, c, x) && DistinctAt(s, w, c);
    assert LowEdgeAt(g, s, x, w);
    AllLeft(g, s, x);
    LowOfSubtree(g, s, c, x);
  }

  // ---------------------------------------------------------------- marked nodes are cut vertices

  lemma BlockedIsCut(g: Graph, s: State, p: Node, c: Node)
    requires Finished(g, s) && Blocks(s, p, c)
    ensures IsCut(g, p)
  {
    assert ParentAt(g, s, p) && ParentAt(g, s, c) && NodeAt(g, s, p) && NodeAt(g, s, c);
    var up := s.parent[p].node;
    assert DistinctAt(s, up, p) && DistinctAt(s, p, c) && NodeAt(g, s, up);
    NbrsSymmetric(g, c, p);
    ConnEdge(g, {}, p, c);
    ConnEdge(g, {}, p, up);
    if Conn(g, {p}, c, up) {
      ChildEnclosed(g, s, p, c);
      ConnClosed(g, {p}, Subtree(s, c), c, up);
    }
    assert Separates(g, p, c, up);
  }

  lemma TwoChildren(s: State, p: Node) returns (c: Node, d: Node)
    requires |Children(s, p)| > 1
    ensures ChildOf(s, c, p) && ChildOf(s, d, p) && c != d
  {
    var kids := Children(s, p);
    c :| c in kids;
    assert kids != {c};
    d :| d in kids && d != c;
  }

  lemma BranchingRootIsCut(g: Graph, s: State, p: Node)
    requires Finished(g, s) && BranchingRoot(s, p)
    ensures IsCut(g, p)
  {
    assert CountAt(s, p);
    var c, d := TwoChildren(s, p);
    assert ParentAt(g, s, c) && ParentAt(g, s, d) && NodeAt(g, s, p) && NodeAt(g, s, c) && NodeAt(g, s, d);
    NbrsSymmetric(g, c, p);
    NbrsSymmetric(g, d, p);
    ConnEdge(g, {}, p, c);
    ConnEdge(g, {}, p, d);
    assert TreeAt(s, c, d) && DistinctAt(s, p, c);
    if Conn(g, {p}, c, d) {
      ChildEnclosed(g, s, p, c);
      ConnClosed(g, {p}, Subtree(s, c), c, d);
    }
    assert Separates(g, p, c, d);
  }

  // ---------------------------------------------------------------- unmarked nodes are not

  lemma {:induction false} RootAbove(g: Graph, s: State, u: Node) returns (r: Node)
    requires Finished(g, s) && u in s.disc
    ensures In(s, r, u) && r in s.parent && s.parent[r] == Root
    decreases s.disc[u]
  {
    AllLeft(g, s, u);
    if s.parent[u] == Root {
      r := u;
    } else {
      assert ParentAt(g, s, u);
      var q := s.parent[u].node;
      assert DistinctAt(s, q, u);
      r := RootAbove(g, s, q);
      InTrans(g, s, r, q, u);
    }
  }

  /** The tree of a root is a whole component. */
  lemma TreeIsClosed(g: Graph, s: State, r: Node)
    requires Finished(g, s) && r in s.parent && s.parent[r] == Root
    ensures Closed(g, {}, Subtree(s, r))
  {
    forall x, w | In(s, r, x) && w in Nbrs(g, x)
      ensures In(s, r, w)
    {
      NoCrossEdge(g, s, x, w);
      if In(s, x, w) {
        InTrans(g, s, r, x, w);
      } else {
        Comparable(s, r, w, x);
        assert TreeAt(s, w, r);
      }
    }
  }

  /** The child of `p` whose subtree holds a given proper descendant. */
  lemma {:induction false} ChildToward(g: Graph, s: State, p: Node, x: Node) returns (c: Node)
    requires Finished(g, s) && In(s, p, x) && x != p
    ensures ChildOf(s, c, p) && In(s, c, x)
    decreases s.disc[x]
  {
    assert TreeAt(s, p, x) && ParentAt(g, s, x);
    AllLeft(g, s, x);
    var q := s.parent[x].node;
    assert DistinctAt(s, q, x);
    if q == p {
      c := x;
    } else {
      c := ChildToward(g, s, p, q);
      InTrans(g, s, c, q, x);
    }
  }

  /** From the root, anything outside the subtree of `p` is reached without `p`. */
  lemma {:induction false} AroundSubtree(g: Graph, s: State, r: Node, p: Node, x: Node)
    requires Finished(g, s) && In(s, r, x) && p in s.disc && !In(s, p, x)
    ensures Conn(g, {p}, r, x)
    decreases s.disc[x]
  {
    AllLeft(g, s, x);
    AllLeft(g, s, p);
    assert NodeAt(g, s, r);
    if x == r {
      ConnRefl(g, {p}, r);
    } else {
      assert TreeAt(s, r, x) && ParentAt(g, s, x);
      var q := s.parent[x].node;
      assert DistinctAt(s, q, x) && NodeAt(g, s, q);
      if In(s, p, q) {
        InTrans(g, s, p, q, x);
      }
      AroundSubtree(g, s, r, p, q);
      NbrsSymmetric(g, x, q);
      ConnStep(g, {p}, r, q, x);
    }
  }

  /** Below a non-root `p` all of whose children look above it, every node still reaches the root. */
  lemma DetourBelow(g: Graph, s: State, r: Node, p: Node, x: Node)
    requires Finished(g, s) && In(s, r, p) && r in s.parent && s.parent[r] == Root
    requires p in s.parent && s.parent[p] != Root && !exists c :: Blocks(s, p, c)
    requires In(s, p, x) && x != p
    ensures Conn(g, {p}, r, x)
  {
    var c := ChildToward(g, s, p, x);
    assert ParentAt(g, s, c) && DistinctAt(s, p, c);
    AllLeft(g, s, c);
    AllLeft(g, s, p);
    assert !Blocks(s, p, c);
    var y, w := LowWitness(g, s, c);
    assert NodeAt(g, s, y);
    InTrans(g, s, r, p, c);
    InTrans(g, s, r, c, y);
    TreeIsClosed(g, s, r);
    assert w in Subtree(s, r);
    AroundSubtree(g, s, r, p, w);
    NbrsSymmetric(g, y, w);
    ConnStep(g, {p}, r, w, y);
    SubtreeConn(g, s, p, c, y);
    ConnSym(g, {p}, c, y);
    SubtreeConn(g, s, p, c, x);
    ConnTrans(g, {p}, r, y, c);
    ConnTrans(g, {p}, r, c, x);
  }

  /** A component-mate of the root `r` lies in its tree. */
  lemma MatesInTree(g: Graph, s: State, r: Node, p: Node, a: Node)
    requires Finished(g, s) && In(s, r, p) && r in s.parent && s.parent[r] == Root && Conn(g, {}, p, a)
    ensures In(s, r, a)
  {
    TreeIsClosed(g, s, r);
    assert p in Subtree(s, r);
    ConnClosed(g, {}, Subtree(s, r), p, a);
  }

  lemma UnmarkedInner(g: Graph, s: State, r: Node, p: Node, a: Node)
    requires Finished(g, s) && In(s, r, p) && r in s.parent && s.parent[r] == Root
    requires p in s.parent && s.parent[p] != Root && !exists c :: Blocks(s, p, c)
    requires a != p && Conn(g, {}, p, a)
    ensures Conn(g, {p}, r, a)
  {
    MatesInTree(g, s, r, p, a);
    if In(s, p, a) {
      DetourBelow(g, s, r, p, a);
    } else {
      AroundSubtree(g, s, r, p, a);
    }
  }

  lemma UnmarkedRoot(g: Graph, s: State, p: Node, a: Node, b: Node)
    requires Finished(g, s) && p in s.disc && p in s.parent && s.parent[p] == Root && !BranchingRoot(s, p)
    requires a != p && b != p && Conn(g, {}, p, a) && Conn(g, {}, p, b)
    ensures Conn(g, {p}, a, b)
  {
    AllLeft(g, s, p);
    assert CountAt(s, p);
    MatesInTree(g, s, p, p, a);
    MatesInTree(g, s, p, p, b);
    var c := ChildToward(g, s, p, a);
    var d := ChildToward(g, s, p, b);
    assert c in Children(s, p) && d in Children(s, p);
    if c != d {
      assert |{c, d}| == 2 && {c, d} <= Children(s, p);
      SubsetSize({c, d}, Children(s, p));
    }
    assert ParentAt(g, s, c) && DistinctAt(s, p, c);
    SubtreeConn(g, s, p, c, a);
    SubtreeConn(g, s, p, c, b);
    ConnSym(g, {p}, c, a);
    ConnTrans(g, {p}, a, c, b);
  }

  lemma UnmarkedKeepsMates(g: Graph, s: State, p: Node, a: Node, b: Node)
    requires Finished(g, s) && p !in s.cut
    requires a != p && b != p && Conn(g, {}, p, a) && Conn(g, {}, p, b)
    ensures Conn(g, {p}, a, b)
  {
    ConnEnds(g, {}, p, a);
    if p !in s.disc {
      assert Nbrs(g, p) == {};
      ConnClosed(g, {}, {p}, p, a);
    } else {
      assert CutAt(s, p);
      AllLeft(g, s, p);
      if s.parent[p] == Root {
        UnmarkedRoot(g, s, p, a, b);
      } else {
        var r := RootAbove(g, s, p);
        UnmarkedInner(g, s, r, p, a);
        UnmarkedInner(g, s, r, p, b);
        ConnSym(g, {p}, r, a);
        ConnTrans(g, {p}, a, r, b);
      }
    }
  }

  /** The set collected by a finished search is exactly the set of cut vertices. */
  lemma MarkedIffCut(g: Graph, s: State, p: Node)
    requires Finished(g, s)
    ensures p in s.cut <==> IsCut(g, p)
  {
    assert CutAt(s, p);
    if p in s.cut {
      if BranchingRoot(s, p) {
        BranchingRootIsCut(g, s, p);
      } else {
        var c :| Blocks(s, p, c);
        BlockedIsCut(g, s, p, c);
      }
    } else if IsCut(g, p) {
      var a, b :| Separates(g, p, a, b);
      UnmarkedKeepsMates(g, s, p, a, b);
    }
  }
}
