/** Entering a node, looking at a known neighbour and leaving a node keep every invariant
    of the depth-first search. */
module DepthFirstSteps {
  import opened Graphs
  import opened DepthFirst

  // ---------------------------------------------------------------- entering a node

  lemma EnterNodes(g: Graph, s: State, x: Node)
    requires CanEnter(g, s, x) && Nodes(g, s)
    ensures Nodes(g, Enter(g, s, x))
  {
    forall u ensures NodeAt(g, Enter(g, s, x), u) {
      EnterNode(g, s, x, u);
    }
    forall u, w ensures DistinctAt(Enter(g, s, x), u, w) {
      EnterDistinct(g, s, x, u, w);
    }
    hide NodeAt, DistinctAt;
  }

  lemma EnterNode(g: Graph, s: State, x: Node, u: Node)
    requires CanEnter(g, s, x) && Nodes(g, s)
    ensures NodeAt(g, Enter(g, s, x), u)
  {
    assert NodeAt(g, s, u);
  }

  lemma EnterDistinct(g: Graph, s: State, x: Node, u: Node, w: Node)
    requires CanEnter(g, s, x) && Nodes(g, s)
    ensures DistinctAt(Enter(g, s, x), u, w)
  {
    assert NodeAt(g, s, u) && NodeAt(g, s, w) && DistinctAt(s, u, w);
  }

  lemma EnterStacked(g: Graph, s: State, x: Node)
    requires CanEnter(g, s, x) && Nodes(g, s) && Stacked(s)
    ensures Stacked(Enter(g, s, x))
  {
    hide Enter, CanEnter, Nodes, ChainAt, MonoAt, OpenAt, FrontAt;
    forall i ensures ChainAt(Enter(g, s, x), i) { EnterChain(g, s, x, i); }
    forall i, j ensures MonoAt(Enter(g, s, x), i, j) { EnterMono(g, s, x, i, j); }
    forall u ensures OpenAt(Enter(g, s, x), u) { EnterOpen(g, s, x, u); }
    forall y, u ensures FrontAt(Enter(g, s, x), y, u) { EnterFront(g, s, x, y, u); }
  }

  lemma EnterChain(g: Graph, s: State, x: Node, i: int)
    requires CanEnter(g, s, x) && Nodes(g, s) && Stacked(s)
    ensures ChainAt(Enter(g, s, x), i)
  {
    assert ChainAt(s, i) && NodeAt(g, s, x);
  }

  lemma EnterMono(g: Graph, s: State, x: Node, i: int, j: int)
    requires CanEnter(g, s, x) && Nodes(g, s) && Stacked(s)
    ensures MonoAt(Enter(g, s, x), i, j)
  {
    assert MonoAt(s, i, j);
    if 0 <= i < j == |s.stack| {
      assert ChainAt(s, i) && NodeAt(g, s, s.stack[i]);
    } else if 0 <= i < j < |s.stack| {
      assert ChainAt(s, i) && ChainAt(s, j);
    }
  }

  lemma EnterOpen(g: Graph, s: State, x: Node, u: Node)
    requires CanEnter(g, s, x) && Nodes(g, s) && Stacked(s)
    ensures OpenAt(Enter(g, s, x), u)
  {
    var t := Enter(g, s, x);
    assert OpenAt(s, u);
    if u == x {
      assert t.stack[|s.stack|] == u;
    } else if Open(t, u) {
      var i :| 0 <= i < |s.stack| && s.stack[i] == u;
      assert t.stack[i] == u;
    }
  }

  lemma EnterFront(g: Graph, s: State, x: Node, y: Node, u: Node)
    requires CanEnter(g, s, x) && Nodes(g, s) && Stacked(s)
    ensures FrontAt(Enter(g, s, x), y, u)
  {
    assert FrontAt(s, y, u) && NodeAt(g, s, u) && NodeAt(g, s, x);
  }

  /** Entering `x` adds it to the subtrees of the open nodes and changes no other membership. */
  lemma EnterIn(g: Graph, s: State, x: Node, u: Node, w: Node)
    requires CanEnter(g, s, x) && Nodes(g, s)
    ensures u != x && w != x ==> (In(Enter(g, s, x), u, w) <==> In(s, u, w))
    ensures In(Enter(g, s, x), u, x) <==> Open(s, u) || u == x
    ensures In(Enter(g, s, x), x, w) <==> w == x
    ensures End(Enter(g, s, x), u) == if u in s.fin then End(s, u) else s.timer + 1
  {
    assert NodeAt(g, s, u) && NodeAt(g, s, w) && NodeAt(g, s, x);
  }

  lemma TopLatest(g: Graph, s: State, u: Node)
    requires Nodes(g, s) && Stacked(s) && Open(s, u)
    ensures s.stack != [] && Open(s, Top(s)) && s.disc[u] <= s.disc[Top(s)] && In(s, u, Top(s))
  {
    assert OpenAt(s, u);
    var i :| 0 <= i < |s.stack| && s.stack[i] == u;
    assert MonoAt(s, i, |s.stack| - 1) && ChainAt(s, |s.stack| - 1) && NodeAt(g, s, Top(s));
  }

  lemma EnterForest(g: Graph, s: State, x: Node)
    requires Valid(g) && CanEnter(g, s, x) && Nodes(g, s) && Stacked(s) && Forest(g, s)
    ensures Forest(g, Enter(g, s, x))
  {
    var t := Enter(g, s, x);
    assert NodeAt(g, s, x);
    forall u ensures ParentAt(g, t, u) {
      EnterParent(g, s, x, u);
    }
    forall u, w ensures TreeAt(t, u, w) {
      EnterTree(g, s, x, u, w);
    }
    forall u, w ensures NestedAt(t, u, w) {
      EnterNested(g, s, x, u, w);
    }
  }

  lemma EnterParent(g: Graph, s: State, x: Node, u: Node)
    requires Valid(g) && CanEnter(g, s, x) && Nodes(g, s) && Stacked(s) && Forest(g, s)
    ensures ParentAt(g, Enter(g, s, x), u)
  {
    assert ParentAt(g, s, u) && NodeAt(g, s, x);
    if u == x {
      if s.stack != [] {
        assert ChainAt(s, |s.stack| - 1) && NodeAt(g, s, Top(s));
        assert x in s.todo[Top(s)];
        EnterIn(g, s, x, Top(s), x);
      }
    } else if u in s.parent && s.parent[u].Of? {
      EnterIn(g, s, x, s.parent[u].node, u);
    }
  }

  lemma EnterTree(g: Graph, s: State, x: Node, u: Node, w: Node)
    requires CanEnter(g, s, x) && Nodes(g, s) && Stacked(s) && Forest(g, s)
    ensures TreeAt(Enter(g, s, x), u, w)
  {
    assert TreeAt(s, u, w) && NodeAt(g, s, w) && NodeAt(g, s, x);
    EnterIn(g, s, x, u, w);
    if w == x && Open(s, u) {
      TopLatest(g, s, u);
      EnterIn(g, s, x, u, Top(s));
    } else if u != x && w != x && w != u && In(s, u, w) {
      EnterIn(g, s, x, u, s.parent[w].node);
    }
  }

  lemma EnterNested(g: Graph, s: State, x: Node, u: Node, w: Node)
    requires CanEnter(g, s, x) && Nodes(g, s) && Stacked(s) && Forest(g, s)
    ensures NestedAt(Enter(g, s, x), u, w)
  {
    assert NestedAt(s, u, w) && NodeAt(g, s, w) && NodeAt(g, s, u) && FrontAt(s, w, u);
    EnterIn(g, s, x, u, w);
    EnterIn(g, s, x, w, u);
  }

  lemma EnterExplored(g: Graph, s: State, x: Node, u: Node, w: Node)
    requires CanEnter(g, s, x) && Nodes(g, s)
    ensures !Explored(g, Enter(g, s, x), x, w)
    ensures u != x && w != x ==> (Explored(g, Enter(g, s, x), u, w) <==> Explored(g, s, u, w))
  {
    assert NodeAt(g, s, x) && NodeAt(g, s, u);
    if s.stack != [] && u == Top(s) {
      var q := s.todo[u];
      assert q == [x] + q[1..];
    }
  }

  lemma EnterReached(g: Graph, s: State, x: Node)
    requires CanEnter(g, s, x) && Nodes(g, s) && Reached(g, s)
    ensures Reached(g, Enter(g, s, x))
  {
    var t := Enter(g, s, x);
    forall u, w ensures ReachAt(g, t, u, w) {
      assert ReachAt(g, s, u, w) && NodeAt(g, s, x);
      EnterExplored(g, s, x, u, w);
    }
  }

  lemma EnterLowBound(g: Graph, s: State, x: Node)
    requires CanEnter(g, s, x) && Nodes(g, s) && Reached(g, s) && LowBound(g, s)
    ensures LowBound(g, Enter(g, s, x))
  {
    var t := Enter(g, s, x);
    forall u, w ensures LowEdgeAt(g, t, u, w) {
      assert LowEdgeAt(g, s, u, w) && NodeAt(g, s, x) && NodeAt(g, s, u);
      EnterExplored(g, s, x, u, w);
    }
    forall c, p ensures LowChildAt(t, c, p) {
      assert LowChildAt(s, c, p) && NodeAt(g, s, x) && NodeAt(g, s, c);
    }
  }

  lemma EnterAttained(g: Graph, s: State, x: Node)
    requires CanEnter(g, s, x) && Nodes(g, s) && Reached(g, s) && LowAttained(g, s)
    ensures LowAttained(g, Enter(g, s, x))
  {
    var t := Enter(g, s, x);
    forall u ensures AttainedAt(g, t, u) {
      assert AttainedAt(g, s, u) && NodeAt(g, s, u) && NodeAt(g, s, x);
      if u != x && u in s.disc && s.low[u] != s.disc[u] {
        if w :| ViaEdge(g, s, u, w) {
          EnterExplored(g, s, x, u, w);
          assert ViaEdge(g, t, u, w);
        } else {
          var c :| ViaChild(s, u, c);
          assert NodeAt(g, s, c);
          assert ViaChild(t, u, c);
        }
      }
    }
  }

  lemma EnterCuts(g: Graph, s: State, x: Node)
    requires CanEnter(g, s, x) && Nodes(g, s) && Stacked(s) && Forest(g, s) && Cuts(s)
    ensures Cuts(Enter(g, s, x))
  {
    var t := Enter(g, s, x);
    assert NodeAt(g, s, x);
    forall p ensures CountAt(t, p) {
      EnterCount(g, s, x, p);
    }
    forall p ensures CutAt(t, p) {
      EnterCut(g, s, x, p);
    }
  }

  lemma EnterCount(g: Graph, s: State, x: Node, p: Node)
    requires CanEnter(g, s, x) && Nodes(g, s) && Stacked(s) && Forest(g, s) && Cuts(s)
    ensures CountAt(Enter(g, s, x), p)
  {
    assert CountAt(s, p);
    EnterChildren(g, s, x, p);
    hide Children, Nodes, Stacked, Forest, Cuts;
  }

  /** The top gains the child `x`, nobody else does. */
  lemma EnterChildren(g: Graph, s: State, x: Node, p: Node)
    requires CanEnter(g, s, x) && Nodes(g, s) && Stacked(s) && Forest(g, s)
    ensures s.stack != [] && p == Top(s) ==>
              Children(Enter(g, s, x), p) == Children(s, p) + {x} && x !in Children(s, p) && p != x
    ensures p == x ==> Children(Enter(g, s, x), p) == {}
    ensures p != x && (s.stack == [] || p != Top(s)) ==> Children(Enter(g, s, x), p) == Children(s, p)
  {
    assert NodeAt(g, s, x) && (s.stack != [] ==> ChainAt(s, |s.stack| - 1));
    if p == x {
      forall c | c in s.parent ensures s.parent[c] != Of(x) {
        assert ParentAt(g, s, c);
      }
    }
  }

  lemma EnterCut(g: Graph, s: State, x: Node, p: Node)
    requires CanEnter(g, s, x) && Nodes(g, s) && Stacked(s) && Cuts(s)
    ensures CutAt(Enter(g, s, x), p)
  {
    var t := Enter(g, s, x);
    assert CutAt(s, p) && NodeAt(g, s, x) && NodeAt(g, s, p);
    assert s.stack != [] ==> ChainAt(s, |s.stack| - 1);
    assert BranchingRoot(t, p) <==> BranchingRoot(s, p);
    forall c ensures Blocks(t, p, c) <==> Blocks(s, p, c) {
      assert NodeAt(g, s, c);
    }
  }

  lemma EnterInv(g: Graph, s: State, x: Node)
    requires Valid(g) && CanEnter(g, s, x) && Inv(g, s)
    ensures Inv(g, Enter(g, s, x))
  {
    EnterNodes(g, s, x);
    EnterStacked(g, s, x);
    EnterForest(g, s, x);
    EnterReached(g, s, x);
    EnterLowBound(g, s, x);
    EnterAttained(g, s, x);
    EnterCuts(g, s, x);
  }

  // ---------------------------------------------------------------- looking at a discovered neighbour

  lemma LookExplored(g: Graph, s: State, u: Node, w: Node)
    requires CanLook(s) && Nodes(g, s)
    ensures Explored(g, Look(s), u, w) <==>
            Explored(g, s, u, w) || (u == Top(s) && w == s.todo[u][0] && u in s.disc)
  {
    assert NodeAt(g, s, u);
    var q := s.todo[Top(s)];
    assert q == [q[0]] + q[1..];
    if u == Top(s) {
      assert q[0] in s.todo[u];
      assert q[0] !in q[1..];
    }
  }

  lemma LookNodes(g: Graph, s: State)
    requires CanLook(s) && Nodes(g, s)
    ensures Nodes(g, Look(s))
  {
    var t := Look(s);
    forall u ensures NodeAt(g, t, u) {
      assert NodeAt(g, s, u);
    }
    forall u, w ensures DistinctAt(t, u, w) {
      assert DistinctAt(s, u, w);
    }
  }

  lemma LookStacked(g: Graph, s: State)
    requires CanLook(s) && Stacked(s)
    ensures Stacked(Look(s))
  {
    var t := Look(s);
    forall i ensures ChainAt(t, i) { assert ChainAt(s, i); }
    forall i, j ensures MonoAt(t, i, j) { assert MonoAt(s, i, j); }
    forall u ensures OpenAt(t, u) { assert OpenAt(s, u); }
    forall y, u ensures FrontAt(t, y, u) { assert FrontAt(s, y, u); }
  }

  lemma LookForest(g: Graph, s: State)
    requires CanLook(s) && Forest(g, s)
    ensures Forest(g, Look(s))
  {
    var t := Look(s);
    forall u, w ensures In(t, u, w) <==> In(s, u, w) {}
    forall u ensures ParentAt(g, t, u) { assert ParentAt(g, s, u); }
    forall u, x ensures TreeAt(t, u, x) { assert TreeAt(s, u, x); }
    forall u, x ensures NestedAt(t, u, x) { assert NestedAt(s, u, x); }
  }

  lemma LookReached(g: Graph, s: State)
    requires CanLook(s) && Nodes(g, s) && Reached(g, s)
    ensures Reached(g, Look(s))
  {
    var t := Look(s);
    forall u, w ensures ReachAt(g, t, u, w) {
      assert ReachAt(g, s, u, w);
      LookExplored(g, s, u, w);
    }
  }

  lemma LookLowBound(g: Graph, s: State)
    requires CanLook(s) && Nodes(g, s) && Stacked(s) && LowBound(g, s)
    ensures LowBound(g, Look(s))
  {
    var t := Look(s);
    forall u, w ensures LowEdgeAt(g, t, u, w) {
      assert LowEdgeAt(g, s, u, w);
      LookExplored(g, s, u, w);
    }
    forall c, p ensures LowChildAt(t, c, p) {
      assert LowChildAt(s, c, p);
      assert ChainAt(s, |s.stack| - 1);
    }
  }

  lemma LookAttained(g: Graph, s: State)
    requires CanLook(s) && Nodes(g, s) && Stacked(s) && LowAttained(g, s)
    ensures LowAttained(g, Look(s))
  {
    var t := Look(s);
    assert ChainAt(s, |s.stack| - 1);
    forall u ensures AttainedAt(g, t, u) {
      assert AttainedAt(g, s, u);
      if u in s.disc && u in s.low && t.low[u] != s.disc[u] {
        if t.low[u] != s.low[u] {
          LookExplored(g, s, u, s.todo[u][0]);
          assert ViaEdge(g, t, u, s.todo[u][0]);
        } else if w :| ViaEdge(g, s, u, w) {
          LookExplored(g, s, u, w);
          assert ViaEdge(g, t, u, w);
        } else {
          var c :| ViaChild(s, u, c);
          assert ViaChild(t, u, c);
        }
      }
    }
  }

  lemma LookCuts(g: Graph, s: State)
    requires CanLook(s) && Stacked(s) && Cuts(s)
    ensures Cuts(Look(s))
  {
    var t := Look(s);
    assert ChainAt(s, |s.stack| - 1);
    forall p ensures CountAt(t, p) {
      assert CountAt(s, p);
      assert Children(t, p) == Children(s, p);
    }
    forall p ensures CutAt(t, p) {
      assert CutAt(s, p);
      assert BranchingRoot(t, p) <==> BranchingRoot(s, p);
      forall c ensures Blocks(t, p, c) <==> Blocks(s, p, c) {}
    }
  }

  lemma LookInv(g: Graph, s: State)
    requires CanLook(s) && Inv(g, s)
    ensures Inv(g, Look(s))
  {
    LookNodes(g, s);
    LookStacked(g, s);
    LookForest(g, s);
    LookReached(g, s);
    LookLowBound(g, s);
    LookAttained(g, s);
    LookCuts(g, s);
  }

  // ---------------------------------------------------------------- leaving a node

  lemma TopOpen(s: State)
    requires s.stack != [] && Stacked(s)
    ensures Open(s, Top(s)) && Top(s) in s.parent
    ensures s.parent[Top(s)].Of? ==> |s.stack| > 1 && s.parent[Top(s)].node == s.stack[|s.stack| - 2]
    ensures s.parent[Top(s)].Of? ==> Open(s, s.parent[Top(s)].node) && s.parent[Top(s)].node != Top(s)
  {
    assert ChainAt(s, |s.stack| - 1) && ChainAt(s, |s.stack| - 2);
    assert MonoAt(s, |s.stack| - 2, |s.stack| - 1);
  }

  lemma LeaveNodes(g: Graph, s: State)
    requires CanLeave(s) && Nodes(g, s) && Stacked(s)
    ensures Nodes(g, Leave(s))
  {
    forall u ensures NodeAt(g, Leave(s), u) {
      LeaveNode(g, s, u);
    }
    forall u, w ensures DistinctAt(Leave(s), u, w) {
      assert DistinctAt(s, u, w);
    }
    hide NodeAt;
  }

  lemma LeaveNode(g: Graph, s: State, u: Node)
    requires CanLeave(s) && Nodes(g, s) && Stacked(s)
    ensures NodeAt(g, Leave(s), u)
  {
    TopOpen(s);
    assert NodeAt(g, s, u);
  }

  lemma LeaveStacked(g: Graph, s: State)
    requires CanLeave(s) && Nodes(g, s) && Stacked(s)
    ensures Stacked(Leave(s))
  {
    hide Leave, CanLeave, Nodes, ChainAt, MonoAt, OpenAt, FrontAt;
    forall i ensures ChainAt(Leave(s), i) { LeaveChain(s, i); }
    forall i, j ensures MonoAt(Leave(s), i, j) { LeaveMono(s, i, j); }
    forall u ensures OpenAt(Leave(s), u) { LeaveOpen(s, u); }
    forall y, u ensures FrontAt(Leave(s), y, u) { LeaveFront(g, s, y, u); }
  }

  lemma LeaveChain(s: State, i: int)
    requires CanLeave(s) && Stacked(s)
    ensures ChainAt(Leave(s), i)
  {
    hide LowPassed, CutMarked;
    assert ChainAt(s, i) && MonoAt(s, i, |s.stack| - 1);
  }

  lemma LeaveMono(s: State, i: int, j: int)
    requires CanLeave(s) && Stacked(s)
    ensures MonoAt(Leave(s), i, j)
  {
    hide LowPassed, CutMarked;
    assert MonoAt(s, i, j);
  }

  lemma LeaveOpen(s: State, u: Node)
    requires CanLeave(s) && Stacked(s)
    ensures OpenAt(Leave(s), u)
  {
    hide LowPassed, CutMarked;
    assert OpenAt(s, u);
    if Open(Leave(s), u) {
      var i :| 0 <= i < |s.stack| && s.stack[i] == u;
      assert Leave(s).stack[i] == u;
    }
  }

  lemma LeaveFront(g: Graph, s: State, y: Node, u: Node)
    requires CanLeave(s) && Nodes(g, s) && Stacked(s)
    ensures FrontAt(Leave(s), y, u)
  {
    hide LowPassed, CutMarked;
    assert FrontAt(s, y, u);
    if Open(Leave(s), y) && u == Top(s) {
      TopLatest(g, s, y);
      assert DistinctAt(s, y, u);
    }
  }

  /** Leaving fixes the end of the interval of the top where it stands, so no subtree changes. */
  lemma LeaveIn(s: State, u: Node, w: Node)
    requires CanLeave(s) && Stacked(s)
    ensures (In(Leave(s), u, w) <==> In(s, u, w)) && End(Leave(s), u) == End(s, u)
  {
    hide LowPassed, CutMarked;
    TopOpen(s);
  }

  lemma LeaveForest(g: Graph, s: State)
    requires CanLeave(s) && Nodes(g, s) && Stacked(s) && Forest(g, s)
    ensures Forest(g, Leave(s))
  {
    hide In, End, LowPassed, CutMarked, CanLeave, Stacked, Nodes;
    forall u ensures ParentAt(g, Leave(s), u) {
      assert ParentAt(g, s, u);
      if u in s.parent && s.parent[u].Of? {
        LeaveIn(s, s.parent[u].node, u);
      }
    }
    forall u, x ensures TreeAt(Leave(s), u, x) {
      assert TreeAt(s, u, x);
      LeaveIn(s, u, x);
      if In(s, u, x) && x != u {
        LeaveIn(s, u, s.parent[x].node);
      }
    }
    forall u, x ensures NestedAt(Leave(s), u, x) {
      assert NestedAt(s, u, x);
      LeaveIn(s, u, x);
      LeaveIn(s, x, u);
    }
  }

  lemma LeaveReached(g: Graph, s: State)
    requires CanLeave(s) && Nodes(g, s) && Stacked(s) && Reached(g, s)
    ensures Reached(g, Leave(s))
  {
    hide LowPassed, CutMarked;
    var t := Leave(s);
    TopOpen(s);
    forall u, w ensures ReachAt(g, t, u, w) {
      assert ReachAt(g, s, u, w) && NodeAt(g, s, w);
    }
  }

  lemma LeaveLowBound(g: Graph, s: State)
    requires CanLeave(s) && Nodes(g, s) && Stacked(s) && Forest(g, s) && LowBound(g, s)
    ensures LowBound(g, Leave(s))
  {
    var t := Leave(s);
    TopOpen(s);
    forall u, w ensures LowEdgeAt(g, t, u, w) {
      assert LowEdgeAt(g, s, u, w);
    }
    forall c, p ensures LowChildAt(t, c, p) {
      assert LowChildAt(s, c, p) && NodeAt(g, s, c) && ParentAt(g, s, c);
    }
  }

  lemma LeaveAttained(g: Graph, s: State)
    requires CanLeave(s) && Nodes(g, s) && Stacked(s) && LowAttained(g, s)
    ensures LowAttained(g, Leave(s))
  {
    var t := Leave(s);
    TopOpen(s);
    forall u ensures AttainedAt(g, t, u) {
      assert AttainedAt(g, s, u);
      if u in s.disc && u in s.low && t.low[u] != s.disc[u] {
        if t.low[u] != s.low[u] {
          assert ViaChild(t, u, Top(s));
        } else if w :| ViaEdge(g, s, u, w) {
          assert ViaEdge(g, t, u, w);
        } else {
          var c :| ViaChild(s, u, c);
          assert ViaChild(t, u, c);
        }
      }
    }
  }

  lemma LeaveCuts(g: Graph, s: State)
    requires CanLeave(s) && Nodes(g, s) && Stacked(s) && Cuts(s)
    ensures Cuts(Leave(s))
  {
    var t := Leave(s);
    TopOpen(s);
    forall p ensures CountAt(t, p) {
      assert CountAt(s, p);
      assert Children(t, p) == Children(s, p);
    }
    forall p ensures CutAt(t, p) {
      LeaveCut(g, s, p);
    }
  }

  lemma LeaveCut(g: Graph, s: State, p: Node)
    requires CanLeave(s) && Nodes(g, s) && Stacked(s) && Cuts(s)
    ensures CutAt(Leave(s), p)
  {
    var t := Leave(s);
    var top := Top(s);
    TopOpen(s);
    assert CutAt(s, p);
    forall c | c != top ensures Blocks(t, p, c) <==> Blocks(s, p, c) {}
    assert !Blocks(s, p, top);
    if Blocks(t, p, top) {
      assert p in t.cut;
    } else if c :| Blocks(s, p, c) {
      assert Blocks(t, p, c);
    }
    assert BranchingRoot(t, p) <==> BranchingRoot(s, p) || (p == top && s.parent[top] == Root && s.children[top] > 1);
  }

  lemma LeaveInv(g: Graph, s: State)
    requires CanLeave(s) && Inv(g, s)
    ensures Inv(g, Leave(s))
  {
    LeaveNodes(g, s);
    LeaveStacked(g, s);
    LeaveForest(g, s);
    LeaveReached(g, s);
    LeaveLowBound(g, s);
    LeaveAttained(g, s);
    LeaveCuts(g, s);
  }
}
