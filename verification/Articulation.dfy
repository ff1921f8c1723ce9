/** Tarjan's articulation points with an explicit stack, proved against the definition of a
    cut vertex and with an exact iteration count. */
module Articulation {
  import opened Sums
  import opened Graphs
  import opened Ordering
  import opened DepthFirst
  import opened DepthFirstSteps
  import opened CutVertices
  import opened Pairs

  // ---------------------------------------------------------------- iteration count

  /** How many neighbours the iterator of `u` has yielded. */
  ghost function Yielded(g: Graph, s: State): Node -> real {
    (u: Node) => (|Nbrs(g, u)| - |Rest(s, u)|) as real
  }

  /** Loop iterations spent: one per yielded neighbour and one per finished node. */
  ghost predicate Spent(g: Graph, s: State, steps: nat) {
    Sum(s.disc.Keys, Yielded(g, s)) + |s.fin| as real == steps as real
  }

  /** Only nodes with an edge are ever entered. */
  ghost predicate Busy(g: Graph, s: State) {
    forall u | u in s.disc :: Nbrs(g, u) != {}
  }

  ghost function WithEdges(g: Graph): set<Node> {
    set u | u in g.nodes && Nbrs(g, u) != {}
  }

  /** The top yields one neighbour; every other iterator stays put. */
  lemma YieldOne(g: Graph, s: State, t: State, keys: set<Node>)
    requires s.stack != [] && Top(s) in keys && Top(s) in s.todo && s.todo[Top(s)] != []
    requires forall u | u in keys && u != Top(s) :: Rest(t, u) == Rest(s, u)
    requires Rest(t, Top(s)) == s.todo[Top(s)][1..]
    ensures Sum(keys, Yielded(g, t)) == Sum(keys, Yielded(g, s)) + 1.0
  {
    var top := Top(s);
    SumRemove(keys, Yielded(g, t), top);
    SumRemove(keys, Yielded(g, s), top);
    SumCongruent(keys - {top}, Yielded(g, t), Yielded(g, s));
  }

  /** The effect of entering `x`, as far as the iteration count sees it. */
  ghost predicate Entered(g: Graph, s: State, t: State, x: Node) {
    && t.disc.Keys == s.disc.Keys + {x} && x !in s.disc.Keys && t.fin == s.fin
    && Yielded(g, t)(x) == 0.0
    && (forall u | u in s.disc && (s.stack == [] || u != Top(s)) :: Rest(t, u) == Rest(s, u))
    && (s.stack != [] ==> Top(s) in s.disc && Top(s) in s.todo && s.todo[Top(s)] != []
                          && Rest(t, Top(s)) == s.todo[Top(s)][1..])
  }

  lemma EnterRest(g: Graph, s: State, x: Node)
    requires CanEnter(g, s, x) && Stacked(s)
    ensures Entered(g, s, Enter(g, s, x), x)
  {
    if s.stack != [] {
      TopOpen(s);
    }
    EnterFresh(g, s, x);
    forall u | u in s.disc ensures Rest(Enter(g, s, x), u) == RestAfter(s, u) {
      EnterRestAt(g, s, x, u);
    }
    hide Rest, Yielded, Stacked, Sorted, Nbrs;
  }

  ghost function RestAfter(s: State, u: Node): seq<Node> {
    if s.stack != [] && u == Top(s) && Rest(s, u) != [] then Rest(s, u)[1..] else Rest(s, u)
  }

  lemma EnterRestAt(g: Graph, s: State, x: Node, u: Node)
    requires CanEnter(g, s, x) && u in s.disc
    ensures Rest(Enter(g, s, x), u) == RestAfter(s, u)
  {
    hide Sorted, Nbrs;
  }

  lemma EnterFresh(g: Graph, s: State, x: Node)
    requires CanEnter(g, s, x)
    ensures Yielded(g, Enter(g, s, x))(x) == 0.0
  {
    assert Rest(Enter(g, s, x), x) == Sorted(Nbrs(g, x));
    hide Rest, Enter, Nbrs;
  }

  /** A node that enters has yielded nothing yet, so only the iterator of the top counts. */
  lemma EnterSum(g: Graph, s: State, t: State, x: Node)
    requires Entered(g, s, t, x)
    ensures Sum(t.disc.Keys, Yielded(g, t)) ==
            Sum(s.disc.Keys, Yielded(g, s)) + (if s.stack == [] then 0.0 else 1.0)
  {
    SumInsert(s.disc.Keys, Yielded(g, t), x);
    hide Sum;
    if s.stack == [] {
      SumCongruent(s.disc.Keys, Yielded(g, t), Yielded(g, s));
    } else {
      YieldOne(g, s, t, s.disc.Keys);
    }
  }

  lemma EnterSpent(g: Graph, s: State, x: Node, steps: nat)
    requires CanEnter(g, s, x) && Nodes(g, s) && Stacked(s) && Spent(g, s, steps)
    ensures Spent(g, Enter(g, s, x), if s.stack == [] then steps else steps + 1)
  {
    hide Sum, Nodes, Enter, Stacked, CanEnter, Yielded;
    EnterRest(g, s, x);
    EnterSum(g, s, Enter(g, s, x), x);
  }

  lemma LookSpent(g: Graph, s: State, steps: nat)
    requires CanLook(s) && Stacked(s) && Spent(g, s, steps)
    ensures Spent(g, Look(s), steps + 1)
  {
    hide Sum;
    TopOpen(s);
    YieldOne(g, s, Look(s), s.disc.Keys);
  }

  lemma LeaveSpent(g: Graph, s: State, steps: nat)
    requires CanLeave(s) && Stacked(s) && Spent(g, s, steps)
    ensures Spent(g, Leave(s), steps + 1)
  {
    hide Sum;
    TopOpen(s);
    var t := Leave(s);
    assert t.disc == s.disc && t.todo == s.todo && |t.fin| == |s.fin| + 1;
    hide Leave;
    SumCongruent(s.disc.Keys, Yielded(g, t), Yielded(g, s));
  }

  lemma FinishedKeys(g: Graph, s: State)
    requires Finished(g, s) && Busy(g, s)
    ensures s.fin.Keys == s.disc.Keys == WithEdges(g)
    ensures forall u | u in s.disc :: Rest(s, u) == []
  {
    forall u | u in s.disc ensures u in s.fin && u in g.nodes && Rest(s, u) == [] {
      AllLeft(g, s, u);
    }
    forall u | u in s.fin ensures u in s.disc {
      assert NodeAt(g, s, u);
    }
  }

  /** A finished search has yielded every edge from both ends and left every node with an edge. */
  lemma FinishedSpent(g: Graph, s: State, steps: nat)
    requires Finished(g, s) && Busy(g, s) && Spent(g, s, steps)
    ensures steps == 2 * |g.edges| + |WithEdges(g)|
  {
    var keys := s.disc.Keys;
    FinishedKeys(g, s);
    hide Sum, Finished, WithEdges, Nbrs;
    assert |s.fin| == |s.fin.Keys|;
    assert Sum(keys, Yielded(g, s)) == Sum(keys, Degrees(g)) by {
      SumCongruent(keys, Yielded(g, s), Degrees(g));
    }
    assert Sum(g.nodes, Degrees(g)) == Sum(keys, Degrees(g)) by {
      EdgelessDegrees(g);
      SumRestrict(g.nodes, keys, Degrees(g), Degrees(g));
    }
    TotalDegree(g);
  }

  lemma EdgelessDegrees(g: Graph)
    ensures WithEdges(g) <= g.nodes && forall u | u in g.nodes - WithEdges(g) :: Degrees(g)(u) == 0.0
  {}

  // ---------------------------------------------------------------- between two runs

  ghost function Forget(s: State): State {
    s.(todo := map[])
  }

  /** Once the stack is empty the iterators may be dropped. */
  lemma ForgetInv(g: Graph, s: State)
    requires Inv(g, s) && s.stack == []
    ensures Inv(g, Forget(s))
  {
    var t := Forget(s);
    forall u ensures Rest(t, u) == Rest(s, u) || u !in s.disc {
      assert NodeAt(g, s, u) && OpenAt(s, u);
    }
    forall u ensures NodeAt(g, t, u) { assert NodeAt(g, s, u); }
    forall u, w ensures DistinctAt(t, u, w) { assert DistinctAt(s, u, w); }
    forall i ensures ChainAt(t, i) { assert ChainAt(s, i); }
    forall i, j ensures MonoAt(t, i, j) { assert MonoAt(s, i, j); }
    forall u ensures OpenAt(t, u) { assert OpenAt(s, u); }
    forall x, u ensures FrontAt(t, x, u) { assert FrontAt(s, x, u); }
    ForgetForest(g, s);
    ForgetLow(g, s);
  }

  lemma ForgetForest(g: Graph, s: State)
    requires Inv(g, s) && s.stack == []
    ensures Forest(g, Forget(s)) && Cuts(Forget(s))
  {
    var t := Forget(s);
    forall u, x ensures In(t, u, x) <==> In(s, u, x) {}
    forall u ensures ParentAt(g, t, u) { assert ParentAt(g, s, u); }
    forall u, x ensures TreeAt(t, u, x) { assert TreeAt(s, u, x); }
    forall u, x ensures NestedAt(t, u, x) { assert NestedAt(s, u, x); }
    forall p ensures CountAt(t, p) {
      assert CountAt(s, p);
      assert Children(t, p) == Children(s, p);
    }
    forall p ensures CutAt(t, p) {
      assert CutAt(s, p);
      forall c ensures Blocks(t, p, c) <==> Blocks(s, p, c) {}
    }
  }

  lemma ForgetLow(g: Graph, s: State)
    requires Inv(g, s) && s.stack == []
    ensures Reached(g, Forget(s)) && LowBound(g, Forget(s)) && LowAttained(g, Forget(s))
  {
    var t := Forget(s);
    forall u, w ensures Explored(g, t, u, w) <==> Explored(g, s, u, w) {
      assert NodeAt(g, s, u) && OpenAt(s, u);
    }
    forall u, w ensures ReachAt(g, t, u, w) { assert ReachAt(g, s, u, w); }
    forall u, w ensures LowEdgeAt(g, t, u, w) { assert LowEdgeAt(g, s, u, w); }
    forall c, p ensures LowChildAt(t, c, p) { assert LowChildAt(s, c, p); }
    forall u ensures AttainedAt(g, t, u) {
      assert AttainedAt(g, s, u);
      if w :| ViaEdge(g, s, u, w) {
        assert ViaEdge(g, t, u, w);
      } else if c :| ViaChild(s, u, c) {
        assert ViaChild(t, u, c);
      }
    }
  }

  lemma ForgetSpent(g: Graph, s: State, steps: nat)
    requires Inv(g, s) && s.stack == [] && Spent(g, s, steps)
    ensures Spent(g, Forget(s), steps)
  {
    forall u | u in s.disc ensures Rest(Forget(s), u) == Rest(s, u) {
      assert NodeAt(g, s, u) && OpenAt(s, u);
    }
    SumCongruent(s.disc.Keys, Yielded(g, Forget(s)), Yielded(g, s));
  }

  /** What holds whenever the stack is empty, before and after each run. */
  ghost predicate Between(g: Graph, s: State, steps: nat) {
    Inv(g, s) && Busy(g, s) && Spent(g, s, steps) && s.stack == [] && s.todo == map[]
  }

  ghost predicate During(g: Graph, s: State, steps: nat) {
    Inv(g, s) && Busy(g, s) && Spent(g, s, steps)
  }

  /** The invariant allows exactly the step the loop body takes. */
  lemma Enabled(g: Graph, s: State, steps: nat)
    requires During(g, s, steps) && s.stack != []
    ensures var top := Top(s);
            && top in s.parent && top in s.low && top in s.children && top in s.disc
            && (Rest(s, top) == [] ==> CanLeave(s))
            && (Rest(s, top) != [] ==>
                  top in s.todo && (s.todo[top][0] in s.disc ==> CanLook(s))
                  && (s.todo[top][0] !in s.disc ==> CanEnter(g, s, s.todo[top][0]) && s.todo[top][0] in Nbrs(g, top)))
  {
    TopOpen(s);
    var top := Top(s);
    assert NodeAt(g, s, top);
    if s.parent[top].Of? {
      assert NodeAt(g, s, s.parent[top].node);
    }
    if Rest(s, top) != [] {
      assert s.todo[top][0] in s.todo[top];
    }
  }

  lemma InvStacked(g: Graph, s: State)
    requires Inv(g, s)
    ensures Stacked(s)
  {}

  lemma EnterRoot(g: Graph, s: State, x: Node)
    requires CanEnter(g, s, x) && s.stack == [] && s.todo == map[]
    ensures Enter(g, s, x) ==
            State(s.disc[x := s.timer], s.low[x := s.timer], s.parent[x := Root], s.children[x := 0], s.cut,
                  s.timer + 1, [x], map[x := Sorted(Nbrs(g, x))], s.fin)
  {
    assert [] + [x] == [x];
  }

  lemma StartStep(g: Graph, s: State, steps: nat, start: Node)
    requires Valid(g) && Between(g, s, steps) && start in g.nodes && start !in s.disc && Nbrs(g, start) != {}
    ensures CanEnter(g, s, start) && During(g, Enter(g, s, start), steps)
  {
    EnterInv(g, s, start);
    EnterSpent(g, s, start, steps);
  }

  lemma StartRun(g: Graph, adj: map<Node, set<Node>>, s: State, steps: nat, start: Node)
    requires Valid(g) && IsAdjacency(g, adj) && Between(g, s, steps)
    requires start in g.nodes && start !in s.disc && Nbrs(g, start) != {}
    ensures During(g, State(s.disc[start := s.timer], s.low[start := s.timer], s.parent[start := Root],
                            s.children[start := 0], s.cut, s.timer + 1, [start],
                            map[start := Sorted(Get(adj, start))], s.fin), steps)
  {
    hide During, Enter, Inv, Nbrs, CanEnter, Get, Sorted;
    GetNbrs(g, adj, start);
    StartStep(g, s, steps, start);
    EnterRoot(g, s, start);
  }

  lemma EnterStep(g: Graph, s: State, steps: nat, x: Node)
    requires Valid(g) && During(g, s, steps) && s.stack != [] && CanEnter(g, s, x) && x in Nbrs(g, Top(s))
    ensures During(g, Enter(g, s, x), steps + 1)
  {
    EnterInv(g, s, x);
    EnterSpent(g, s, x, steps);
    TopOpen(s);
    assert NodeAt(g, s, Top(s));
    NbrsSymmetric(g, Top(s), x);
  }

  lemma LookStep(g: Graph, s: State, steps: nat)
    requires During(g, s, steps) && CanLook(s)
    ensures During(g, Look(s), steps + 1)
  {
    LookInv(g, s);
    LookSpent(g, s, steps);
  }

  lemma LeaveStep(g: Graph, s: State, steps: nat)
    requires During(g, s, steps) && CanLeave(s)
    ensures During(g, Leave(s), steps + 1)
  {
    hide Inv, Spent, Nbrs, CanLeave, Stacked;
    LeaveInv(g, s);
    assert Stacked(s) by { InvStacked(g, s); }
    LeaveSpent(g, s, steps);
    assert Leave(s).disc == s.disc;
  }

  lemma EndRun(g: Graph, s: State, steps: nat)
    requires During(g, s, steps) && s.stack == []
    ensures Between(g, Forget(s), steps)
  {
    ForgetInv(g, s);
    ForgetSpent(g, s, steps);
  }

  lemma VisitedNodes(g: Graph, s: State, steps: nat)
    requires During(g, s, steps)
    ensures s.disc.Keys <= g.nodes && |s.disc| <= |g.nodes|
  {
    forall u | u in s.disc ensures u in g.nodes {
      assert NodeAt(g, s, u);
    }
    SubsetSize(s.disc.Keys, g.nodes);
  }

  lemma NothingVisited(g: Graph)
    ensures Between(g, State(map[], map[], map[], map[], {}, 0, [], map[], map[]), 0)
  {
    var s := State(map[], map[], map[], map[], {}, 0, [], map[], map[]);
    forall p ensures CountAt(s, p) && CutAt(s, p) {}
  }

  // ---------------------------------------------------------------- the algorithm

  lemma EnterChild(g: Graph, s: State, x: Node, node: Node)
    requires CanEnter(g, s, x) && s.stack != [] && node == Top(s)
    ensures Enter(g, s, x) ==
            State(s.disc[x := s.timer], s.low[x := s.timer], s.parent[x := Of(node)],
                  s.children[node := s.children[node] + 1][x := 0], s.cut, s.timer + 1, s.stack + [x],
                  s.todo[node := s.todo[node][1..]][x := Sorted(Nbrs(g, x))], s.fin)
  {}

  lemma LookAt(s: State, node: Node)
    requires CanLook(s) && node == Top(s)
    ensures Look(s) ==
            State(s.disc, if Of(s.todo[node][0]) != s.parent[node]
                          then s.low[node := Least(s.low[node], s.disc[s.todo[node][0]])] else s.low,
                  s.parent, s.children, s.cut, s.timer, s.stack, s.todo[node := s.todo[node][1..]], s.fin)
  {}

  /** The branch taken when the iterator of the top is exhausted. */
  method Retreat(g: Graph, disc: map<Node, int>, low0: map<Node, int>, parent: map<Node, Parent>,
                 children: map<Node, int>, cut0: set<Node>, node: Node, ghost s: State, ghost steps: nat)
    returns (low: map<Node, int>, cut: set<Node>)
    requires During(g, s, steps) && s.stack != [] && node == Top(s) && Rest(s, node) == []
    requires s.disc == disc && s.low == low0 && s.parent == parent && s.children == children && s.cut == cut0
    ensures During(g, State(disc, low, parent, children, cut, s.timer, s.stack[..|s.stack| - 1], s.todo,
                            s.fin[node := s.timer]), steps + 1)
  {
    hide Inv, Busy, Spent, Nbrs, During;
    Enabled(g, s, steps);
    low, cut := low0, cut0;
    if parent[node] == Root {
      if children[node] > 1 {
        cut := cut + {node};
      }
    } else {
      var up := parent[node].node;
      low := low[up := Least(low[up], low[node])];
      if parent[up] != Root && low[node] >= disc[up] {
        cut := cut + {up};
      }
    }
    LeaveStep(g, s, steps);
  }

  /** The branch taken when the next neighbour is new. */
  method Discover(g: Graph, adj: map<Node, set<Node>>, node: Node, neighbor: Node, disc0: map<Node, int>,
                  low0: map<Node, int>, parent0: map<Node, Parent>, children0: map<Node, int>, timer0: int,
                  stack0: seq<Node>, neighbors0: map<Node, seq<Node>>, ghost s: State, ghost steps: nat)
    returns (disc: map<Node, int>, low: map<Node, int>, parent: map<Node, Parent>, children: map<Node, int>,
             timer: int, stack: seq<Node>, neighbors: map<Node, seq<Node>>)
    requires Valid(g) && IsAdjacency(g, adj) && During(g, s, steps) && s.stack != [] && node == Top(s)
    requires s == State(disc0, low0, parent0, children0, s.cut, timer0, stack0, neighbors0, s.fin)
    requires Rest(s, node) != [] && neighbor == Rest(s, node)[0] && neighbor !in disc0
    ensures During(g, State(disc, low, parent, children, s.cut, timer, stack, neighbors, s.fin), steps + 1)
    ensures disc.Keys == disc0.Keys + {neighbor} && |disc0| < |disc| <= |g.nodes|
  {
    hide Inv, Busy, Spent, Nbrs, IsAdjacency, Valid, During, Get, Enter, Sorted;
    Enabled(g, s, steps);
    neighbors := neighbors0[node := neighbors0[node][1..]];
    parent := parent0[neighbor := Of(node)];
    children := children0[node := children0[node] + 1];
    children := children[neighbor := 0];
    disc, low := disc0[neighbor := timer0], low0[neighbor := timer0];
    timer := timer0 + 1;
    neighbors := neighbors[neighbor := Sorted(Get(adj, neighbor))];
    stack := stack0 + [neighbor];
    GetNbrs(g, adj, neighbor);
    EnterStep(g, s, steps, neighbor);
    EnterChild(g, s, neighbor, node);
    VisitedNodes(g, State(disc, low, parent, children, s.cut, timer, stack, neighbors, s.fin), steps + 1);
  }

  /** The branch taken when the next neighbour was discovered before. */
  method Revisit(g: Graph, node: Node, neighbor: Node, disc: map<Node, int>, low0: map<Node, int>,
                 parent: map<Node, Parent>, neighbors0: map<Node, seq<Node>>, ghost s: State, ghost steps: nat)
    returns (low: map<Node, int>, neighbors: map<Node, seq<Node>>)
    requires During(g, s, steps) && s.stack != [] && node == Top(s)
    requires s.disc == disc && s.low == low0 && s.parent == parent && s.todo == neighbors0
    requires Rest(s, node) != [] && neighbor == Rest(s, node)[0] && neighbor in disc
    ensures During(g, State(disc, low, parent, s.children, s.cut, s.timer, s.stack, neighbors, s.fin), steps + 1)
    ensures |Left(neighbors, node)| < |Rest(s, node)|
  {
    hide Inv, Busy, Spent, Nbrs, During;
    Enabled(g, s, steps);
    neighbors := neighbors0[node := neighbors0[node][1..]];
    low := low0;
    if Of(neighbor) != parent[node] {
      low := low[node := Least(low[node], disc[neighbor])];
    }
    LookStep(g, s, steps);
    LookAt(s, node);
  }

  /** The run has discovered `start` and forgotten nobody. */
  ghost predicate Grown(before: map<Node, int>, start: Node, disc: map<Node, int>) {
    forall u | u in before || u == start :: u in disc
  }

  lemma GrownStart(before: map<Node, int>, start: Node, time: int)
    ensures Grown(before, start, before[start := time])
  {}

  lemma GrownBy(before: map<Node, int>, start: Node, disc: map<Node, int>, more: map<Node, int>, x: Node)
    requires Grown(before, start, disc) && more.Keys == disc.Keys + {x}
    ensures Grown(before, start, more)
  {
    forall u | u in disc ensures u in more {
      assert u in more.Keys;
    }
  }

  lemma GrownEnd(before: map<Node, int>, start: Node, disc: map<Node, int>)
    requires Grown(before, start, disc)
    ensures forall u | u in before || u == start :: u in disc
  {}

  /** One depth-first run from `start`; every iteration of its loop is counted in `steps`. */
  method Explore(g: Graph, adj: map<Node, set<Node>>, start: Node,
                 disc0: map<Node, int>, low0: map<Node, int>, parent0: map<Node, Parent>, children0: map<Node, int>,
                 cut0: set<Node>, timer0: int, ghost fin0: map<Node, int>, ghost steps0: nat)
    returns (disc: map<Node, int>, low: map<Node, int>, parent: map<Node, Parent>, children: map<Node, int>,
             cut: set<Node>, timer: int, ghost fin: map<Node, int>, ghost steps: nat)
    requires Valid(g) && IsAdjacency(g, adj) && start in g.nodes && start !in disc0 && Nbrs(g, start) != {}
    requires Between(g, State(disc0, low0, parent0, children0, cut0, timer0, [], map[], fin0), steps0)
    ensures Between(g, State(disc, low, parent, children, cut, timer, [], map[], fin), steps)
    ensures forall u | u in disc0 || u == start :: u in disc
  {
    hide Inv, Busy, Spent, Nbrs, IsAdjacency, Valid, Between, During, Get, Enter, Sorted, Left, Grown;
    GrownStart(disc0, start, timer0);
    StartRun(g, adj, State(disc0, low0, parent0, children0, cut0, timer0, [], map[], fin0), steps0, start);
    parent, children := parent0[start := Root], children0[start := 0];
    disc, low := disc0[start := timer0], low0[start := timer0];
    timer := timer0 + 1;
    cut, fin, steps := cut0, fin0, steps0;
    var stack: seq<Node> := [start];
    var neighbors: map<Node, seq<Node>> := map[start := Sorted(Get(adj, start))];
    while stack != []
      invariant During(g, State(disc, low, parent, children, cut, timer, stack, neighbors, fin), steps)
      invariant Grown(disc0, start, disc)
      decreases |g.nodes| - |disc|, |stack|, if stack == [] then 0 else |Left(neighbors, stack[|stack| - 1])|
    {
      ghost var s := State(disc, low, parent, children, cut, timer, stack, neighbors, fin);
      var node := stack[|stack| - 1];
      if Left(neighbors, node) == [] {
        low, cut := Retreat(g, disc, low, parent, children, cut, node, s, steps);
        stack := stack[..|stack| - 1];
        fin := fin[node := timer];
      } else {
        var neighbor := Left(neighbors, node)[0];
        if neighbor !in disc {
          ghost var before := disc;
          disc, low, parent, children, timer, stack, neighbors :=
            Discover(g, adj, node, neighbor, disc, low, parent, children, timer, stack, neighbors, s, steps);
          GrownBy(disc0, start, before, disc, neighbor);
        } else {
          low, neighbors := Revisit(g, node, neighbor, disc, low, parent, neighbors, s, steps);
        }
      }
      steps := steps + 1;
    }
    EndRun(g, State(disc, low, parent, children, cut, timer, stack, neighbors, fin), steps);
    GrownEnd(disc0, start, disc);
  }

  /** The articulation points are exactly the cut vertices; all runs together take one iteration
      per edge end and one per node that has an edge. */
  method ArticulationPoints(g: Graph) returns (cut: set<Node>, ghost steps: nat)
    requires Valid(g)
    ensures forall v :: v in cut <==> IsCut(g, v)
    ensures steps == 2 * |g.edges| + |WithEdges(g)|
  {
    hide Inv, Busy, Spent, Nbrs, IsAdjacency, Valid, Sorted;
    var adj := Adjacency(g);
    var disc: map<Node, int>, low: map<Node, int> := map[], map[];
    var parent: map<Node, Parent>, children: map<Node, int> := map[], map[];
    var timer: int := 0;
    ghost var fin: map<Node, int> := map[];
    cut, steps := {}, 0;
    NothingVisited(g);
    var order := Sorted(g.nodes);
    for i := 0 to |order|
      invariant Between(g, State(disc, low, parent, children, cut, timer, [], map[], fin), steps)
      invariant forall k | 0 <= k < i :: order[k] in disc || Nbrs(g, order[k]) == {}
    {
      var node := order[i];
      GetNbrs(g, adj, node);
      if node !in disc && node in adj {
        ghost var before := disc;
        disc, low, parent, children, cut, timer, fin, steps :=
          Explore(g, adj, node, disc, low, parent, children, cut, timer, fin, steps);
        assert forall u | u in before :: u in disc;
      }
    }
    ghost var s := State(disc, low, parent, children, cut, timer, [], map[], fin);
    assert Finished(g, s);
    FinishedSpent(g, s, steps);
    forall v ensures v in cut <==> IsCut(g, v) {
      MarkedIffCut(g, s, v);
    }
  }
}
