/** Brandes' betweenness centrality, proved against shares of shortest paths over node pairs. */
module Betweenness {
  import opened Sums
  import opened Graphs
  import opened Ordering
  import opened Pairs
  import opened Distances
  import opened Dependencies
  import opened Components
  import opened BreadthFirst
  import opened PathCounts

  // ---------------------------------------------------------------- the search

  /** One search from `source`: the nodes in the order they were taken, with path counts and
      predecessor lists. */
  method CountPaths(g: Graph, adj: map<Node, set<Node>>, source: Node)
    returns (stack: seq<Node>, count: map<Node, int>, predecessors: map<Node, seq<Node>>, ghost dist: map<Node, int>)
    requires Valid(g) && IsAdjacency(g, adj) && source in g.nodes
    ensures Complete(g, source, stack, dist, count, predecessors)
    ensures forall v :: v in stack <==> Conn(g, {}, source, v)
    ensures forall i, j | 0 <= i < j < |stack| ::
              stack[i] != stack[j] && Dist(g, source, stack[i]) <= Dist(g, source, stack[j])
    ensures forall v | v in stack :: Tally(count, v) == Sigma(g, source, v)
    ensures forall u, w :: u in Listed(predecessors, w) <==> Conn(g, {}, source, u) && w in Succ(g, source, u)
  {
    hide Layered, Counted, Valid, Nbrs, Sorted, IsAdjacency, Get, Conn, Dist, Sigma, Succ, Tally, Listed, Complete;
    var distance: map<Node, int> := map[source := 0];
    count, predecessors := map[source := 1], map[];
    var queue: seq<Node> := [source];
    stack := [];
    ghost var order := [source];
    LayeredStart(g, source);
    CountedStart(g, source);
    while queue != []
      invariant order == stack + queue
      invariant Layered(g, source, order, |stack|, distance, {})
      invariant Counted(g, source, order, |stack|, distance, {}, count, predecessors)
      decreases g.nodes - distance.Keys, |queue|
    {
      LayeredTake(g, source, order, |stack|, distance);
      CountedTake(g, source, order, |stack|, distance, count, predecessors);
      var node := queue[0];
      assert order == (stack + [node]) + queue[1..];
      queue := queue[1..];
      stack := stack + [node];
      LayeredKeys(g, source, order, |stack|, distance, Nbrs(g, node));
      distance, count, predecessors, queue :=
        Spread(g, adj, source, node, stack, distance, count, predecessors, queue, order);
      order := stack + queue;
    }
    dist := distance;
    assert order == stack;
    CompleteIs(g, source, stack, dist, count, predecessors);
    CompleteMeans(g, source, stack, dist, count, predecessors);
  }

  /** The loop over the sorted neighbours of the node just taken. */
  method Spread(g: Graph, adj: map<Node, set<Node>>, ghost source: Node, node: Node, ghost stack: seq<Node>,
                dist0: map<Node, int>, count0: map<Node, int>, predecessors0: map<Node, seq<Node>>,
                queue0: seq<Node>, ghost order0: seq<Node>)
    returns (dist: map<Node, int>, count: map<Node, int>, predecessors: map<Node, seq<Node>>, queue: seq<Node>)
    requires Valid(g) && IsAdjacency(g, adj) && stack != [] && stack[|stack| - 1] == node && order0 == stack + queue0
    requires Layered(g, source, order0, |stack|, dist0, Nbrs(g, node)) && dist0.Keys <= g.nodes
    requires Counted(g, source, order0, |stack|, dist0, Nbrs(g, node), count0, predecessors0)
    ensures Layered(g, source, stack + queue, |stack|, dist, {})
    ensures Counted(g, source, stack + queue, |stack|, dist, {}, count, predecessors)
    ensures dist0.Keys <= dist.Keys <= g.nodes && (dist.Keys == dist0.Keys ==> |queue| == |queue0|)
  {
    hide Layered, Counted, Valid, Nbrs, Sorted, IsAdjacency, Get;
    dist, count, predecessors, queue := dist0, count0, predecessors0, queue0;
    GetNbrs(g, adj, node);
    var list := Sorted(Get(adj, node));
    ghost var pending := Nbrs(g, node);
    ghost var k := |stack|;
    ghost var order := order0;
    for i := 0 to |list|
      invariant order == stack + queue && order[k - 1] == node
      invariant forall x :: x in pending <==> x in list[i..]
      invariant Layered(g, source, order, k, dist, pending)
      invariant Counted(g, source, order, k, dist, pending, count, predecessors)
      invariant dist0.Keys <= dist.Keys <= g.nodes && (dist.Keys == dist0.Keys ==> |queue| == |queue0|)
    {
      var neighbor := list[i];
      assert neighbor in Nbrs(g, node) by { assert neighbor in list; }
      assert neighbor in pending by { assert list[i..][0] == neighbor; }
      CurrentKnown(g, source, order, k, dist, pending);
      if neighbor !in dist {
        LayeredAdd(g, source, order, k, dist, pending, neighbor);
        CountedAdd(g, source, order, k, dist, pending, count, predecessors, neighbor);
        dist := dist[neighbor := dist[node] + 1];
        queue := queue + [neighbor];
        order := order + [neighbor];
        assert order == stack + queue;
      }
      LayeredSee(g, source, order, k, dist, pending, neighbor);
      LayeredKeys(g, source, order, k, dist, pending);
      if dist[neighbor] == dist[node] + 1 {
        var count' := count[neighbor := Tally(count, neighbor) + Tally(count, node)];
        var predecessors' := predecessors[neighbor := Listed(predecessors, neighbor) + [node]];
        CountedCredit(g, source, order, k, dist, pending, count, predecessors, neighbor, count', predecessors');
        count, predecessors := count', predecessors';
      } else {
        CountedSkip(g, source, order, k, dist, pending, count, predecessors, neighbor);
      }
      DropFirst(list, i, pending);
      pending := pending - {neighbor};
    }
    assert pending == {} by {
      assert list[|list|..] == [];
      assert forall x :: x !in pending;
    }
  }

  // ---------------------------------------------------------------- the accumulation

  /** Nodes taken off the stack that list `v` as a predecessor. */
  ghost function Credit(preds: map<Node, seq<Node>>, popped: set<Node>, v: Node): set<Node> {
    set w | w in popped && v in Listed(preds, w)
  }

  ghost predicate DependsAt(g: Graph, s: Node, credit: set<Node>, dep: map<Node, real>, v: Node) {
    v in dep ==> dep[v] == Sum(credit, Passed(g, s, v))
  }

  /** Between two pops: every node has collected what the popped nodes pass back. */
  ghost predicate Collected(g: Graph, s: Node, preds: map<Node, seq<Node>>, popped: set<Node>, dep: map<Node, real>) {
    forall v :: DependsAt(g, s, Credit(preds, popped, v), dep, v)
  }

  /** While `node` is passing its share to the predecessors in `served`. */
  ghost function Partial(preds: map<Node, seq<Node>>, popped: set<Node>, node: Node, served: seq<Node>,
                         v: Node): set<Node> {
    Credit(preds, popped, v) + (if v in served then {node} else {})
  }

  ghost predicate Collecting(g: Graph, s: Node, preds: map<Node, seq<Node>>, popped: set<Node>, node: Node,
                             served: seq<Node>, dep: map<Node, real>) {
    forall v :: DependsAt(g, s, Partial(preds, popped, node, served, v), dep, v)
  }

  lemma CollectedStart(g: Graph, s: Node, preds: map<Node, seq<Node>>, dep: map<Node, real>)
    requires forall v | v in dep :: dep[v] == 0.0
    ensures Collected(g, s, preds, {}, dep)
  {
    forall v ensures DependsAt(g, s, Credit(preds, {}, v), dep, v) {
      assert Credit(preds, {}, v) == {};
    }
  }

  lemma CollectingStart(g: Graph, s: Node, preds: map<Node, seq<Node>>, popped: set<Node>, node: Node,
                        dep: map<Node, real>)
    requires Collected(g, s, preds, popped, dep)
    ensures Collecting(g, s, preds, popped, node, [], dep)
  {
    hide Sum, Passed;
    forall v ensures DependsAt(g, s, Partial(preds, popped, node, [], v), dep, v) {
      assert DependsAt(g, s, Credit(preds, popped, v), dep, v);
      assert Partial(preds, popped, node, [], v) == Credit(preds, popped, v);
    }
  }

  lemma CollectingStep(g: Graph, s: Node, preds: map<Node, seq<Node>>, popped: set<Node>, node: Node,
                       served: seq<Node>, dep: map<Node, real>, pred: Node, factor: real)
    requires Collecting(g, s, preds, popped, node, served, dep)
    requires pred !in served && node !in popped && pred in dep && factor == Passed(g, s, pred)(node)
    ensures Collecting(g, s, preds, popped, node, served + [pred], dep[pred := dep[pred] + factor])
  {
    hide Sum, Passed;
    var dep' := dep[pred := dep[pred] + factor];
    forall v ensures DependsAt(g, s, Partial(preds, popped, node, served + [pred], v), dep', v) {
      var before := Partial(preds, popped, node, served, v);
      assert DependsAt(g, s, before, dep, v);
      if v == pred {
        assert Partial(preds, popped, node, served + [pred], v) == before + {node};
        SumInsert(before, Passed(g, s, v), node);
      } else {
        assert Partial(preds, popped, node, served + [pred], v) == before;
      }
    }
  }

  lemma CollectingEnd(g: Graph, s: Node, preds: map<Node, seq<Node>>, popped: set<Node>, node: Node,
                      dep: map<Node, real>)
    requires Collecting(g, s, preds, popped, node, Listed(preds, node), dep)
    ensures Collected(g, s, preds, popped + {node}, dep)
  {
    forall v ensures DependsAt(g, s, Credit(preds, popped + {node}, v), dep, v) {
      var part := Partial(preds, popped, node, Listed(preds, node), v);
      assert DependsAt(g, s, part, dep, v);
      assert part == Credit(preds, popped + {node}, v);
    }
  }

  /** When a node is popped, all its successors have been popped, so its sum is complete. */
  lemma PoppedIsFinal(g: Graph, s: Node, order: seq<Node>, dist: map<Node, int>, count: map<Node, int>,
                      preds: map<Node, seq<Node>>, i: nat, dep: map<Node, real>)
    requires Valid(g) && Complete(g, s, order, dist, count, preds) && i < |order| && order[i] in dep
    requires Collected(g, s, preds, Elements(order[i + 1..]), dep)
    ensures dep[order[i]] == Dependency(g, s, order[i])
    ensures Conn(g, {}, s, order[i]) && order[i] !in Elements(order[i + 1..])
  {
    hide Sum;
    var node, popped := order[i], Elements(order[i + 1..]);
    assert QueuedAt(order, dist, node);
    DistancesExact(g, s, order, dist, node);
    forall w ensures w in Credit(preds, popped, node) <==> w in Succ(g, s, node) {
      PredsExact(g, s, order, dist, count, preds, node, w);
      if w in Succ(g, s, node) {
        LaterInOrder(g, s, order, dist, count, preds, i, w);
      }
    }
    assert Credit(preds, popped, node) == Succ(g, s, node);
    assert DependsAt(g, s, Credit(preds, popped, node), dep, node);
    Recurrence(g, s, node);
    forall k | i + 1 <= k < |order| ensures order[k] != node { assert OrderAt(order, dist, i, k); }
  }

  lemma LaterInOrder(g: Graph, s: Node, order: seq<Node>, dist: map<Node, int>, count: map<Node, int>,
                     preds: map<Node, seq<Node>>, i: nat, w: Node)
    requires Valid(g) && Complete(g, s, order, dist, count, preds) && i < |order| && order[i] in Listed(preds, w)
    ensures w in Elements(order[i + 1..])
  {
    PredTally(g, s, order, dist, count, preds, order[i], w);
    assert QueuedAt(order, dist, w);
    var j :| 0 <= j < |order| && order[j] == w;
    assert OrderAt(order, dist, j, i);
    assert w == order[i + 1..][j - (i + 1)];
  }

  /** The factor computed from the tables is what the recurrence passes back. */
  lemma FactorIs(g: Graph, s: Node, order: seq<Node>, dist: map<Node, int>, count: map<Node, int>,
                 preds: map<Node, seq<Node>>, pred: Node, node: Node, d: real)
    requires Valid(g) && Complete(g, s, order, dist, count, preds) && pred in Listed(preds, node)
    requires d == Dependency(g, s, node)
    ensures Tally(count, node) > 0
    ensures (1.0 + d) * Tally(count, pred) as real / Tally(count, node) as real == Passed(g, s, pred)(node)
  {
    hide Sum, Sigma, Dist, Complete, Dependency;
    PredTally(g, s, order, dist, count, preds, pred, node);
    CountsExact(g, s, order, dist, count, preds, pred);
    CountsExact(g, s, order, dist, count, preds, node);
    PredsExact(g, s, order, dist, count, preds, pred, node);
    DistIs(g, s, node);
    var a, b, c := 1.0 + d, Sigma(g, s, pred) as real, Sigma(g, s, node) as real;
    Regroup(a, b, c);
  }

  lemma Regroup(a: real, b: real, c: real)
    requires c > 0.0
    ensures a * b / c == a * (b / c)
  {}

  /** A node out of reach of the source depends on nothing. */
  lemma Unreachable(g: Graph, s: Node, v: Node)
    requires Valid(g) && !Conn(g, {}, s, v)
    ensures Dependency(g, s, v) == 0.0
  {
    hide Sum, Share, Dist, Conn, Sigma, Valid;
    var c := Comp(g, {}, s) - {v};
    forall t | t in c ensures ShareOf(g, s, v)(t) == 0.0 {
      ShareFormula(g, s, t, v);
    }
    SumConstant(c, 0.0, ShareOf(g, s, v));
  }

  // ---------------------------------------------------------------- per-source bookkeeping

  /** What a source adds to the score of `v`. */
  ghost function Received(g: Graph, v: Node): Node -> real {
    (s: Node) => if s == v then 0.0 else Dependency(g, s, v)
  }

  ghost predicate ScoredAt(g: Graph, s: Node, popped: set<Node>, bc0: map<Node, real>, bc: map<Node, real>, v: Node) {
    v in bc0 ==> v in bc && bc[v] == bc0[v] + (if v in popped then Received(g, v)(s) else 0.0)
  }

  ghost predicate Scored(g: Graph, s: Node, popped: set<Node>, bc0: map<Node, real>, bc: map<Node, real>) {
    bc.Keys == bc0.Keys && forall v :: ScoredAt(g, s, popped, bc0, bc, v)
  }

  lemma ScoredStep(g: Graph, s: Node, popped: set<Node>, bc0: map<Node, real>, bc: map<Node, real>, node: Node, d: real)
    requires Scored(g, s, popped, bc0, bc) && node !in popped && d == Dependency(g, s, node) && node in bc
    ensures node != s ==> Scored(g, s, popped + {node}, bc0, bc[node := bc[node] + d])
    ensures node == s ==> Scored(g, s, popped + {node}, bc0, bc)
  {
    hide Dependency;
    var bc' := if node != s then bc[node := bc[node] + d] else bc;
    forall v ensures ScoredAt(g, s, popped + {node}, bc0, bc', v) {
      assert ScoredAt(g, s, popped, bc0, bc, v);
    }
  }

  lemma ScoredEnd(g: Graph, s: Node, order: seq<Node>, dist: map<Node, int>, bc0: map<Node, real>, bc: map<Node, real>)
    requires Valid(g) && Exhausted(g, s, order, dist) && Scored(g, s, Elements(order), bc0, bc)
    ensures bc.Keys == bc0.Keys && forall v | v in bc :: bc[v] == bc0[v] + Received(g, v)(s)
  {
    hide Dependency;
    forall v | v in bc ensures bc[v] == bc0[v] + Received(g, v)(s) {
      assert ScoredAt(g, s, Elements(order), bc0, bc, v);
      assert QueuedAt(order, dist, v);
      DistancesExact(g, s, order, dist, v);
      if v !in dist {
        Unreachable(g, s, v);
      }
    }
  }

  /** Passes the share of the popped `node` back to its predecessors. */
  method PassBack(g: Graph, ghost s: Node, ghost order: seq<Node>, ghost dist: map<Node, int>,
                  count: map<Node, int>, preds: map<Node, seq<Node>>, ghost popped: set<Node>, node: Node,
                  dep0: map<Node, real>)
    returns (dep: map<Node, real>)
    requires Valid(g) && Complete(g, s, order, dist, count, preds)
    requires dep0.Keys == g.nodes && node in g.nodes && node !in popped
    requires Collected(g, s, preds, popped, dep0) && dep0[node] == Dependency(g, s, node)
    ensures dep.Keys == g.nodes && dep[node] == dep0[node]
    ensures Collected(g, s, preds, popped + {node}, dep)
  {
    hide Collected, Collecting, Complete, Valid, Dependency, Passed;
    dep := dep0;
    var list := Listed(preds, node);
    CollectingStart(g, s, preds, popped, node, dep);
    PredsDistinct(g, s, order, dist, count, preds, node);
    for j := 0 to |list|
      invariant dep.Keys == g.nodes && dep[node] == dep0[node]
      invariant Collecting(g, s, preds, popped, node, list[..j], dep)
    {
      var pred := list[j];
      PredIsNode(g, s, order, dist, count, preds, pred, node);
      FactorIs(g, s, order, dist, count, preds, pred, node, dep[node]);
      var factor := (1.0 + dep[node]) * Tally(count, pred) as real / Tally(count, node) as real;
      CollectingStep(g, s, preds, popped, node, list[..j], dep, pred, factor);
      dep := dep[pred := dep[pred] + factor];
      assert list[..j] + [pred] == list[..j + 1];
    }
    assert list[..|list|] == list;
    CollectingEnd(g, s, preds, popped, node, dep);
  }

  lemma PredsDistinct(g: Graph, s: Node, order: seq<Node>, dist: map<Node, int>, count: map<Node, int>,
                      preds: map<Node, seq<Node>>, node: Node)
    requires Complete(g, s, order, dist, count, preds)
    ensures Distinct(Listed(preds, node))
  {
    assert ListAt(preds, node);
  }

  lemma PredIsNode(g: Graph, s: Node, order: seq<Node>, dist: map<Node, int>, count: map<Node, int>,
                   preds: map<Node, seq<Node>>, pred: Node, node: Node)
    requires Valid(g) && Complete(g, s, order, dist, count, preds) && pred in Listed(preds, node)
    ensures pred in g.nodes && pred != node
  {
    PredTally(g, s, order, dist, count, preds, pred, node);
    LayeredKeys(g, s, order, |order|, dist, {});
  }

  lemma OrderNodes(g: Graph, s: Node, order: seq<Node>, dist: map<Node, int>, i: nat)
    requires Valid(g) && Exhausted(g, s, order, dist) && i < |order|
    ensures order[i] in g.nodes
  {
    LayeredKeys(g, s, order, |order|, dist, {});
    assert QueuedAt(order, dist, order[i]);
  }

  /** Reverse-order accumulation: every node collects its dependency exactly, and the source ends
      with the number of other nodes it reaches. */
  method Accumulate(g: Graph, source: Node, stack0: seq<Node>, ghost dist: map<Node, int>,
                    count: map<Node, int>, preds: map<Node, seq<Node>>, bc0: map<Node, real>)
    returns (bc: map<Node, real>, dependency: map<Node, real>)
    requires Valid(g) && Complete(g, source, stack0, dist, count, preds) && bc0.Keys == g.nodes && source in g.nodes
    ensures bc.Keys == g.nodes
    ensures forall v | v in g.nodes :: bc[v] == bc0[v] + Received(g, v)(source)
    ensures source in dependency && dependency[source] == (|Comp(g, {}, source)| - 1) as real
  {
    hide Collected, Complete, Valid, Dependency, Scored, Received, Comp, Exhausted;
    bc := bc0;
    dependency := map v | v in g.nodes :: 0.0;
    CollectedStart(g, source, preds, dependency);
    ScoredStart(g, source, bc0);
    CompleteIsExhausted(g, source, stack0, dist, count, preds);
    var stack := stack0;
    ghost var popped: set<Node> := {};
    assert Elements(stack0[|stack0|..]) == {};
    while stack != []
      invariant stack <= stack0 && popped == Elements(stack0[|stack|..])
      invariant dependency.Keys == g.nodes && bc.Keys == g.nodes
      invariant Collected(g, source, preds, popped, dependency)
      invariant Scored(g, source, popped, bc0, bc)
      invariant |stack| < |stack0| ==> stack0[|stack|] in g.nodes
      invariant |stack| < |stack0| ==> dependency[stack0[|stack|]] == Dependency(g, source, stack0[|stack|])
    {
      var i := |stack| - 1;
      var node := stack[i];
      OrderNodes(g, source, stack0, dist, i);
      PoppedIsFinal(g, source, stack0, dist, count, preds, i, dependency);
      stack := stack[..i];
      dependency := PassBack(g, source, stack0, dist, count, preds, popped, node, dependency);
      ScoredStep(g, source, popped, bc0, bc, node, dependency[node]);
      if node != source {
        bc := bc[node := bc[node] + dependency[node]];
      }
      assert Elements(stack0[i..]) == popped + {node} by {
        assert stack0[i..] == [node] + stack0[i + 1..];
      }
      popped := popped + {node};
    }
    assert stack0[0..] == stack0;
    ScoredEnd(g, source, stack0, dist, bc0, bc);
    FirstIsSource(g, source, stack0, dist);
    SourceDependency(g, source);
  }

  lemma ScoredStart(g: Graph, s: Node, bc0: map<Node, real>)
    ensures Scored(g, s, {}, bc0, bc0)
  {
    forall v ensures ScoredAt(g, s, {}, bc0, bc0, v) {}
  }

  lemma CompleteIsExhausted(g: Graph, s: Node, order: seq<Node>, dist: map<Node, int>, count: map<Node, int>,
                            preds: map<Node, seq<Node>>)
    requires Complete(g, s, order, dist, count, preds)
    ensures Exhausted(g, s, order, dist)
  {}

  lemma FirstIsSource(g: Graph, s: Node, order: seq<Node>, dist: map<Node, int>)
    requires Exhausted(g, s, order, dist)
    ensures |order| > 0 && order[0] == s
  {}

  // ---------------------------------------------------------------- all sources

  /** Shares of `v` over the pairs of other nodes; a pair that is not joined has share 0. */
  ghost function Shares(g: Graph, v: Node): (Node, Node) -> real {
    (s: Node, t: Node) => Share(g, s, t, v)
  }

  /** Sum, over unordered pairs of other nodes, of the share of their shortest paths through `v`. */
  ghost function Betweenness(g: Graph, v: Node): real {
    Sum(PairsIn(g.nodes - {v}), OnPair(Shares(g, v)))
  }

  lemma SelfShare(g: Graph, s: Node, v: Node)
    requires Valid(g) && s != v
    ensures Share(g, s, s, v) == 0.0
  {
    if Conn(g, {}, s, s) {
      ShareFormula(g, s, s, v);
      ConnEnds(g, {}, s, s);
      DistSelf(g, s);
      if Between(g, s, v, s) {
        DistZero(g, s, v);
      }
    }
  }

  /** The dependency of a source is a row of the share table. */
  lemma DependencyIsRow(g: Graph, s: Node, v: Node)
    requires Valid(g) && s in g.nodes && s != v
    ensures Dependency(g, s, v) == Sum(g.nodes - {v}, Row(Shares(g, v), s))
  {
    hide Sum, Share;
    var c := Comp(g, {}, s) - {v};
    forall t | t in g.nodes - {v} - c ensures Row(Shares(g, v), s)(t) == 0.0 {
      CompMember(g, {}, s, t);
      NoShare(g, s, t, v);
    }
    SumRestrict(g.nodes - {v}, c, Row(Shares(g, v), s), ShareOf(g, s, v));
  }

  lemma NoShare(g: Graph, s: Node, t: Node, v: Node)
    requires !Conn(g, {}, s, t)
    ensures Share(g, s, t, v) == 0.0
  {}

  /** Over all sources every pair is counted from both ends. */
  lemma ReceivedTwice(g: Graph, v: Node)
    requires Valid(g) && v in g.nodes
    ensures Sum(g.nodes, Received(g, v)) == 2.0 * Betweenness(g, v)
  {
    hide Sum, Share, Dependency;
    var others := g.nodes - {v};
    var f := Shares(g, v);
    forall s | s in others ensures Received(g, v)(s) == RowSums(f, others)(s) {
      DependencyIsRow(g, s, v);
    }
    SumRestrict(g.nodes, others, Received(g, v), RowSums(f, others));
    forall a, b ensures f(a, b) == f(b, a) {
      ShareSymmetric(g, a, b, v);
    }
    forall x | x in others ensures f(x, x) == 0.0 {
      SelfShare(g, x, v);
    }
    OrderedPairsTwice(f, others);
  }

  lemma BetweennessNonNegative(g: Graph, v: Node)
    requires Valid(g)
    ensures Betweenness(g, v) >= 0.0
  {
    hide Sum, Share;
    var ps := PairsIn(g.nodes - {v});
    var zero := (e: Edge) => 0.0;
    SumConstant(ps, 0.0, zero);
    forall e | e in ps ensures zero(e) <= OnPair(Shares(g, v))(e) {
      ShareBounds(g, e.a, e.b, v);
    }
    SumMonotone(ps, zero, OnPair(Shares(g, v)));
  }

  lemma Halved(g: Graph, v: Node, total: real)
    requires Valid(g) && v in g.nodes && total == Sum(g.nodes, Received(g, v))
    ensures (if total > 0.0 then total / 2.0 else total) == Betweenness(g, v)
  {
    hide Sum, Betweenness;
    ReceivedTwice(g, v);
    BetweennessNonNegative(g, v);
  }

  ghost predicate Totals(g: Graph, done: set<Node>, bc: map<Node, real>) {
    bc.Keys == g.nodes && forall v | v in bc :: bc[v] == Sum(done, Received(g, v))
  }

  lemma TotalsStep(g: Graph, done: set<Node>, bc: map<Node, real>, source: Node, bc': map<Node, real>)
    requires Totals(g, done, bc) && source !in done && bc'.Keys == g.nodes
    requires forall v | v in g.nodes :: bc'[v] == bc[v] + Received(g, v)(source)
    ensures Totals(g, done + {source}, bc')
  {
    hide Sum, Received;
    forall v | v in bc' ensures bc'[v] == Sum(done + {source}, Received(g, v)) {
      SumInsert(done, Received(g, v), source);
    }
  }

  lemma TotalsStart(g: Graph, bc: map<Node, real>)
    requires bc.Keys == g.nodes && forall v | v in bc :: bc[v] == 0.0
    ensures Totals(g, {}, bc)
  {
    var none: set<Node> := {};
    forall v | v in bc ensures bc[v] == Sum(none, Received(g, v)) {
      SumConstant(none, 0.0, Received(g, v));
    }
  }

  lemma PrefixElements(q: seq<Node>, i: nat)
    requires Increasing(q) && i < |q|
    ensures Elements(q[..i + 1]) == Elements(q[..i]) + {q[i]} && q[i] !in Elements(q[..i])
  {
    assert q[..i + 1] == q[..i] + [q[i]];
  }

  lemma WholeElements(q: seq<Node>, s: set<Node>)
    requires forall x :: x in q <==> x in s
    ensures Elements(q[..|q|]) == s && Elements(q[..0]) == {}
  {
    assert q[..|q|] == q;
  }

  /** Brandes' algorithm returns the betweenness of every node. */
  method BetweennessCentrality(g: Graph) returns (bc: map<Node, real>)
    requires Valid(g)
    ensures bc.Keys == g.nodes
    ensures forall v | v in g.nodes :: bc[v] == Betweenness(g, v)
  {
    hide Sum, Received, Betweenness, Totals, Complete, Valid, Sorted, IsAdjacency, Elements;
    var adj := Adjacency(g);
    var nodes := Sorted(g.nodes);
    bc := map v | v in g.nodes :: 0.0;
    TotalsStart(g, bc);
    WholeElements(nodes, g.nodes);
    for i := 0 to |nodes|
      invariant bc.Keys == g.nodes && Totals(g, Elements(nodes[..i]), bc)
    {
      var source := nodes[i];
      var stack, count, predecessors, dist := CountPaths(g, adj, source);
      ghost var before := bc;
      ghost var reached;
      bc, reached := Accumulate(g, source, stack, dist, count, predecessors, bc);
      PrefixElements(nodes, i);
      TotalsStep(g, Elements(nodes[..i]), before, source, bc);
    }
    bc := Halve(g, nodes, bc);
  }

  /** Every undirected pair was counted from both ends. */
  method Halve(g: Graph, nodes: seq<Node>, sums: map<Node, real>) returns (bc: map<Node, real>)
    requires Valid(g) && Totals(g, g.nodes, sums) && sums.Keys == g.nodes
    requires Increasing(nodes) && forall v :: v in nodes <==> v in g.nodes
    ensures bc.Keys == g.nodes
    ensures forall v | v in g.nodes :: bc[v] == Betweenness(g, v)
  {
    hide Betweenness, Totals, Valid;
    bc := sums;
    for i := 0 to |nodes|
      invariant bc.Keys == g.nodes
      invariant forall k | 0 <= k < i :: bc[nodes[k]] == Betweenness(g, nodes[k])
      invariant forall k | i <= k < |nodes| :: bc[nodes[k]] == sums[nodes[k]]
    {
      var node := nodes[i];
      HalvedTotal(g, sums, node);
      if bc[node] > 0.0 {
        bc := bc[node := bc[node] / 2.0];
      }
    }
    forall v | v in g.nodes ensures bc[v] == Betweenness(g, v) {
      assert v in nodes;
    }
  }

  lemma HalvedTotal(g: Graph, sums: map<Node, real>, v: Node)
    requires Valid(g) && Totals(g, g.nodes, sums) && v in g.nodes
    ensures v in sums && (if sums[v] > 0.0 then sums[v] / 2.0 else sums[v]) == Betweenness(g, v)
  {
    Halved(g, v, sums[v]);
  }

  // ---------------------------------------------------------------- consequences

  /** An isolated node scores 0; the comment on the code announces 1. */
  lemma IsolatedScoresZero(g: Graph, v: Node)
    requires Valid(g) && Nbrs(g, v) == {}
    ensures Betweenness(g, v) == 0.0
  {
    hide Sum, Share;
    var ps := PairsIn(g.nodes - {v});
    forall e | e in ps ensures OnPair(Shares(g, v))(e) == 0.0 {
      IsolatedShare(g, e.a, e.b, v);
    }
    SumConstant(ps, 0.0, OnPair(Shares(g, v)));
  }

  lemma IsolatedShare(g: Graph, s: Node, t: Node, v: Node)
    requires Valid(g) && Nbrs(g, v) == {} && s != v
    ensures Share(g, s, t, v) == 0.0
  {
    if Conn(g, {}, s, t) {
      ShareFormula(g, s, t, v);
      if Conn(g, {}, s, v) {
        ConnSym(g, {}, s, v);
        ConnClosed(g, {}, {v}, v, s);
      }
    }
  }
}
