/** The PageRank loops, proved against the iteration they implement. */
module PowerIteration {
  import opened Sums
  import opened Graphs
  import opened Ordering
  import opened RankFlow

  ghost function At(rank: map<Node, real>): Node -> real {
    (v: Node) => if v in rank then rank[v] else 0.0
  }

  lemma NextParts(g: Graph, d: real, x: Node -> real, v: Node)
    requires g.nodes != {}
    ensures Next(g, d, x)(v) == (1.0 - d) / |g.nodes| as real + Sum(g.nodes, Column(Sent(g, d, x), v))
                                + Portion(d, Sum(Danglers(g), x), |g.nodes| as real)
  {
    hide Sum, Portion, Sent;
    assert Next(g, d, x)(v) == (1.0 - d) / |g.nodes| as real + Flow(g, d, x)(v);
  }

  /** An iteration looks at the nodes only. */
  lemma NextCongruent(g: Graph, d: real, x: Node -> real, y: Node -> real, v: Node)
    requires g.nodes != {} && forall u | u in g.nodes :: x(u) == y(u)
    ensures Next(g, d, x)(v) == Next(g, d, y)(v)
  {
    hide Sum, Portion, OutDegree, Next;
    SumCongruent(Danglers(g), x, y);
    SumCongruent(g.nodes, Column(Sent(g, d, x), v), Column(Sent(g, d, y), v));
    NextParts(g, d, x, v);
    NextParts(g, d, y, v);
  }

  // ---------------------------------------------------------------- out-links as tables

  method OutDegrees(g: Graph) returns (out: map<Node, nat>)
    requires Valid(g)
    ensures out.Keys == g.nodes && forall u | u in g.nodes :: out[u] == OutDegree(g, u)
    ensures forall u | u in g.nodes :: out[u] == |set i | 0 <= i < |g.directed| && g.directed[i].src == u|
  {
    var deg: map<Node, nat> := map[];
    for i := 0 to |g.directed|
      invariant forall u :: (if u in deg then deg[u] else 0) == |Targets(g.directed[..i], u)|
    {
      var src := g.directed[i].src;
      assert g.directed[..i + 1][..i] == g.directed[..i];
      deg := deg[src := (if src in deg then deg[src] else 0) + 1];
    }
    assert g.directed[..|g.directed|] == g.directed;
    out := map u | u in g.nodes :: if u in deg then deg[u] else 0;
    forall u | u in g.nodes ensures out[u] == |set i | 0 <= i < |g.directed| && g.directed[i].src == u| {
      TargetsCount(g.directed, u);
    }
  }

  method OutNeighbors(g: Graph) returns (outNeighbors: map<Node, seq<Node>>)
    requires Valid(g)
    ensures outNeighbors.Keys == g.nodes
    ensures forall u | u in g.nodes :: Increasing(outNeighbors[u]) && Elements(outNeighbors[u]) == OutNbrs(g, u)
    ensures forall u, x | u in g.nodes ::
              x in outNeighbors[u] <==> exists r :: r in g.directed && r.src == u && r.dst == x
  {
    hide Sorted;
    var lists: map<Node, seq<Node>> := map[];
    for i := 0 to |g.directed|
      invariant forall u :: (if u in lists then lists[u] else []) == Targets(g.directed[..i], u)
    {
      var arc := g.directed[i];
      assert g.directed[..i + 1][..i] == g.directed[..i];
      lists := lists[arc.src := (if arc.src in lists then lists[arc.src] else []) + [arc.dst]];
    }
    assert g.directed[..|g.directed|] == g.directed;
    outNeighbors := map u | u in g.nodes :: Sorted(Elements(if u in lists then lists[u] else []));
    forall u | u in g.nodes ensures Elements(outNeighbors[u]) == OutNbrs(g, u) {
      forall x ensures x in Elements(outNeighbors[u]) <==> x in OutNbrs(g, u) {}
    }
    forall u, x | u in g.nodes
      ensures x in outNeighbors[u] <==> exists r :: r in g.directed && r.src == u && r.dst == x
    {
      TargetMember(g.directed, u, x);
      assert x in outNeighbors[u] <==> x in Elements(outNeighbors[u]);
    }
  }

  // ---------------------------------------------------------------- one round

  lemma OutIs(g: Graph, out: map<Node, nat>, outNeighbors: map<Node, seq<Node>>, u: Node)
    requires OutTables(g, out, outNeighbors) && u in g.nodes
    ensures u in out && out[u] == OutDegree(g, u)
  {}

  method SumDangling(g: Graph, nodes: seq<Node>, out: map<Node, nat>, ghost outNeighbors: map<Node, seq<Node>>,
                     rank: map<Node, real>)
    returns (sum: real)
    requires IsSweep(g, nodes) && rank.Keys == g.nodes && OutTables(g, out, outNeighbors)
    ensures sum == Sum(Danglers(g), At(rank))
  {
    hide Sum, OutDegree, OutTables;
    sum := 0.0;
    ghost var done: set<Node> := {};
    SumConstant(done, 0.0, At(rank));
    for i := 0 to |nodes|
      invariant forall u :: u in done <==> u in nodes[..i] && OutDegree(g, u) == 0
      invariant sum == Sum(done, At(rank))
    {
      var u := nodes[i];
      OutIs(g, out, outNeighbors, u);
      if out[u] == 0 {
        assert u !in done;
        SumInsert(done, At(rank), u);
        sum := sum + rank[u];
        done := done + {u};
      }
    }
    assert nodes[..|nodes|] == nodes;
    assert done == Danglers(g);
  }

  /** `ranks` holds the seed plus what the nodes of `done` have sent. */
  ghost predicate Served(g: Graph, d: real, x: Node -> real, seed: real, done: set<Node>, ranks: map<Node, real>) {
    ranks.Keys == g.nodes && forall v | v in ranks :: ranks[v] == seed + Sum(done, Column(Sent(g, d, x), v))
  }

  ghost predicate Serving(g: Graph, d: real, x: Node -> real, seed: real, done: set<Node>, share: real,
                          served: seq<Node>, ranks: map<Node, real>) {
    ranks.Keys == g.nodes &&
    forall v | v in ranks ::
      ranks[v] == seed + Sum(done, Column(Sent(g, d, x), v)) + (if v in served then share else 0.0)
  }

  lemma ServedStart(g: Graph, d: real, x: Node -> real, seed: real, ranks: map<Node, real>)
    requires ranks.Keys == g.nodes && forall v | v in ranks :: ranks[v] == seed
    ensures Served(g, d, x, seed, {}, ranks)
  {
    var none: set<Node> := {};
    forall v | v in ranks ensures ranks[v] == seed + Sum(none, Column(Sent(g, d, x), v)) {
      SumConstant(none, 0.0, Column(Sent(g, d, x), v));
    }
  }

  lemma ServedSkip(g: Graph, d: real, x: Node -> real, seed: real, done: set<Node>, ranks: map<Node, real>, u: Node)
    requires Served(g, d, x, seed, done, ranks) && u !in done && OutDegree(g, u) == 0
    ensures Served(g, d, x, seed, done + {u}, ranks)
  {
    NoTargets(g, u);
    hide Sum, OutDegree, OutNbrs;
    forall v | v in ranks ensures ranks[v] == seed + Sum(done + {u}, Column(Sent(g, d, x), v)) {
      SumInsert(done, Column(Sent(g, d, x), v), u);
    }
  }

  lemma ServedAfter(g: Graph, d: real, x: Node -> real, seed: real, done: set<Node>, share: real,
                    served: seq<Node>, ranks: map<Node, real>, u: Node)
    requires Serving(g, d, x, seed, done, share, served, ranks) && u !in done
    requires OutDegree(g, u) > 0 && share == Portion(d, x(u), OutDegree(g, u) as real)
    requires Elements(served) == OutNbrs(g, u)
    ensures Served(g, d, x, seed, done + {u}, ranks)
  {
    hide Sum, OutDegree, OutNbrs, Portion;
    forall v | v in ranks ensures ranks[v] == seed + Sum(done + {u}, Column(Sent(g, d, x), v)) {
      SumInsert(done, Column(Sent(g, d, x), v), u);
      assert v in served <==> v in Elements(served);
    }
  }

  lemma ServingStep(g: Graph, d: real, x: Node -> real, seed: real, done: set<Node>, share: real,
                    served: seq<Node>, ranks: map<Node, real>, dst: Node)
    requires Serving(g, d, x, seed, done, share, served, ranks) && dst !in served && dst in ranks
    ensures Serving(g, d, x, seed, done, share, served + [dst], ranks[dst := ranks[dst] + share])
  {
    hide Sum, Sent;
  }

  /** The shares of one node go out to its distinct neighbours. */
  method Serve(g: Graph, ghost d: real, ghost x: Node -> real, ghost seed: real, ghost done: set<Node>, share: real,
               list: seq<Node>, ranks0: map<Node, real>)
    returns (ranks: map<Node, real>)
    requires Served(g, d, x, seed, done, ranks0) && Increasing(list) && Elements(list) <= g.nodes
    ensures Serving(g, d, x, seed, done, share, list, ranks)
  {
    hide Sum, Sent;
    ranks := ranks0;
    for j := 0 to |list|
      invariant Serving(g, d, x, seed, done, share, list[..j], ranks)
    {
      assert list[j] in Elements(list);
      ServingStep(g, d, x, seed, done, share, list[..j], ranks, list[j]);
      ranks := ranks[list[j] := ranks[list[j]] + share];
      assert list[..j] + [list[j]] == list[..j + 1];
    }
    assert list[..|list|] == list;
  }

  /** `nodes` lists the nodes in order. */
  ghost predicate IsSweep(g: Graph, nodes: seq<Node>) {
    Increasing(nodes) && (forall v :: v in nodes <==> v in g.nodes) && |nodes| == |g.nodes|
  }

  ghost predicate OutTables(g: Graph, out: map<Node, nat>, outNeighbors: map<Node, seq<Node>>) {
    && out.Keys == g.nodes && outNeighbors.Keys == g.nodes
    && forall u | u in g.nodes ::
         out[u] == OutDegree(g, u) && Increasing(outNeighbors[u]) && Elements(outNeighbors[u]) == OutNbrs(g, u)
  }

  /** The turn of one node: a dangling node is skipped, any other sends its shares. */
  method Turn(g: Graph, damping: real, rank: map<Node, real>, out: map<Node, nat>, outNeighbors: map<Node, seq<Node>>,
              u: Node, ghost seed: real, ghost done: set<Node>, ranks: map<Node, real>)
    returns (newRank: map<Node, real>)
    requires Valid(g) && rank.Keys == g.nodes && OutTables(g, out, outNeighbors) && u in g.nodes && u !in done
    requires Served(g, damping, At(rank), seed, done, ranks)
    ensures Served(g, damping, At(rank), seed, done + {u}, newRank)
  {
    hide Sum, Served, Serving, OutDegree, OutNbrs, Portion, Valid, Elements, Sent;
    newRank := ranks;
    if out[u] == 0 {
      ServedSkip(g, damping, At(rank), seed, done, ranks, u);
    } else {
      var share := damping * rank[u] / out[u] as real;
      PortionIs(damping, rank[u], out[u] as real);
      OutNbrsAreNodes(g, u);
      newRank := Serve(g, damping, At(rank), seed, done, share, outNeighbors[u], newRank);
      ServedAfter(g, damping, At(rank), seed, done, share, outNeighbors[u], newRank, u);
    }
  }

  method Round(g: Graph, nodes: seq<Node>, out: map<Node, nat>, outNeighbors: map<Node, seq<Node>>,
               damping: real, rank: map<Node, real>)
    returns (newRank: map<Node, real>)
    requires Valid(g) && g.nodes != {} && rank.Keys == g.nodes && IsSweep(g, nodes) && OutTables(g, out, outNeighbors)
    ensures newRank.Keys == g.nodes && RankIs(g, newRank, Next(g, damping, At(rank)))
  {
    hide Sum, Served, Serving, OutTables, Portion, Next, Valid;
    var n := |nodes| as real;
    var seed := (1.0 - damping) / n;
    newRank := map v | v in g.nodes :: seed;
    var sum := SumDangling(g, nodes, out, outNeighbors, rank);
    var dangling := damping * sum / n;
    ghost var done: set<Node> := {};
    ServedStart(g, damping, At(rank), seed, newRank);
    for i := 0 to |nodes|
      invariant forall u :: u in done <==> u in nodes[..i]
      invariant Served(g, damping, At(rank), seed, done, newRank)
    {
      assert nodes[i] !in done;
      newRank := Turn(g, damping, rank, out, outNeighbors, nodes[i], seed, done, newRank);
      done := done + {nodes[i]};
    }
    assert nodes[..|nodes|] == nodes;
    assert done == g.nodes;
    PortionIs(damping, sum, n);
    newRank := Serve(g, damping, At(rank), seed, g.nodes, dangling, nodes, newRank);
    ServedAll(g, damping, At(rank), seed, dangling, nodes, newRank);
  }

  lemma PortionIs(d: real, x: real, n: real)
    requires n > 0.0
    ensures d * x / n == Portion(d, x, n)
  {}

  /** Seed, received shares and dangling part make up one iteration. */
  lemma ServedAll(g: Graph, d: real, x: Node -> real, seed: real, dangling: real, nodes: seq<Node>,
                  ranks: map<Node, real>)
    requires g.nodes != {} && IsSweep(g, nodes) && Serving(g, d, x, seed, g.nodes, dangling, nodes, ranks)
    requires seed == (1.0 - d) / |g.nodes| as real
    requires dangling == Portion(d, Sum(Danglers(g), x), |g.nodes| as real)
    ensures ranks.Keys == g.nodes && forall v | v in g.nodes :: ranks[v] == Next(g, d, x)(v)
  {
    hide Sum, Portion, Sent, Next;
    forall v | v in g.nodes ensures ranks[v] == Next(g, d, x)(v) {
      NextParts(g, d, x, v);
    }
  }

  // ---------------------------------------------------------------- one round, on the arcs alone

  /** What every arc out of `u` carries. */
  ghost function Share(g: Graph, d: real, x: map<Node, real>): Node -> real {
    (u: Node) =>
      var leaving := set i | 0 <= i < |g.directed| && g.directed[i].src == u;
      if u in x && leaving != {} then d * x[u] / |leaving| as real else 0.0
  }

  /** Nodes that link to `v`. */
  ghost function Linking(g: Graph, v: Node): set<Node> {
    set r | r in g.directed && r.dst == v :: r.src
  }

  /** Nodes that link to nobody. */
  ghost function Stuck(g: Graph): set<Node> {
    set u | u in g.nodes && forall r | r in g.directed :: r.src != u
  }

  /** From `x` to `y`: every node gets the teleport share, an even part of the damped rank of the nodes
      without arcs, and one share from each node that links to it, however often. */
  ghost predicate Redistributes(g: Graph, d: real, x: map<Node, real>, y: map<Node, real>) {
    var n := |g.nodes| as real;
    && g.nodes != {} && x.Keys == g.nodes && y.Keys == g.nodes
    && forall v | v in g.nodes ::
         y[v] == (1.0 - d) / n + d * Sum(Stuck(g), At(x)) / n + Sum(Linking(g, v), Share(g, d, x))
  }

  lemma LinkingIs(g: Graph, v: Node, u: Node)
    ensures u in Linking(g, v) <==> v in OutNbrs(g, u)
    ensures v in OutNbrs(g, u) ==> OutDegree(g, u) > 0
  {
    TargetMember(g.directed, u, v);
  }

  lemma DanglersAre(g: Graph)
    ensures Danglers(g) == Stuck(g)
  {
    forall u ensures OutDegree(g, u) == 0 <==> forall r | r in g.directed :: r.src != u {
      var q := Targets(g.directed, u);
      if q != [] {
        TargetMember(g.directed, u, q[0]);
      }
      if r :| r in g.directed && r.src == u {
        TargetMember(g.directed, u, r.dst);
      }
    }
  }

  lemma ShareIs(g: Graph, d: real, x: map<Node, real>, u: Node)
    requires u in x && OutDegree(g, u) > 0
    ensures Share(g, d, x)(u) == Portion(d, At(x)(u), OutDegree(g, u) as real)
  {
    TargetsCount(g.directed, u);
    assert (set i | 0 <= i < |g.directed| && g.directed[i].src == u) == Leaving(g.directed, u);
    hide Targets;
  }

  lemma ReceivedShares(g: Graph, d: real, x: map<Node, real>, v: Node)
    requires Valid(g) && x.Keys == g.nodes
    ensures Sum(g.nodes, Column(Sent(g, d, At(x)), v)) == Sum(Linking(g, v), Share(g, d, x))
  {
    hide Sum, OutDegree, OutNbrs, Portion, Share, Linking;
    assert Linking(g, v) <= g.nodes by { LinkingNodes(g, v); }
    forall u | u in Linking(g, v) ensures Column(Sent(g, d, At(x)), v)(u) == Share(g, d, x)(u) {
      LinkingIs(g, v, u);
      ShareIs(g, d, x, u);
    }
    forall u | u in g.nodes - Linking(g, v) ensures Column(Sent(g, d, At(x)), v)(u) == 0.0 {
      LinkingIs(g, v, u);
    }
    SumRestrict(g.nodes, Linking(g, v), Column(Sent(g, d, At(x)), v), Share(g, d, x));
  }

  lemma LinkingNodes(g: Graph, v: Node)
    requires Valid(g)
    ensures Linking(g, v) <= g.nodes
  {}

  /** One iteration of the rank equation redistributes the ranks along the arcs. */
  lemma NextRedistributes(g: Graph, d: real, x: map<Node, real>, y: map<Node, real>)
    requires Valid(g) && g.nodes != {} && x.Keys == g.nodes && RankIs(g, y, Next(g, d, At(x)))
    ensures Redistributes(g, d, x, y)
  {
    hide Sum, Next, Share, Danglers, Stuck, Linking, Valid;
    DanglersAre(g);
    forall v | v in g.nodes
      ensures y[v] == (1.0 - d) / |g.nodes| as real + d * Sum(Danglers(g), At(x)) / |g.nodes| as real
                      + Sum(Linking(g, v), Share(g, d, x))
    {
      NextParts(g, d, At(x), v);
      ReceivedShares(g, d, x, v);
      PortionIs(d, Sum(Danglers(g), At(x)), |g.nodes| as real);
    }
  }

  /** `trace` starts uniform and ends in `rank`, round by round. */
  ghost predicate Traced(g: Graph, d: real, trace: seq<map<Node, real>>, rank: map<Node, real>, rounds: int) {
    && g.nodes != {} && rounds >= 0 && |trace| == rounds + 1 && trace[rounds] == rank
    && trace[0] == (map v | v in g.nodes :: 1.0 / |g.nodes| as real)
    && forall k | 0 <= k < rounds :: Redistributes(g, d, trace[k], trace[k + 1])
  }

  lemma TraceStart(g: Graph, d: real, rank: map<Node, real>)
    requires g.nodes != {} && rank == (map v | v in g.nodes :: 1.0 / |g.nodes| as real)
    ensures Traced(g, d, [rank], rank, 0)
  {}

  lemma TraceNext(g: Graph, d: real, trace: seq<map<Node, real>>, rank: map<Node, real>, k: int, next: map<Node, real>)
    requires Traced(g, d, trace, rank, k) && Redistributes(g, d, rank, next)
    ensures Traced(g, d, trace + [next], next, k + 1)
  {
    hide Redistributes;
    var more := trace + [next];
    forall j | 0 <= j < k + 1 ensures Redistributes(g, d, more[j], more[j + 1]) {
      assert more[j] == trace[j];
      if j < k {
        assert more[j + 1] == trace[j + 1];
      }
    }
  }

  lemma TraceEnd(g: Graph, d: real, trace: seq<map<Node, real>>, rank: map<Node, real>, rounds: int)
    requires Traced(g, d, trace, rank, rounds)
    ensures |trace| == rounds + 1 && rounds >= 0 && trace[rounds] == rank && g.nodes != {}
    ensures trace[0] == (map v | v in g.nodes :: 1.0 / |g.nodes| as real)
    ensures forall k | 0 <= k < rounds :: Redistributes(g, d, trace[k], trace[k + 1])
  {
    hide Redistributes;
  }

  // ---------------------------------------------------------------- all rounds

  ghost predicate RankIs(g: Graph, rank: map<Node, real>, x: Node -> real) {
    rank.Keys == g.nodes && forall v | v in g.nodes :: rank[v] == x(v)
  }

  lemma RoundIs(g: Graph, d: real, x: Node -> real, before: map<Node, real>, after: map<Node, real>)
    requires g.nodes != {} && RankIs(g, before, x) && RankIs(g, after, Next(g, d, At(before)))
    ensures RankIs(g, after, Next(g, d, x))
  {
    hide Next;
    forall v | v in g.nodes ensures after[v] == Next(g, d, x)(v) {
      NextCongruent(g, d, At(before), x, v);
    }
  }

  /** The power iteration returns exactly the requested number of iterations from the uniform start;
      `trace` lists the ranks round by round. */
  method PageRank(g: Graph, damping: real, iterations: int)
    returns (rank: map<Node, real>, ghost trace: seq<map<Node, real>>)
    requires Valid(g)
    ensures g.nodes == {} ==> rank == map[]
    ensures g.nodes != {} ==>
              RankIs(g, rank, Iterate(g, damping, Uniform(g), if iterations > 0 then iterations else 0))
    ensures g.nodes != {} ==>
              var rounds := if iterations > 0 then iterations else 0;
              && |trace| == rounds + 1 && trace[rounds] == rank
              && trace[0] == (map v | v in g.nodes :: 1.0 / |g.nodes| as real)
              && forall k | 0 <= k < rounds :: Redistributes(g, damping, trace[k], trace[k + 1])
  {
    hide Next, OutDegree, OutNbrs, Elements, Sorted, Valid, OutTables, RankIs, Iterate, Redistributes, Traced;
    trace := [];
    var nodes := Sorted(g.nodes);
    if nodes == [] {
      assert g.nodes == {};
      return map[], trace;
    }
    assert nodes[0] in g.nodes;
    var out := OutDegrees(g);
    var outNeighbors := OutNeighbors(g);
    TablesHold(g, out, outNeighbors);
    rank := map v | v in g.nodes :: 1.0 / |nodes| as real;
    trace := [rank];
    TraceStart(g, damping, rank);
    StartIs(g, rank);
    IterateNext(g, damping, 0);
    var rounds := if iterations > 0 then iterations else 0;
    for k := 0 to rounds
      invariant rank.Keys == g.nodes && RankIs(g, rank, Iterate(g, damping, Uniform(g), k))
      invariant Traced(g, damping, trace, rank, k)
    {
      ghost var before := rank;
      rank := Round(g, nodes, out, outNeighbors, damping, rank);
      NextRedistributes(g, damping, before, rank);
      TraceNext(g, damping, trace, before, k, rank);
      trace := trace + [rank];
      RoundIs(g, damping, Iterate(g, damping, Uniform(g), k), before, rank);
      IterateNext(g, damping, k);
    }
    TraceEnd(g, damping, trace, rank, rounds);
  }

  lemma IterateNext(g: Graph, d: real, k: nat)
    requires g.nodes != {}
    ensures Iterate(g, d, Uniform(g), 0) == Uniform(g)
    ensures Iterate(g, d, Uniform(g), k + 1) == Next(g, d, Iterate(g, d, Uniform(g), k))
  {}

  lemma TablesHold(g: Graph, out: map<Node, nat>, outNeighbors: map<Node, seq<Node>>)
    requires out.Keys == g.nodes && (forall u | u in g.nodes :: out[u] == OutDegree(g, u))
    requires outNeighbors.Keys == g.nodes
    requires forall u | u in g.nodes :: Increasing(outNeighbors[u]) && Elements(outNeighbors[u]) == OutNbrs(g, u)
    ensures OutTables(g, out, outNeighbors)
  {}

  lemma StartIs(g: Graph, rank: map<Node, real>)
    requires g.nodes != {} && rank.Keys == g.nodes && forall v | v in g.nodes :: rank[v] == 1.0 / |g.nodes| as real
    ensures RankIs(g, rank, Uniform(g))
  {
    forall v | v in g.nodes ensures rank[v] == Uniform(g)(v) {}
  }
}
