/** The counting half of Brandes' breadth-first search: path counts and predecessor lists. */
module PathCounts {
  import opened Sums
  import opened Graphs
  import opened Ordering
  import opened ShortestPaths
  import opened Distances
  import opened Dependencies
  import opened BreadthFirst

  function Tally(count: map<Node, int>, x: Node): int {
    if x in count then count[x] else 0
  }

  function Listed(preds: map<Node, seq<Node>>, x: Node): seq<Node> {
    if x in preds then preds[x] else []
  }

  ghost function Tallies(count: map<Node, int>): Node -> real {
    (x: Node) => Tally(count, x) as real
  }

  /** `u` is taken, one step nearer, and its turn at `w` has come. */
  ghost predicate IsPred(g: Graph, order: seq<Node>, k: int, dist: map<Node, int>, pending: set<Node>, u: Node,
                         w: Node) {
    && Taken(order, k, u) && w in Nbrs(g, u) && u in dist && w in dist && dist[u] + 1 == dist[w]
    && !(Current(order, k, u) && w in pending)
  }

  ghost predicate PredAt(g: Graph, order: seq<Node>, k: int, dist: map<Node, int>, pending: set<Node>,
                         preds: map<Node, seq<Node>>, u: Node, w: Node) {
    u in Listed(preds, w) <==> IsPred(g, order, k, dist, pending, u, w)
  }

  ghost predicate ListAt(preds: map<Node, seq<Node>>, w: Node) {
    Distinct(Listed(preds, w))
  }

  ghost predicate TallyAt(s: Node, count: map<Node, int>, preds: map<Node, seq<Node>>, w: Node) {
    w != s ==> Tally(count, w) as real == Sum(Elements(Listed(preds, w)), Tallies(count))
  }

  ghost predicate Counted(g: Graph, s: Node, order: seq<Node>, k: int, dist: map<Node, int>, pending: set<Node>,
                          count: map<Node, int>, preds: map<Node, seq<Node>>) {
    && Tally(count, s) == 1
    && (forall u, w :: PredAt(g, order, k, dist, pending, preds, u, w))
    && (forall w :: ListAt(preds, w))
    && (forall w :: TallyAt(s, count, preds, w))
  }

  lemma CountedStart(g: Graph, s: Node)
    ensures Counted(g, s, [s], 0, map[s := 0], {}, map[s := 1], map[])
  {
    forall w ensures TallyAt(s, map[s := 1], map[], w) {
      assert Elements<Node>([]) == {};
    }
  }

  lemma CountedTake(g: Graph, s: Node, order: seq<Node>, k: int, dist: map<Node, int>,
                    count: map<Node, int>, preds: map<Node, seq<Node>>)
    requires Layered(g, s, order, k, dist, {}) && k < |order| && Counted(g, s, order, k, dist, {}, count, preds)
    ensures Counted(g, s, order, k + 1, dist, Nbrs(g, order[k]), count, preds)
  {
    var next := k + 1;
    forall u, w ensures PredAt(g, order, next, dist, Nbrs(g, order[k]), preds, u, w) {
      assert PredAt(g, order, k, dist, {}, preds, u, w);
      TakenAt(order, dist, k, k);
      if u != order[k] {
        TakenNext(order, k, u);
      }
    }
  }

  lemma TakenNext(order: seq<Node>, k: int, u: Node)
    requires 0 <= k < |order| && u != order[k]
    ensures Taken(order, k + 1, u) <==> Taken(order, k, u)
  {}

  /** Queueing a new neighbour lists nobody as its predecessor yet. */
  lemma CountedAdd(g: Graph, s: Node, order: seq<Node>, k: int, dist: map<Node, int>, pending: set<Node>,
                   count: map<Node, int>, preds: map<Node, seq<Node>>, w: Node)
    requires Layered(g, s, order, k, dist, pending) && Counted(g, s, order, k, dist, pending, count, preds)
    requires 0 < k && w !in dist && w in pending && order[k - 1] in dist
    ensures Counted(g, s, order + [w], k, dist[w := dist[order[k - 1]] + 1], pending, count, preds)
  {
    hide Nbrs;
    var dist' := dist[w := dist[order[k - 1]] + 1];
    forall u, x ensures PredAt(g, order + [w], k, dist', pending, preds, u, x) {
      assert PredAt(g, order, k, dist, pending, preds, u, x);
      assert SpreadAt(g, order, k, dist, pending, u, x);
      assert QueuedAt(order, dist, u);
      AddTaken(order, k, w, u);
    }
  }

  /** A neighbour that is not one step further leaves the tables alone. */
  lemma CountedSkip(g: Graph, s: Node, order: seq<Node>, k: int, dist: map<Node, int>, pending: set<Node>,
                    count: map<Node, int>, preds: map<Node, seq<Node>>, w: Node)
    requires Layered(g, s, order, k, dist, pending) && Counted(g, s, order, k, dist, pending, count, preds)
    requires 0 < k && w in dist && order[k - 1] in dist && dist[w] != dist[order[k - 1]] + 1
    ensures Counted(g, s, order, k, dist, pending - {w}, count, preds)
  {
    forall u, x ensures PredAt(g, order, k, dist, pending - {w}, preds, u, x) {
      assert PredAt(g, order, k, dist, pending, preds, u, x);
    }
  }

  /** The tables after crediting `node` to the neighbour `w`. */
  ghost predicate Credited(count: map<Node, int>, preds: map<Node, seq<Node>>, node: Node, w: Node,
                           count': map<Node, int>, preds': map<Node, seq<Node>>) {
    && count' == count[w := Tally(count, w) + Tally(count, node)]
    && preds' == preds[w := Listed(preds, w) + [node]]
  }

  lemma CountedCredit(g: Graph, s: Node, order: seq<Node>, k: int, dist: map<Node, int>, pending: set<Node>,
                      count: map<Node, int>, preds: map<Node, seq<Node>>, w: Node,
                      count': map<Node, int>, preds': map<Node, seq<Node>>)
    requires Layered(g, s, order, k, dist, pending) && Counted(g, s, order, k, dist, pending, count, preds)
    requires 0 < k && w in dist && w in pending && order[k - 1] in dist && dist[w] == dist[order[k - 1]] + 1
    requires w in Nbrs(g, order[k - 1]) && Credited(count, preds, order[k - 1], w, count', preds')
    ensures Counted(g, s, order, k, dist, pending - {w}, count', preds')
  {
    hide Nbrs;
    var node := order[k - 1];
    TakenAt(order, dist, k, k - 1);
    assert PredAt(g, order, k, dist, pending, preds, node, w);
    assert WalkAt(g, s, dist, node);
    forall u, x ensures PredAt(g, order, k, dist, pending - {w}, preds', u, x) {
      assert PredAt(g, order, k, dist, pending, preds, u, x);
    }
    forall x ensures ListAt(preds', x) {
      assert ListAt(preds, x);
    }
    forall x ensures TallyAt(s, count', preds', x) {
      CreditTally(g, s, order, k, dist, pending, count, preds, w, count', preds', x);
    }
  }

  lemma CreditTally(g: Graph, s: Node, order: seq<Node>, k: int, dist: map<Node, int>, pending: set<Node>,
                    count: map<Node, int>, preds: map<Node, seq<Node>>, w: Node,
                    count': map<Node, int>, preds': map<Node, seq<Node>>, x: Node)
    requires Layered(g, s, order, k, dist, pending) && Counted(g, s, order, k, dist, pending, count, preds)
    requires 0 < k && w in dist && w in pending && order[k - 1] in dist && dist[w] == dist[order[k - 1]] + 1
    requires Credited(count, preds, order[k - 1], w, count', preds')
    ensures TallyAt(s, count', preds', x)
  {
    hide Nbrs, Sum;
    var node := order[k - 1];
    assert TallyAt(s, count, preds, x);
    NeverPred(g, s, order, k, dist, pending, count, preds, w, x);
    var listed := Elements(Listed(preds, x));
    SumCongruent(listed, Tallies(count), Tallies(count'));
    if x == w {
      assert PredAt(g, order, k, dist, pending, preds, node, w);
      assert Elements(Listed(preds', w)) == listed + {node};
      SumInsert(listed, Tallies(count'), node);
      assert Tally(count', node) == Tally(count, node);
    }
  }

  /** A node one step beyond the node in hand is nobody's predecessor yet. */
  lemma NeverPred(g: Graph, s: Node, order: seq<Node>, k: int, dist: map<Node, int>, pending: set<Node>,
                  count: map<Node, int>, preds: map<Node, seq<Node>>, w: Node, x: Node)
    requires Layered(g, s, order, k, dist, pending) && Counted(g, s, order, k, dist, pending, count, preds)
    requires 0 < k && w in dist && order[k - 1] in dist && dist[w] == dist[order[k - 1]] + 1
    ensures w !in Listed(preds, x)
  {
    assert PredAt(g, order, k, dist, pending, preds, w, x);
    if i :| 0 <= i < k && i < |order| && order[i] == w {
      assert OrderAt(order, dist, i, k - 1);
    }
  }

  // ---------------------------------------------------------------- the finished search: counts

  ghost predicate Complete(g: Graph, s: Node, order: seq<Node>, dist: map<Node, int>,
                           count: map<Node, int>, preds: map<Node, seq<Node>>) {
    Exhausted(g, s, order, dist) && Counted(g, s, order, |order|, dist, {}, count, preds)
  }

  /** The predecessor lists are exact. */
  lemma PredsExact(g: Graph, s: Node, order: seq<Node>, dist: map<Node, int>,
                   count: map<Node, int>, preds: map<Node, seq<Node>>, u: Node, w: Node)
    requires Valid(g) && Complete(g, s, order, dist, count, preds)
    ensures u in Listed(preds, w) <==> Conn(g, {}, s, u) && w in Succ(g, s, u)
    ensures u in Listed(preds, w) ==> Conn(g, {}, s, w)
  {
    assert PredAt(g, order, |order|, dist, {}, preds, u, w);
    assert QueuedAt(order, dist, u) && SpreadAt(g, order, |order|, dist, {}, u, w);
    DistancesExact(g, s, order, dist, u);
    DistancesExact(g, s, order, dist, w);
  }

  /** Nodes at distance d - 1 next to `w` are exactly its listed predecessors. */
  lemma NearerIsListed(g: Graph, s: Node, order: seq<Node>, dist: map<Node, int>,
                       count: map<Node, int>, preds: map<Node, seq<Node>>, w: Node, u: Node)
    requires Valid(g) && Complete(g, s, order, dist, count, preds) && w in dist && dist[w] > 0 && u in Nbrs(g, w)
    requires Count(g, s, u, dist[w] - 1) > 0
    ensures u in Listed(preds, w)
  {
    NbrsSymmetric(g, u, w);
    WalksAreBounded(g, s, order, dist, u, dist[w] - 1);
    assert QueuedAt(order, dist, u) && SpreadAt(g, order, |order|, dist, {}, u, w);
    assert PredAt(g, order, |order|, dist, {}, preds, u, w);
  }

  /** The counts are the numbers of shortest paths. */
  lemma {:induction false} CountsExact(g: Graph, s: Node, order: seq<Node>, dist: map<Node, int>,
                                       count: map<Node, int>, preds: map<Node, seq<Node>>, w: Node)
    requires Valid(g) && Complete(g, s, order, dist, count, preds) && w in dist
    ensures Tally(count, w) == Sigma(g, s, w)
    decreases dist[w]
  {
    hide Sum, Count, Sigma, Dist;
    DistancesExact(g, s, order, dist, w);
    assert WalkAt(g, s, dist, w);
    if dist[w] == 0 {
      DistZero(g, s, w);
      ConnEnds(g, {}, s, w);
      DistSelf(g, s);
    } else {
      var d := dist[w] - 1;
      var ps := Elements(Listed(preds, w));
      forall u | u in ps ensures u in Nbrs(g, w) && From(g, s, d)(u) == Tallies(count)(u) {
        PredTally(g, s, order, dist, count, preds, u, w);
        CountsExact(g, s, order, dist, count, preds, u);
        SigmaAt(g, s, u, d);
      }
      forall u | u in Nbrs(g, w) - ps ensures From(g, s, d)(u) == 0.0 {
        if Count(g, s, u, d) > 0 {
          NearerIsListed(g, s, order, dist, count, preds, w, u);
        }
      }
      SumRestrict(Nbrs(g, w), ps, From(g, s, d), Tallies(count));
      CountLast(g, s, w, d);
      SigmaAt(g, s, w, d + 1);
      assert TallyAt(s, count, preds, w);
    }
  }

  lemma CompleteIs(g: Graph, s: Node, order: seq<Node>, dist: map<Node, int>,
                   count: map<Node, int>, preds: map<Node, seq<Node>>)
    requires Layered(g, s, order, |order|, dist, {}) && Counted(g, s, order, |order|, dist, {}, count, preds)
    ensures Complete(g, s, order, dist, count, preds)
  {
    hide Layered, Counted;
  }

  /** What a finished search knows, in terms of the graph alone. */
  lemma CompleteMeans(g: Graph, s: Node, order: seq<Node>, dist: map<Node, int>,
                      count: map<Node, int>, preds: map<Node, seq<Node>>)
    requires Valid(g) && Complete(g, s, order, dist, count, preds)
    ensures forall v :: v in order <==> Conn(g, {}, s, v)
    ensures forall i, j | 0 <= i < j < |order| ::
              order[i] != order[j] && Dist(g, s, order[i]) <= Dist(g, s, order[j])
    ensures forall v | v in order :: Tally(count, v) == Sigma(g, s, v)
    ensures forall u, w :: u in Listed(preds, w) <==> Conn(g, {}, s, u) && w in Succ(g, s, u)
  {
    hide Conn, Dist, Sigma, Succ, Tally, Listed;
    forall v ensures v in order <==> Conn(g, {}, s, v)
             ensures v in order ==> Tally(count, v) == Sigma(g, s, v) {
      assert QueuedAt(order, dist, v);
      DistancesExact(g, s, order, dist, v);
      if v in order {
        CountsExact(g, s, order, dist, count, preds, v);
      }
    }
    forall i, j | 0 <= i < j < |order|
      ensures order[i] != order[j] && Dist(g, s, order[i]) <= Dist(g, s, order[j]) {
      assert OrderAt(order, dist, i, j);
      DistancesExact(g, s, order, dist, order[i]);
      DistancesExact(g, s, order, dist, order[j]);
    }
    forall u, w ensures u in Listed(preds, w) <==> Conn(g, {}, s, u) && w in Succ(g, s, u) {
      PredsExact(g, s, order, dist, count, preds, u, w);
    }
  }

  lemma PredTally(g: Graph, s: Node, order: seq<Node>, dist: map<Node, int>,
                  count: map<Node, int>, preds: map<Node, seq<Node>>, u: Node, w: Node)
    requires Valid(g) && Complete(g, s, order, dist, count, preds) && u in Listed(preds, w)
    ensures u in dist && w in dist && dist[u] + 1 == dist[w] && dist[u] >= 0 && u in Nbrs(g, w)
    ensures Dist(g, s, u) == dist[u] && s != w
  {
    assert PredAt(g, order, |order|, dist, {}, preds, u, w);
    DistancesExact(g, s, order, dist, u);
    assert WalkAt(g, s, dist, u);
    NbrsSymmetric(g, u, w);
  }

  // ---------------------------------------------------------------- conservation at one node

  /** What `w` passes back, by predecessor. */
  ghost function PassedBy(g: Graph, s: Node, w: Node): Node -> real {
    (u: Node) => Passed(g, s, u)(w)
  }

  lemma Proportional(a: real, b: real, c: real)
    requires c > 0.0
    ensures a * (b / c) == Times(a / c, b) && Times(a / c, c) == a
  {}

  lemma PassedIs(g: Graph, s: Node, u: Node, w: Node)
    requires Sigma(g, s, w) > 0
    ensures Passed(g, s, u)(w) == Times((1.0 + Dependency(g, s, w)) / Sigma(g, s, w) as real, Sigma(g, s, u) as real)
  {
    hide Dependency, Sigma, Times;
    Proportional(1.0 + Dependency(g, s, w), Sigma(g, s, u) as real, Sigma(g, s, w) as real);
  }

  /** A popped node splits exactly one plus its own dependency among its predecessors. */
  lemma SplitsWhole(g: Graph, s: Node, order: seq<Node>, dist: map<Node, int>,
                    count: map<Node, int>, preds: map<Node, seq<Node>>, w: Node)
    requires Valid(g) && Complete(g, s, order, dist, count, preds) && w in dist && w != s
    ensures Sum(Elements(Listed(preds, w)), PassedBy(g, s, w)) == 1.0 + Dependency(g, s, w)
  {
    hide Sum, Dependency, Sigma, Dist, Times, Complete, Passed;
    ReachedIffKnown(g, s, order, dist, count, preds, w);
    DistIs(g, s, w);
    var a, c := 1.0 + Dependency(g, s, w), Sigma(g, s, w) as real;
    var ps := Elements(Listed(preds, w));
    forall u | u in ps ensures PassedBy(g, s, w)(u) == Times(a / c, Tallies(count)(u)) {
      PredTally(g, s, order, dist, count, preds, u, w);
      CountsExact(g, s, order, dist, count, preds, u);
      PassedIs(g, s, u, w);
    }
    SumTimes(ps, a / c, Tallies(count), PassedBy(g, s, w));
    CountsExact(g, s, order, dist, count, preds, w);
    TallySum(g, s, order, dist, count, preds, w);
    Proportional(a, c, c);
  }

  lemma ReachedIffKnown(g: Graph, s: Node, order: seq<Node>, dist: map<Node, int>,
                        count: map<Node, int>, preds: map<Node, seq<Node>>, w: Node)
    requires Valid(g) && Complete(g, s, order, dist, count, preds)
    ensures w in dist <==> Conn(g, {}, s, w)
  {
    DistancesExact(g, s, order, dist, w);
  }

  lemma TallySum(g: Graph, s: Node, order: seq<Node>, dist: map<Node, int>,
                 count: map<Node, int>, preds: map<Node, seq<Node>>, w: Node)
    requires Complete(g, s, order, dist, count, preds) && w != s
    ensures Tally(count, w) as real == Sum(Elements(Listed(preds, w)), Tallies(count))
  {
    assert TallyAt(s, count, preds, w);
  }
}
