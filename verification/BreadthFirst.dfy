/** Breadth-first search: the invariants of the queue, and what the finished search knows.
    `order` is the sequence of nodes already taken from the queue followed by the queue, `k` the
    number taken; `pending` are the neighbours of the last node taken that are still to be seen. */
module BreadthFirst {
  import opened Graphs
  import opened Ordering
  import opened ShortestPaths
  import opened Distances
  import opened Components

  ghost predicate Taken(order: seq<Node>, k: int, u: Node) {
    exists i :: 0 <= i < k && i < |order| && order[i] == u
  }

  ghost predicate Current(order: seq<Node>, k: int, u: Node) {
    0 < k <= |order| && u == order[k - 1]
  }

  // ---------------------------------------------------------------- distances

  /** Each node is queued once, in order of distance. */
  ghost predicate OrderAt(order: seq<Node>, dist: map<Node, int>, i: int, j: int) {
    0 <= i < j < |order| ==>
      && order[i] != order[j] && order[i] in dist && order[j] in dist
      && dist[order[i]] <= dist[order[j]]
  }

  ghost predicate QueuedAt(order: seq<Node>, dist: map<Node, int>, x: Node) {
    x in dist <==> exists i :: 0 <= i < |order| && order[i] == x
  }

  ghost predicate WalkAt(g: Graph, s: Node, dist: map<Node, int>, x: Node) {
    x in dist ==> dist[x] >= 0 && Count(g, s, x, dist[x]) > 0
  }

  /** Nothing known lies more than one step beyond the node in hand. */
  ghost predicate LevelAt(order: seq<Node>, k: int, dist: map<Node, int>, x: Node) {
    x in dist && 0 < k <= |order| ==> order[k - 1] in dist && dist[x] <= dist[order[k - 1]] + 1
  }

  ghost predicate SpreadAt(g: Graph, order: seq<Node>, k: int, dist: map<Node, int>, pending: set<Node>, u: Node,
                           w: Node) {
    Taken(order, k, u) && w in Nbrs(g, u) && !(Current(order, k, u) && w in pending) ==>
      u in dist && w in dist && dist[w] <= dist[u] + 1
  }

  ghost predicate Layered(g: Graph, s: Node, order: seq<Node>, k: int, dist: map<Node, int>, pending: set<Node>) {
    && 0 <= k <= |order| && |order| > 0 && order[0] == s && s in dist && dist[s] == 0
    && (k == 0 ==> order == [s])
    && (forall i, j :: OrderAt(order, dist, i, j))
    && (forall x :: QueuedAt(order, dist, x))
    && (forall x :: WalkAt(g, s, dist, x))
    && (forall x :: LevelAt(order, k, dist, x))
    && (forall u, w :: SpreadAt(g, order, k, dist, pending, u, w))
  }

  lemma LayeredStart(g: Graph, s: Node)
    requires Valid(g) && s in g.nodes
    ensures Layered(g, s, [s], 0, map[s := 0], {})
  {
    CountZero(g, s, s);
    forall x ensures QueuedAt([s], map[s := 0], x) {
      assert [s][0] == s;
    }
  }

  /** `order[i]` is the only occurrence of a node. */
  lemma TakenAt(order: seq<Node>, dist: map<Node, int>, k: int, i: int)
    requires (forall a, b :: OrderAt(order, dist, a, b)) && 0 <= i < |order|
    ensures Taken(order, k, order[i]) <==> i < k
  {
    if j :| 0 <= j < k && j < |order| && order[j] == order[i] {
      assert OrderAt(order, dist, i, j) && OrderAt(order, dist, j, i);
    }
  }

  lemma LayeredTake(g: Graph, s: Node, order: seq<Node>, k: int, dist: map<Node, int>)
    requires Layered(g, s, order, k, dist, {}) && k < |order|
    ensures Layered(g, s, order, k + 1, dist, Nbrs(g, order[k]))
  {
    var node, next := order[k], k + 1;
    assert QueuedAt(order, dist, node);
    forall x ensures LevelAt(order, next, dist, x) {
      assert LevelAt(order, k, dist, x) && OrderAt(order, dist, k - 1, k) && QueuedAt(order, dist, x);
    }
    forall u, w ensures SpreadAt(g, order, next, dist, Nbrs(g, node), u, w) {
      assert SpreadAt(g, order, k, dist, {}, u, w);
    }
  }

  lemma CountStep(g: Graph, s: Node, u: Node, w: Node, d: nat)
    requires Valid(g) && Count(g, s, u, d) > 0 && w in Nbrs(g, u)
    ensures Count(g, s, w, d + 1) > 0
  {
    var p :| p in WalkSet(g, s, u, d);
    WalkSetExact(g, s, u, d, p);
    NbrsSymmetric(g, u, w);
    assert p[|p| - 1] == u;
    StepWalk(g, p, s, u, w);
    WalkSetExact(g, s, w, d + 1, p + [w]);
    assert p + [w] in WalkSet(g, s, w, d + 1);
  }

  /** A neighbour that is known already. */
  lemma LayeredSee(g: Graph, s: Node, order: seq<Node>, k: int, dist: map<Node, int>, pending: set<Node>, w: Node)
    requires Layered(g, s, order, k, dist, pending) && 0 < k && w in dist
    ensures Layered(g, s, order, k, dist, pending - {w})
  {
    assert LevelAt(order, k, dist, w);
    forall u, x ensures SpreadAt(g, order, k, dist, pending - {w}, u, x) {
      assert SpreadAt(g, order, k, dist, pending, u, x);
    }
  }

  /** A new neighbour joins the queue one step beyond the node in hand. */
  lemma LayeredAdd(g: Graph, s: Node, order: seq<Node>, k: int, dist: map<Node, int>, pending: set<Node>, w: Node)
    requires Valid(g) && Layered(g, s, order, k, dist, pending) && 0 < k && w !in dist && w in Nbrs(g, order[k - 1])
    requires order[k - 1] in dist
    ensures Layered(g, s, order + [w], k, dist[w := dist[order[k - 1]] + 1], pending)
    ensures w in pending
  {
    var u := order[k - 1];
    var dist' := dist[w := dist[u] + 1];
    var order' := order + [w];
    assert WalkAt(g, s, dist, u);
    CountStep(g, s, u, w, dist[u]);
    hide Count, Nbrs;
    assert SpreadAt(g, order, k, dist, pending, u, w) && Taken(order, k, u);
    forall i, j ensures OrderAt(order', dist', i, j) {
      AddOrder(g, s, order, k, dist, pending, w, i, j);
    }
    forall x ensures QueuedAt(order', dist', x) {
      assert QueuedAt(order, dist, x);
      assert order'[|order|] == w;
      if i :| 0 <= i < |order| && order[i] == x {
        assert order'[i] == x;
      }
    }
    forall x ensures WalkAt(g, s, dist', x) { assert WalkAt(g, s, dist, x); }
    forall x ensures LevelAt(order', k, dist', x) { assert LevelAt(order, k, dist, x); }
    forall v, x ensures SpreadAt(g, order', k, dist', pending, v, x) {
      assert SpreadAt(g, order, k, dist, pending, v, x);
      AddTaken(order, k, w, v);
    }
  }

  lemma AddTaken(order: seq<Node>, k: int, w: Node, v: Node)
    requires 0 <= k <= |order|
    ensures Taken(order + [w], k, v) <==> Taken(order, k, v)
    ensures Current(order + [w], k, v) <==> Current(order, k, v)
  {
    if i :| 0 <= i < k && i < |order| && order[i] == v {
      assert (order + [w])[i] == v;
    }
  }

  lemma AddOrder(g: Graph, s: Node, order: seq<Node>, k: int, dist: map<Node, int>, pending: set<Node>, w: Node,
                 i: int, j: int)
    requires Layered(g, s, order, k, dist, pending) && 0 < k && w !in dist && order[k - 1] in dist
    ensures OrderAt(order + [w], dist[w := dist[order[k - 1]] + 1], i, j)
  {
    assert OrderAt(order, dist, i, j);
    if 0 <= i < |order| == j {
      assert QueuedAt(order, dist, order[i]) && LevelAt(order, k, dist, order[i]);
    }
  }

  // ---------------------------------------------------------------- the finished search: distances

  /** The queue has run empty. */
  ghost predicate Exhausted(g: Graph, s: Node, order: seq<Node>, dist: map<Node, int>) {
    Layered(g, s, order, |order|, dist, {})
  }

  lemma {:induction false} WalksAreBounded(g: Graph, s: Node, order: seq<Node>, dist: map<Node, int>, t: Node, n: nat)
    requires Valid(g) && Exhausted(g, s, order, dist) && Count(g, s, t, n) > 0
    ensures t in dist && dist[t] <= n
    decreases n
  {
    if n == 0 {
      CountZero(g, s, t);
    } else {
      var p :| p in WalkSet(g, s, t, n);
      var w, q :| w in Nbrs(g, t) && q in WalkSet(g, s, w, n - 1) && p == q + [t];
      assert Count(g, s, w, n - 1) > 0;
      WalksAreBounded(g, s, order, dist, w, n - 1);
      NbrsSymmetric(g, t, w);
      assert QueuedAt(order, dist, w);
      assert SpreadAt(g, order, |order|, dist, {}, w, t);
    }
  }

  /** Breadth-first search finds every reachable node at its true distance. */
  lemma DistancesExact(g: Graph, s: Node, order: seq<Node>, dist: map<Node, int>, t: Node)
    requires Valid(g) && Exhausted(g, s, order, dist)
    ensures t in dist <==> Conn(g, {}, s, t)
    ensures t in dist ==> dist[t] == Dist(g, s, t)
  {
    if t in dist {
      assert WalkAt(g, s, dist, t);
      forall k: nat | k < dist[t] ensures Count(g, s, t, k) == 0 {
        if Count(g, s, t, k) > 0 {
          WalksAreBounded(g, s, order, dist, t, k);
        }
      }
      assert IsDist(g, s, t, dist[t]);
      DistUnique(g, s, t, dist[t]);
    } else if Conn(g, {}, s, t) {
      DistIs(g, s, t);
      WalksAreBounded(g, s, order, dist, t, Dist(g, s, t));
    }
  }

  lemma ReachedComponent(g: Graph, s: Node, order: seq<Node>, dist: map<Node, int>)
    requires Valid(g) && Exhausted(g, s, order, dist)
    ensures dist.Keys == Comp(g, {}, s)
  {
    forall t ensures t in dist <==> t in Comp(g, {}, s) {
      DistancesExact(g, s, order, dist, t);
      CompMember(g, {}, s, t);
    }
  }

  lemma LayeredKeys(g: Graph, s: Node, order: seq<Node>, k: int, dist: map<Node, int>, pending: set<Node>)
    requires Valid(g) && Layered(g, s, order, k, dist, pending)
    ensures dist.Keys <= g.nodes
  {
    forall x | x in dist ensures x in g.nodes {
      assert WalkAt(g, s, dist, x);
      ConnIffCount(g, s, x);
      ConnEnds(g, {}, s, x);
    }
  }

  // ---------------------------------------------------------------- for the loops

  lemma CurrentKnown(g: Graph, s: Node, order: seq<Node>, k: int, dist: map<Node, int>, pending: set<Node>)
    requires Layered(g, s, order, k, dist, pending) && 0 < k <= |order|
    ensures order[k - 1] in dist && dist[order[k - 1]] >= 0
  {
    assert QueuedAt(order, dist, order[k - 1]) && WalkAt(g, s, dist, order[k - 1]);
  }

  /** Seeing the next element of an increasing list removes it from what is pending. */
  lemma DropFirst(list: seq<Node>, i: int, pending: set<Node>)
    requires Increasing(list) && 0 <= i < |list| && forall x :: x in pending <==> x in list[i..]
    ensures forall x :: x in pending - {list[i]} <==> x in list[i + 1..]
  {
    assert list[i..] == [list[i]] + list[i + 1..];
    var tail := list[i + 1..];
    forall x | x in tail ensures x != list[i] {
      var j :| 0 <= j < |tail| && tail[j] == x;
      assert list[i + 1 + j] == x;
    }
  }
}
