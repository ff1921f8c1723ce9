/** The greedy merge run, stated on partitions alone: no forest, no gain formula. */
module Greedy {
  import opened Graphs
  import opened Modularity

  ghost function Singletons(g: Graph): set<set<Node>> {
    set x | x in g.nodes :: {x}
  }

  /** Everything that shares a block with `x`. */
  ghost function BlockOf(blocks: set<set<Node>>, x: Node): set<Node> {
    set c, y | c in blocks && x in c && y in c :: y
  }

  /** The blocks at the two ends of `e` are merged when that raises the modularity by more than `theta`. */
  ghost function Step(g: Graph, theta: real, blocks: set<set<Node>>, e: Edge): set<set<Node>> {
    var c, d := BlockOf(blocks, e.a), BlockOf(blocks, e.b);
    var merged := blocks - {c, d} + {c + d};
    if c != d && Quality(g, merged) - Quality(g, blocks) > theta then merged else blocks
  }

  /** One pass takes the edges of `order` from the first to the last. */
  ghost function Pass(g: Graph, theta: real, blocks: set<set<Node>>, order: seq<Edge>): set<set<Node>> {
    if order == [] then blocks
    else Step(g, theta, Pass(g, theta, blocks, order[..|order| - 1]), order[|order| - 1])
  }

  /** The partition after `k` passes from the singletons. */
  ghost function Passes(g: Graph, theta: real, order: seq<Edge>, k: nat): set<set<Node>> {
    if k == 0 then Singletons(g) else Pass(g, theta, Passes(g, theta, order, k - 1), order)
  }

  /** `order` lists the edges by first end, ties by second end. */
  ghost predicate InEdgeOrder(g: Graph, order: seq<Edge>) {
    && (forall e :: e in order <==> e in g.edges)
    && (forall i, j | 0 <= i < j < |order| ::
          order[i].a < order[j].a || (order[i].a == order[j].a && order[i].b < order[j].b))
  }

  /** `blocks` is reached after `k` passes, and one more pass leaves it alone. */
  ghost predicate SettlesAt(g: Graph, theta: real, order: seq<Edge>, k: nat, blocks: set<set<Node>>) {
    blocks == Passes(g, theta, order, k) && Pass(g, theta, blocks, order) == blocks
  }

  /** `blocks` is where the passes over the ordered edges settle. */
  ghost predicate IsGreedy(g: Graph, theta: real, blocks: set<set<Node>>) {
    exists order, k: nat :: InEdgeOrder(g, order) && SettlesAt(g, theta, order, k, blocks)
  }

  lemma GreedyIs(g: Graph, theta: real, order: seq<Edge>, k: nat, blocks: set<set<Node>>)
    requires (forall e :: e in order <==> e in g.edges) && forall i, j | 0 <= i < j < |order| ::
               order[i].a < order[j].a || (order[i].a == order[j].a && order[i].b < order[j].b)
    requires blocks == Passes(g, theta, order, k) && Pass(g, theta, blocks, order) == blocks
    ensures IsGreedy(g, theta, blocks)
  {
    hide Pass, Passes;
    assert InEdgeOrder(g, order) && SettlesAt(g, theta, order, k, blocks);
  }

  lemma PassNext(g: Graph, theta: real, blocks: set<set<Node>>, order: seq<Edge>, i: nat)
    requires i < |order|
    ensures Pass(g, theta, blocks, order[..i + 1]) == Step(g, theta, Pass(g, theta, blocks, order[..i]), order[i])
  {
    assert order[..i + 1][..i] == order[..i];
  }

  lemma PassStart(g: Graph, theta: real, blocks: set<set<Node>>, order: seq<Edge>)
    ensures Pass(g, theta, blocks, order[..0]) == blocks && order[..|order|] == order
  {}

  lemma PassesNext(g: Graph, theta: real, order: seq<Edge>, k: nat)
    ensures Passes(g, theta, order, 0) == Singletons(g)
    ensures Passes(g, theta, order, k + 1) == Pass(g, theta, Passes(g, theta, order, k), order)
  {}

  // ---------------------------------------------------------------- the result is unique

  lemma {:induction false} OrderUnique(q: seq<Edge>, r: seq<Edge>)
    requires forall i, j | 0 <= i < j < |q| :: q[i].a < q[j].a || (q[i].a == q[j].a && q[i].b < q[j].b)
    requires forall i, j | 0 <= i < j < |r| :: r[i].a < r[j].a || (r[i].a == r[j].a && r[i].b < r[j].b)
    requires forall e :: e in q <==> e in r
    ensures q == r
  {
    assert (q != [] ==> q[0] in q) && (r != [] ==> r[0] in r);
    if q != [] {
      var k :| 0 <= k < |r| && r[k] == q[0];
      var m :| 0 <= m < |q| && q[m] == r[0];
      assert q[0] == r[0];
      forall e ensures e in q[1..] <==> e in r[1..] {
        assert e in q <==> e == q[0] || e in q[1..];
        assert e in r <==> e == r[0] || e in r[1..];
      }
      OrderUnique(q[1..], r[1..]);
    }
  }

  /** Once a pass changes nothing, no later pass does. */
  lemma {:induction false} SettledForGood(g: Graph, theta: real, order: seq<Edge>, k: nat, m: nat)
    requires k <= m && Pass(g, theta, Passes(g, theta, order, k), order) == Passes(g, theta, order, k)
    ensures Passes(g, theta, order, m) == Passes(g, theta, order, k)
    decreases m
  {
    hide Pass;
    if k < m {
      SettledForGood(g, theta, order, k, m - 1);
    }
  }

  /** The run has one result only. */
  lemma GreedyUnique(g: Graph, theta: real, blocks: set<set<Node>>, other: set<set<Node>>)
    requires IsGreedy(g, theta, blocks) && IsGreedy(g, theta, other)
    ensures blocks == other
  {
    hide Pass, Passes;
    var order, k: nat :| InEdgeOrder(g, order) && SettlesAt(g, theta, order, k, blocks);
    var order', m: nat :| InEdgeOrder(g, order') && SettlesAt(g, theta, order', m, other);
    OrderUnique(order, order');
    if k <= m {
      SettledForGood(g, theta, order, k, m);
    } else {
      SettledForGood(g, theta, order, m, k);
    }
  }
}
