/** Distances and the share of shortest paths through a node. */
module Distances {
  import opened Graphs
  import opened ShortestPaths

  ghost predicate IsDist(g: Graph, s: Node, t: Node, d: nat) {
    Count(g, s, t, d) > 0 && forall k: nat | k < d :: Count(g, s, t, k) == 0
  }

  /** Length of a shortest walk; 0 when there is none. */
  ghost function Dist(g: Graph, s: Node, t: Node): nat {
    if exists d: nat :: IsDist(g, s, t, d) then
      var d: nat :| IsDist(g, s, t, d); d
    else 0
  }

  /** Number of shortest paths. */
  ghost function Sigma(g: Graph, s: Node, t: Node): nat {
    Count(g, s, t, Dist(g, s, t))
  }

  lemma {:induction false} LeastLength(g: Graph, s: Node, t: Node, n: nat)
    requires Count(g, s, t, n) > 0
    ensures exists d: nat :: d <= n && IsDist(g, s, t, d)
    decreases n
  {
    if k: nat :| k < n && Count(g, s, t, k) > 0 {
      LeastLength(g, s, t, k);
    } else {
      assert IsDist(g, s, t, n);
    }
  }

  lemma ConnIffCount(g: Graph, s: Node, t: Node)
    requires Valid(g)
    ensures Conn(g, {}, s, t) <==> exists n: nat :: Count(g, s, t, n) > 0
  {
    if p :| Walk(g, {}, p, s, t) {
      WalkSetExact(g, s, t, |p| - 1, p);
      assert WalkSet(g, s, t, |p| - 1) != {};
      assert Count(g, s, t, |p| - 1) > 0;
    }
    if n: nat :| Count(g, s, t, n) > 0 {
      var p :| p in WalkSet(g, s, t, n);
      WalkSetExact(g, s, t, n, p);
    }
  }

  lemma DistIs(g: Graph, s: Node, t: Node)
    requires Valid(g) && Conn(g, {}, s, t)
    ensures IsDist(g, s, t, Dist(g, s, t)) && Sigma(g, s, t) > 0
  {
    ConnIffCount(g, s, t);
    var n: nat :| Count(g, s, t, n) > 0;
    LeastLength(g, s, t, n);
  }

  /** A walk of length `n` bounds the distance. */
  lemma DistLeast(g: Graph, s: Node, t: Node, n: nat)
    requires Valid(g) && Count(g, s, t, n) > 0
    ensures Conn(g, {}, s, t) && Dist(g, s, t) <= n
  {
    ConnIffCount(g, s, t);
    DistIs(g, s, t);
  }

  lemma DistUnique(g: Graph, s: Node, t: Node, d: nat)
    requires Valid(g) && IsDist(g, s, t, d)
    ensures Conn(g, {}, s, t) && Dist(g, s, t) == d
  {
    DistLeast(g, s, t, d);
    DistIs(g, s, t);
  }

  lemma DistSelf(g: Graph, s: Node)
    requires Valid(g) && s in g.nodes
    ensures Conn(g, {}, s, s) && Dist(g, s, s) == 0 && Sigma(g, s, s) == 1
  {
    CountZero(g, s, s);
    DistUnique(g, s, s, 0);
  }

  lemma DistZero(g: Graph, s: Node, t: Node)
    requires Valid(g) && Conn(g, {}, s, t) && Dist(g, s, t) == 0
    ensures s == t
  {
    DistIs(g, s, t);
    CountZero(g, s, t);
  }

  lemma DistSymmetric(g: Graph, s: Node, t: Node)
    requires Valid(g) && Conn(g, {}, s, t)
    ensures Conn(g, {}, t, s) && Dist(g, t, s) == Dist(g, s, t) && Sigma(g, t, s) == Sigma(g, s, t)
  {
    DistIs(g, s, t);
    var d := Dist(g, s, t);
    forall k: nat ensures Count(g, t, s, k) == Count(g, s, t, k) {
      CountSymmetric(g, s, t, k);
    }
    assert IsDist(g, t, s, d);
    DistUnique(g, t, s, d);
  }

  lemma CountJoin(g: Graph, s: Node, v: Node, t: Node, a: nat, b: nat)
    requires Valid(g) && Count(g, s, v, a) > 0 && Count(g, v, t, b) > 0
    ensures Count(g, s, t, a + b) > 0
  {
    ThroughCount(g, s, v, t, a, b);
    hide Count;
    assert Count(g, s, v, a) as real * Count(g, v, t, b) as real > 0.0;
    hide *;
    NonEmpty(g, s, v, t, a, b);
  }

  lemma NonEmpty(g: Graph, s: Node, v: Node, t: Node, a: nat, b: nat)
    requires |Through(g, s, v, t, a, b)| > 0
    ensures Count(g, s, t, a + b) > 0
  {
    var p :| p in Through(g, s, v, t, a, b);
    assert p in WalkSet(g, s, t, a + b);
  }

  lemma Triangle(g: Graph, s: Node, v: Node, t: Node)
    requires Valid(g) && Conn(g, {}, s, v) && Conn(g, {}, v, t)
    ensures Conn(g, {}, s, t) && Dist(g, s, t) <= Dist(g, s, v) + Dist(g, v, t)
  {
    DistIs(g, s, v);
    DistIs(g, v, t);
    CountJoin(g, s, v, t, Dist(g, s, v), Dist(g, v, t));
    DistLeast(g, s, t, Dist(g, s, v) + Dist(g, v, t));
  }

  /** Distances to neighbours differ by at most one. */
  lemma NbrDist(g: Graph, s: Node, v: Node, w: Node)
    requires Valid(g) && Conn(g, {}, s, v) && w in Nbrs(g, v)
    ensures Conn(g, {}, s, w) && Dist(g, s, w) <= Dist(g, s, v) + 1
  {
    NbrsSymmetric(g, v, w);
    CountZero(g, v, v);
    ConnEnds(g, {}, s, v);
    ConnEdge(g, {}, v, w);
    EdgeDist(g, v, w);
    Triangle(g, s, v, w);
  }

  lemma EdgeDist(g: Graph, v: Node, w: Node)
    requires Valid(g) && v in g.nodes && w in Nbrs(g, v)
    ensures Conn(g, {}, v, w) && Dist(g, v, w) == 1
  {
    ConnEdge(g, {}, v, w);
    var p := [v, w];
    assert Walk(g, {}, p, v, w);
    WalkSetExact(g, v, w, 1, p);
    assert Count(g, v, w, 1) > 0 by {
      assert p in WalkSet(g, v, w, 1);
    }
    CountZero(g, v, w);
    assert IsDist(g, v, w, 1);
    DistUnique(g, v, w, 1);
  }

  // ---------------------------------------------------------------- paths via a node

  /** The shortest paths from `s` to `t`. */
  ghost function Shortest(g: Graph, s: Node, t: Node): set<seq<Node>> {
    WalkSet(g, s, t, Dist(g, s, t))
  }

  /** Those that pass through `v`, ends included. */
  ghost function Via(g: Graph, s: Node, t: Node, v: Node): set<seq<Node>> {
    set p | p in Shortest(g, s, t) && v in p
  }

  /** Shortest paths through `v` over all shortest paths; 0 for a pair that is not joined. */
  ghost function Share(g: Graph, s: Node, t: Node, v: Node): real {
    if Conn(g, {}, s, t) && Sigma(g, s, t) > 0
    then |Via(g, s, t, v)| as real / Sigma(g, s, t) as real else 0.0
  }

  ghost predicate Between(g: Graph, s: Node, v: Node, t: Node) {
    Conn(g, {}, s, v) && Conn(g, {}, v, t) && Dist(g, s, v) + Dist(g, v, t) == Dist(g, s, t)
  }

  /** Where a shortest path meets `v`. */
  lemma ViaPosition(g: Graph, s: Node, t: Node, v: Node, p: seq<Node>, i: nat)
    requires Valid(g) && Conn(g, {}, s, t) && p in Shortest(g, s, t) && i < |p| && p[i] == v
    ensures Between(g, s, v, t) && i == Dist(g, s, v)
  {
    var d := Dist(g, s, t);
    WalkSetExact(g, s, t, d, p);
    PrefixWalk(g, p, s, t, i);
    WalkSetExact(g, s, v, i, p[..i + 1]);
    WalkSetExact(g, v, t, d - i, p[i..]);
    assert WalkSet(g, s, v, i) != {} && WalkSet(g, v, t, d - i) != {};
    DistLeast(g, s, v, i);
    DistLeast(g, v, t, d - i);
    Triangle(g, s, v, t);
  }

  lemma ViaIsThrough(g: Graph, s: Node, t: Node, v: Node)
    requires Valid(g) && Conn(g, {}, s, t)
    ensures Between(g, s, v, t) ==> Via(g, s, t, v) == Through(g, s, v, t, Dist(g, s, v), Dist(g, v, t))
    ensures !Between(g, s, v, t) ==> Via(g, s, t, v) == {}
  {
    forall p | p in Via(g, s, t, v) ensures Between(g, s, v, t) && |p| > Dist(g, s, v) && p[Dist(g, s, v)] == v {
      var i :| 0 <= i < |p| && p[i] == v;
      ViaPosition(g, s, t, v, p, i);
    }
  }

  /** The number of shortest paths via `v` in closed form. */
  lemma ViaCount(g: Graph, s: Node, t: Node, v: Node)
    requires Valid(g) && Conn(g, {}, s, t)
    ensures |Via(g, s, t, v)| as real ==
            if Between(g, s, v, t) then Sigma(g, s, v) as real * Sigma(g, v, t) as real else 0.0
  {
    hide Count, Through, Via, Dist, Between;
    ViaIsThrough(g, s, t, v);
    if Between(g, s, v, t) {
      ThroughCount(g, s, v, t, Dist(g, s, v), Dist(g, v, t));
    }
  }

  lemma ShareFormula(g: Graph, s: Node, t: Node, v: Node)
    requires Valid(g) && Conn(g, {}, s, t)
    ensures Sigma(g, s, t) > 0
    ensures Share(g, s, t, v) ==
            if Between(g, s, v, t)
            then Sigma(g, s, v) as real * Sigma(g, v, t) as real / Sigma(g, s, t) as real
            else 0.0
  {
    DistIs(g, s, t);
    ViaCount(g, s, t, v);
  }

  lemma BetweenSymmetric(g: Graph, s: Node, v: Node, t: Node)
    requires Valid(g) && Between(g, s, v, t)
    ensures Between(g, t, v, s)
  {
    DistSymmetric(g, s, v);
    DistSymmetric(g, v, t);
    Triangle(g, s, v, t);
    DistSymmetric(g, s, t);
  }

  /** The share does not depend on the direction of the pair. */
  lemma ShareSymmetric(g: Graph, s: Node, t: Node, v: Node)
    requires Valid(g)
    ensures Share(g, s, t, v) == Share(g, t, s, v)
  {
    hide Sigma, Dist, Via;
    if Conn(g, {}, s, t) {
      DistSymmetric(g, s, t);
      ShareFormula(g, s, t, v);
      ShareFormula(g, t, s, v);
      if Between(g, s, v, t) {
        BetweenSymmetric(g, s, v, t);
        DistSymmetric(g, s, v);
        DistSymmetric(g, v, t);
      } else if Between(g, t, v, s) {
        BetweenSymmetric(g, t, v, s);
      }
    } else if Conn(g, {}, t, s) {
      ConnSym(g, {}, t, s);
    }
  }

  lemma ShareBounds(g: Graph, s: Node, t: Node, v: Node)
    requires Valid(g)
    ensures 0.0 <= Share(g, s, t, v)
  {}

  /** Every shortest path passes through its own ends. */
  lemma ShareEnds(g: Graph, s: Node, t: Node)
    requires Valid(g) && Conn(g, {}, s, t)
    ensures Share(g, s, t, s) == 1.0 && Share(g, s, t, t) == 1.0
  {
    ConnEnds(g, {}, s, t);
    DistSelf(g, s);
    DistSelf(g, t);
    ShareFormula(g, s, t, s);
    ShareFormula(g, s, t, t);
    hide Sigma, Share;
    var c := Sigma(g, s, t) as real;
    assert 1.0 * c / c == 1.0 && c * 1.0 / c == 1.0;
  }
}
