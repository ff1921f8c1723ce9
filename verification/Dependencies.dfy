/** The dependency of a source on a node: summed shares of shortest paths, and the recurrence
    over successors that lets it be accumulated backwards. */
module Dependencies {
  import opened Sums
  import opened Graphs
  import opened ShortestPaths
  import opened Distances
  import opened Components

  ghost function ShareOf(g: Graph, s: Node, v: Node): Node -> real {
    (t: Node) => Share(g, s, t, v)
  }

  /** Summed share of `v` on the shortest paths from `s` to all other reachable nodes. */
  ghost function Dependency(g: Graph, s: Node, v: Node): real {
    Sum(Comp(g, {}, s) - {v}, ShareOf(g, s, v))
  }

  /** Neighbours one step further from `s`. */
  ghost function Succ(g: Graph, s: Node, v: Node): set<Node> {
    set w | w in Nbrs(g, v) && Dist(g, s, w) == Dist(g, s, v) + 1
  }

  ghost function Ratio(g: Graph, s: Node, v: Node, w: Node): real {
    if Sigma(g, s, w) > 0 then Sigma(g, s, v) as real / Sigma(g, s, w) as real else 0.0
  }

  /** What `w` passes back to its predecessor `v`. */
  ghost function Passed(g: Graph, s: Node, v: Node): Node -> real {
    (w: Node) => (1.0 + Dependency(g, s, w)) * Ratio(g, s, v, w)
  }

  ghost function Split(g: Graph, s: Node, v: Node): (Node, Node) -> real {
    (t: Node, w: Node) => Ratio(g, s, v, w) * Share(g, s, t, w)
  }

  lemma SuccDist(g: Graph, s: Node, v: Node, w: Node, t: Node)
    requires Valid(g) && Conn(g, {}, s, v) && Conn(g, {}, v, t) && w in Nbrs(g, v)
    ensures Conn(g, {}, s, w) && Conn(g, {}, w, t) && Conn(g, {}, s, t)
    ensures Dist(g, v, t) <= Dist(g, w, t) + 1 && Dist(g, s, w) <= Dist(g, s, v) + 1
    ensures Dist(g, s, t) <= Dist(g, s, w) + Dist(g, w, t)
    ensures Dist(g, s, t) <= Dist(g, s, v) + Dist(g, v, t)
  {
    hide Dist;
    NbrDist(g, s, v, w);
    ConnEnds(g, {}, s, v);
    EdgeDist(g, v, w);
    ConnSym(g, {}, v, w);
    ConnTrans(g, {}, w, v, t);
    Triangle(g, v, w, t);
    Triangle(g, s, w, t);
    Triangle(g, s, v, t);
  }

  /** A neighbour of `v` starts a rest of a shortest path exactly when it is a successor. */
  lemma ContinueIffSucc(g: Graph, s: Node, v: Node, t: Node, w: Node)
    requires Valid(g) && Between(g, s, v, t) && Dist(g, v, t) > 0 && w in Nbrs(g, v)
    requires Count(g, w, t, Dist(g, v, t) - 1) > 0
    ensures w in Succ(g, s, v) && Between(g, s, w, t) && Dist(g, w, t) == Dist(g, v, t) - 1
  {
    hide Dist, Count;
    SuccDist(g, s, v, w, t);
    DistLeast(g, w, t, Dist(g, v, t) - 1);
  }

  lemma Cancel(a: real, b: real, c: real, e: real)
    requires b > 0.0 && e > 0.0
    ensures a / b * (b * c / e) == a / e * c
  {
    var x := c / e;
    assert b * c / e == b * x;
    assert a / b * (b * x) == a * x;
    assert a / e * c == a * x;
  }

  lemma Reorder(x: real, y: real, z: real)
    requires z > 0.0
    ensures x * y / z == x / z * y
  {}

  /** The share of a successor, as a fraction of the paths of the pair. */
  lemma SuccShare(g: Graph, s: Node, v: Node, t: Node, w: Node)
    requires Valid(g) && Between(g, s, v, t) && Dist(g, v, t) > 0 && w in Succ(g, s, v)
    ensures Sigma(g, s, t) > 0 && Sigma(g, s, w) > 0
    ensures Share(g, s, t, w) ==
            Sigma(g, s, w) as real * Count(g, w, t, Dist(g, v, t) - 1) as real / Sigma(g, s, t) as real
  {
    hide Count, Sigma, Share;
    SuccDist(g, s, v, w, t);
    DistIs(g, s, w);
    DistIs(g, s, t);
    ShareFormula(g, s, t, w);
    var d := Dist(g, v, t) - 1;
    if Count(g, w, t, d) > 0 {
      ContinueIffSucc(g, s, v, t, w);
      SigmaAt(g, w, t, d);
    } else {
      NoContinuation(g, s, v, t, w);
    }
  }

  lemma NoContinuation(g: Graph, s: Node, v: Node, t: Node, w: Node)
    requires Valid(g) && Between(g, s, v, t) && Dist(g, v, t) > 0 && w in Succ(g, s, v)
    requires Count(g, w, t, Dist(g, v, t) - 1) == 0
    ensures !Between(g, s, w, t)
  {
    hide Dist, Count, Conn, Valid;
    if Between(g, s, w, t) {
      DistIs(g, w, t);
    }
  }

  lemma SplitTerm(g: Graph, s: Node, v: Node, t: Node, w: Node)
    requires Valid(g) && Between(g, s, v, t) && Dist(g, v, t) > 0 && w in Succ(g, s, v)
    ensures Sigma(g, s, t) > 0
    ensures Split(g, s, v)(t, w) ==
            Sigma(g, s, v) as real / Sigma(g, s, t) as real * Count(g, w, t, Dist(g, v, t) - 1) as real
  {
    hide Dist, Count, Sigma, Share;
    SuccShare(g, s, v, t, w);
    Cancel(Sigma(g, s, v) as real, Sigma(g, s, w) as real, Count(g, w, t, Dist(g, v, t) - 1) as real,
           Sigma(g, s, t) as real);
  }

  /** The share of `v` is passed on by its successors in proportion to their path counts. */
  lemma SplitShare(g: Graph, s: Node, v: Node, t: Node)
    requires Valid(g) && Conn(g, {}, s, v) && Conn(g, {}, s, t) && t != v
    ensures Share(g, s, t, v) == Sum(Succ(g, s, v), Row(Split(g, s, v), t))
  {
    hide Sum, Share, Sigma, Count, Dist;
    ConnSym(g, {}, s, v);
    ConnTrans(g, {}, v, s, t);
    ShareFormula(g, s, t, v);
    if Between(g, s, v, t) {
      SplitOnPath(g, s, v, t);
    } else {
      forall w | w in Succ(g, s, v) ensures Row(Split(g, s, v), t)(w) == 0.0 {
        SuccDist(g, s, v, w, t);
        ShareFormula(g, s, t, w);
      }
      SumConstant(Succ(g, s, v), 0.0, Row(Split(g, s, v), t));
    }
  }

  /** The terms of the first-step expansion outside the successors vanish. */
  lemma FirstStepSucc(g: Graph, s: Node, v: Node, t: Node, d: nat)
    requires Valid(g) && Between(g, s, v, t) && Dist(g, v, t) == d + 1
    ensures Sigma(g, v, t) as real == Sum(Succ(g, s, v), To(g, t, d))
  {
    hide Sum, Count, Sigma;
    forall w | w in Nbrs(g, v) - Succ(g, s, v) ensures To(g, t, d)(w) == 0.0 {
      if Count(g, w, t, d) > 0 {
        ContinueIffSucc(g, s, v, t, w);
      }
    }
    SumRestrict(Nbrs(g, v), Succ(g, s, v), To(g, t, d), To(g, t, d));
    CountFirst(g, v, t, d);
    SigmaAt(g, v, t, d + 1);
  }

  lemma SplitOnPath(g: Graph, s: Node, v: Node, t: Node)
    requires Valid(g) && Between(g, s, v, t) && Conn(g, {}, s, t) && t != v
    ensures Share(g, s, t, v) == Sum(Succ(g, s, v), Row(Split(g, s, v), t))
  {
    hide Sum, Share, Sigma, Count, Dist;
    if Dist(g, v, t) == 0 {
      DistZero(g, v, t);
    }
    var d := Dist(g, v, t) - 1;
    ShareFormula(g, s, t, v);
    var c := Sigma(g, s, v) as real / Sigma(g, s, t) as real;
    forall w | w in Succ(g, s, v) ensures Row(Split(g, s, v), t)(w) == c * To(g, t, d)(w) {
      SplitTerm(g, s, v, t, w);
    }
    SumScale(Succ(g, s, v), c, To(g, t, d), Row(Split(g, s, v), t));
    FirstStepSucc(g, s, v, t, d);
    Reorder(Sigma(g, s, v) as real, Sigma(g, v, t) as real, Sigma(g, s, t) as real);
  }

  lemma SigmaAt(g: Graph, v: Node, t: Node, d: nat)
    requires d == Dist(g, v, t)
    ensures Sigma(g, v, t) == Count(g, v, t, d)
  {}

  /** All shares of a node, the one for the node itself being 1. */
  lemma OnePlusDependency(g: Graph, s: Node, w: Node)
    requires Valid(g) && Conn(g, {}, s, w)
    ensures Sum(Comp(g, {}, s), ShareOf(g, s, w)) == 1.0 + Dependency(g, s, w)
  {
    CompMember(g, {}, s, w);
    ShareEnds(g, s, w);
    SumRemove(Comp(g, {}, s), ShareOf(g, s, w), w);
  }

  /** Brandes' recurrence: a node's dependency is what its successors pass back to it. */
  lemma Recurrence(g: Graph, s: Node, v: Node)
    requires Valid(g) && Conn(g, {}, s, v)
    ensures Dependency(g, s, v) == Sum(Succ(g, s, v), Passed(g, s, v))
  {
    hide Sum, Share, Sigma, Dist;
    var c := Comp(g, {}, s);
    var k := Split(g, s, v);
    var f := (t: Node) => if t == v then 0.0 else Share(g, s, t, v);
    forall t | t in c ensures f(t) == Sum(Succ(g, s, v), Row(k, t)) {
      CompMember(g, {}, s, t);
      if t == v {
        SplitAtSelf(g, s, v);
      } else {
        SplitShare(g, s, v, t);
      }
    }
    forall w | w in Succ(g, s, v) ensures Passed(g, s, v)(w) == Sum(c, Column(k, w)) {
      NbrDist(g, s, v, w);
      OnePlusDependency(g, s, w);
      SumScale(c, Ratio(g, s, v, w), ShareOf(g, s, w), Column(k, w));
    }
    SumSwap(c, Succ(g, s, v), k, f, Passed(g, s, v));
    SumRestrict(c, c - {v}, f, ShareOf(g, s, v));
  }

  lemma SplitAtSelf(g: Graph, s: Node, v: Node)
    requires Valid(g) && Conn(g, {}, s, v)
    ensures Sum(Succ(g, s, v), Row(Split(g, s, v), v)) == 0.0
  {
    hide Sum, Share, Sigma, Dist;
    forall w | w in Succ(g, s, v) ensures Row(Split(g, s, v), v)(w) == 0.0 {
      ShareFormula(g, s, v, w);
    }
    SumConstant(Succ(g, s, v), 0.0, Row(Split(g, s, v), v));
  }

  /** From the source itself every shortest path is counted, once per other reachable node. */
  lemma SourceDependency(g: Graph, s: Node)
    requires Valid(g) && s in g.nodes
    ensures Dependency(g, s, s) == (|Comp(g, {}, s)| - 1) as real
  {
    hide Sum, Share;
    var c := Comp(g, {}, s);
    ConnRefl(g, {}, s);
    CompMember(g, {}, s, s);
    assert |c - {s}| == |c| - 1;
    forall t | t in c - {s} ensures ShareOf(g, s, s)(t) == 1.0 {
      CompMember(g, {}, s, t);
      ShareEnds(g, s, t);
    }
    hide Comp;
    SumConstant(c - {s}, 1.0, ShareOf(g, s, s));
  }
}
