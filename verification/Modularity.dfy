/** Modularity of a partition and what merging two blocks changes about it. */
module Modularity {
  import opened Sums
  import opened Graphs

  /** Total degree of a block. */
  ghost function Volume(g: Graph, c: set<Node>): real {
    Sum(c, Degrees(g))
  }

  /** Edges with one end in each block. */
  function Links(g: Graph, c: set<Node>, d: set<Node>): set<Edge> {
    set e | e in g.edges && ((e.a in c && e.b in d) || (e.a in d && e.b in c))
  }

  /** Share of the edges inside `c`, less the share expected from its degrees. */
  ghost function Contribution(g: Graph): set<Node> -> real {
    (c: set<Node>) =>
      if g.edges == {} then 0.0
      else |Internal(g, c)| as real / |g.edges| as real - Times(Volume(g, c) / (2.0 * |g.edges| as real),
                                                                         Volume(g, c) / (2.0 * |g.edges| as real))
  }

  /** Modularity of a partition. */
  ghost function Quality(g: Graph, blocks: set<set<Node>>): real {
    Sum(blocks, Contribution(g))
  }

  /** The gain formula, on edge and degree counts. */
  function ModularityGain(m: nat, links: nat, degC: int, degD: int): real {
    if m == 0 then 0.0
    else links as real / m as real - (degC * degD) as real / (2.0 * m as real * m as real)
  }

  lemma InternalOfMerged(g: Graph, c: set<Node>, d: set<Node>)
    requires c !! d
    ensures |Internal(g, c + d)| == |Internal(g, c)| + |Internal(g, d)| + |Links(g, c, d)|
  {
    assert Internal(g, c + d) == Internal(g, c) + Internal(g, d) + Links(g, c, d);
    assert Internal(g, c) !! Internal(g, d) && Internal(g, c) + Internal(g, d) !! Links(g, c, d);
  }

  lemma VolumeOfMerged(g: Graph, c: set<Node>, d: set<Node>)
    requires c !! d
    ensures Volume(g, c + d) == Volume(g, c) + Volume(g, d)
  {
    SumUnion(c, d, Degrees(g));
  }

  // ---------------------------------------------------------------- arithmetic, product by product

  lemma SquareOfSum(x: real, y: real)
    ensures Times(x + y, x + y) == Times(x, x) + Times(y, y) + 2.0 * Times(x, y)
  {}

  lemma SplitFraction(i: real, j: real, l: real, m: real)
    requires m > 0.0
    ensures (i + j + l) / m == i / m + j / m + l / m
  {}

  lemma Positive(a: real, b: real)
    requires a > 0.0 && b > 0.0
    ensures Times(a, b) > 0.0
  {}

  lemma DivideBack(a: real, q: real, p: real)
    requires q > 0.0 && p == Times(a, q)
    ensures p / q == a
  {}

  lemma Cancel(x: real, k: real)
    requires k > 0.0
    ensures Times(x / k, k) == x
  {}

  lemma Rearrange(u: real, v: real, k: real)
    ensures Times(Times(u, k), Times(v, k)) == Times(Times(u, v), Times(k, k))
  {}

  lemma ProductOfQuotients(x: real, y: real, k: real)
    requires k > 0.0
    ensures Times(k, k) > 0.0 && Times(x / k, y / k) == Times(x, y) / Times(k, k)
  {
    hide Times;
    Cancel(x, k);
    Cancel(y, k);
    Positive(k, k);
    Rearrange(x / k, y / k, k);
    DivideBack(Times(x / k, y / k), Times(k, k), Times(x, y));
  }

  lemma HalfOf(p: real, q: real)
    requires q > 0.0
    ensures 2.0 * (p / (2.0 * q)) == p / q
  {}

  lemma FourSquares(m: real)
    requires m > 0.0
    ensures Times(2.0 * m, 2.0 * m) == 2.0 * Times(2.0 * m, m) && Times(2.0 * m, m) > 0.0
  {
    Positive(2.0 * m, m);
  }

  lemma HalvesProduct(x: real, y: real, m: real)
    requires m > 0.0
    ensures Times(2.0 * m, m) > 0.0
    ensures 2.0 * Times(x / (2.0 * m), y / (2.0 * m)) == Times(x, y) / Times(2.0 * m, m)
  {
    hide Times;
    ProductOfQuotients(x, y, 2.0 * m);
    FourSquares(m);
    HalfOf(Times(x, y), Times(2.0 * m, m));
  }

  /** The gain formula with its products named. */
  lemma GainFormula(m: nat, links: nat, degC: int, degD: int)
    requires m > 0
    ensures Times(2.0 * m as real, m as real) > 0.0
    ensures ModularityGain(m, links, degC, degD) ==
            links as real / m as real - Times(degC as real, degD as real) / Times(2.0 * m as real, m as real)
  {
    FourSquares(m as real);
    assert (degC * degD) as real == Times(degC as real, degD as real);
  }

  /** The computed gain is exactly the change in modularity. */
  lemma GainIsDelta(g: Graph, c: set<Node>, d: set<Node>, degC: int, degD: int)
    requires c !! d && degC as real == Volume(g, c) && degD as real == Volume(g, d)
    ensures Contribution(g)(c + d) - Contribution(g)(c) - Contribution(g)(d) ==
            ModularityGain(|g.edges|, |Links(g, c, d)|, degC, degD)
  {
    hide Sum, Internal, Links, Times;
    if g.edges != {} {
      var m := |g.edges| as real;
      var x, y := Volume(g, c), Volume(g, d);
      InternalOfMerged(g, c, d);
      VolumeOfMerged(g, c, d);
      GainFormula(|g.edges|, |Links(g, c, d)|, degC, degD);
      hide Volume, ModularityGain;
      SplitFraction(|Internal(g, c)| as real, |Internal(g, d)| as real, |Links(g, c, d)| as real, m);
      assert (x + y) / (2.0 * m) == x / (2.0 * m) + y / (2.0 * m);
      HalvesProduct(x, y, m);
      SquareOfSum(x / (2.0 * m), y / (2.0 * m));
    }
  }

  /** Replacing two blocks by their union changes the modularity by the gain. */
  lemma QualityAfterMerge(g: Graph, blocks: set<set<Node>>, c: set<Node>, d: set<Node>, degC: int, degD: int)
    requires c in blocks && d in blocks && c != d && c !! d && c + d !in blocks
    requires degC as real == Volume(g, c) && degD as real == Volume(g, d)
    ensures Quality(g, blocks - {c, d} + {c + d}) ==
            Quality(g, blocks) + ModularityGain(|g.edges|, |Links(g, c, d)|, degC, degD)
  {
    hide Sum, Contribution, ModularityGain;
    SumRemove(blocks, Contribution(g), c);
    SumRemove(blocks - {c}, Contribution(g), d);
    assert blocks - {c} - {d} == blocks - {c, d};
    SumInsert(blocks - {c, d}, Contribution(g), c + d);
    GainIsDelta(g, c, d, degC, degD);
  }

  /** Merging blocks with no edge between them never helps. */
  lemma NoLinksNoGain(m: nat, degC: int, degD: int)
    requires degC >= 0 && degD >= 0
    ensures ModularityGain(m, 0, degC, degD) <= 0.0
  {
    if m > 0 {
      GainFormula(m, 0, degC, degD);
      assert Times(degC as real, degD as real) >= 0.0;
      hide Times;
      Nonnegative(Times(degC as real, degD as real), Times(2.0 * m as real, m as real));
    }
  }

  lemma Nonnegative(x: real, y: real)
    requires x >= 0.0 && y > 0.0
    ensures x / y >= 0.0
  {}

  lemma ContributionIs(g: Graph, c: set<Node>, inner: real, volume: real)
    requires g.edges != {} && inner == |Internal(g, c)| as real && volume == Volume(g, c)
    ensures var m := |g.edges| as real;
            Contribution(g)(c) == inner / m - Times(volume / (2.0 * m), volume / (2.0 * m))
  {
    hide Sum, Internal, Times, Volume;
  }

  lemma WholeShare(m: real)
    requires m > 0.0
    ensures m / m == 1.0 && Times(2.0 * m / (2.0 * m), 2.0 * m / (2.0 * m)) == 1.0
  {}

  lemma WholeCounts(g: Graph)
    requires Valid(g)
    ensures Internal(g, g.nodes) == g.edges && Volume(g, g.nodes) == 2.0 * |g.edges| as real
  {
    TotalDegree(g);
    hide Sum;
  }

  /** The scale of the modularity: all nodes in one block score nothing. */
  lemma WholeGraphScoresZero(g: Graph)
    requires Valid(g)
    ensures Quality(g, {g.nodes}) == 0.0
  {
    SumOne(g.nodes, Contribution(g));
    if g.edges != {} {
      var m := |g.edges| as real;
      WholeCounts(g);
      hide Sum, Internal, Contribution, Times, Volume, Valid;
      ContributionIs(g, g.nodes, m, 2.0 * m);
      WholeShare(m);
    }
  }

  /** With every node on its own, what is left are the squared shares of the degrees. */
  lemma SingletonScore(g: Graph, x: Node)
    requires Valid(g) && g.edges != {}
    ensures var share := |Nbrs(g, x)| as real / (2.0 * |g.edges| as real);
            Contribution(g)({x}) == -Times(share, share)
  {
    SumOne(x, Degrees(g));
    assert Internal(g, {x}) == {};
    hide Sum, Internal, Contribution, Times, Nbrs;
    ContributionIs(g, {x}, 0.0, |Nbrs(g, x)| as real);
    NothingShared(|g.edges| as real);
  }

  lemma NothingShared(m: real)
    requires m > 0.0
    ensures 0.0 / m == 0.0
  {}
}
