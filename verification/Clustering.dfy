/** The invariant of the greedy merge loop, stated on the forest and the degree table. */
module Clustering {
  import opened Sums
  import opened Graphs
  import opened Pairs
  import opened Modularity
  import opened UnionFind
  import opened Greedy

  /** Any two members are joined by a walk that stays inside the block. */
  ghost predicate ConnectedBlock(g: Graph, c: set<Node>) {
    forall x, y | x in c && y in c :: Conn(g, g.nodes - c, x, y)
  }

  ghost predicate DegreeAt(g: Graph, parent: map<Node, Node>, degree: map<Node, int>, r: Node)
    requires Forest(parent)
  {
    r in Roots(parent) ==> r in degree && degree[r] >= 0 && degree[r] as real == Volume(g, Class(parent, r))
  }

  ghost predicate BlockAt(g: Graph, parent: map<Node, Node>, r: Node)
    requires Forest(parent)
  {
    r in Roots(parent) ==> ConnectedBlock(g, Class(parent, r))
  }

  /** The forest spans the nodes, roots carry the total degree of their class, and every class
      is connected on its own. */
  ghost predicate Sound(g: Graph, parent: map<Node, Node>, degree: map<Node, int>) {
    && Forest(parent) && parent.Keys == g.nodes && degree.Keys == g.nodes
    && (forall r :: DegreeAt(g, parent, degree, r))
    && (forall r :: BlockAt(g, parent, r))
  }

  /** What merging two blocks adds to the modularity. */
  ghost function GainOf(g: Graph, c: set<Node>, d: set<Node>): real {
    Contribution(g)(c + d) - Contribution(g)(c) - Contribution(g)(d)
  }

  ghost function Merges(g: Graph, parent: map<Node, Node>): int {
    |g.nodes| - |Roots(parent)|
  }

  /** Every merge so far has raised the modularity by more than `theta`. */
  ghost predicate Improved(g: Graph, parent: map<Node, Node>, theta: real)
    requires Forest(parent)
  {
    var gained := Quality(g, Blocks(parent)) - Quality(g, Singletons(g));
    if Merges(g, parent) == 0 then gained == 0.0
    else Merges(g, parent) > 0 && gained > Times(theta, Merges(g, parent) as real)
  }

  lemma SoundSame(g: Graph, p: map<Node, Node>, q: map<Node, Node>, degree: map<Node, int>, theta: real)
    requires Sound(g, p, degree) && SameClasses(p, q)
    ensures Sound(g, q, degree) && Merges(g, q) == Merges(g, p)
    ensures Improved(g, p, theta) ==> Improved(g, q, theta)
  {
    hide Volume, ConnectedBlock;
    SameBlocks(p, q);
    forall r ensures DegreeAt(g, q, degree, r) { assert DegreeAt(g, p, degree, r); }
    forall r ensures BlockAt(g, q, r) { assert BlockAt(g, p, r); }
  }

  // ---------------------------------------------------------------- the start

  lemma StartForest(g: Graph, parent: map<Node, Node>)
    requires parent.Keys == g.nodes && forall x | x in parent :: parent[x] == x
    ensures Forest(parent) && Roots(parent) == g.nodes && Blocks(parent) == Singletons(g)
    ensures forall r | r in g.nodes :: Class(parent, r) == {r}
  {
    forall x ensures LinkAt(parent, x) {}
    forall r | r in g.nodes ensures Class(parent, r) == {r} {}
    assert Roots(parent) == g.nodes;
    assert Blocks(parent) == Singletons(g);
  }

  lemma StartSound(g: Graph, parent: map<Node, Node>, degree: map<Node, int>, theta: real)
    requires parent.Keys == g.nodes && degree.Keys == g.nodes
    requires forall x | x in g.nodes :: parent[x] == x && degree[x] == |Nbrs(g, x)|
    ensures Sound(g, parent, degree) && Improved(g, parent, theta) && Merges(g, parent) == 0
  {
    StartForest(g, parent);
    hide Sum, Class, Conn, Forest, Improved, Nbrs;
    forall r ensures DegreeAt(g, parent, degree, r) {
      if r in g.nodes {
        SumOne<Node>(r, Degrees(g));
      }
    }
    forall r ensures BlockAt(g, parent, r) {
      if r in g.nodes {
        ConnRefl(g, g.nodes - {r}, r);
      }
    }
  }

  // ---------------------------------------------------------------- one merge

  /** Two connected blocks with an edge between them make one connected block. */
  lemma MergedConnected(g: Graph, c: set<Node>, d: set<Node>, u: Node, w: Node)
    requires ConnectedBlock(g, c) && ConnectedBlock(g, d) && c <= g.nodes && d <= g.nodes
    requires u in c && w in d && Adj(g, u, w)
    ensures ConnectedBlock(g, c + d)
  {
    var banned := g.nodes - (c + d);
    forall x | x in c + d ensures Conn(g, banned, x, u) {
      if x in c {
        ConnMonotone(g, banned, g.nodes - c, x, u);
      } else {
        ConnMonotone(g, banned, g.nodes - d, x, w);
        ConnStep(g, banned, x, w, u);
      }
    }
    forall x, y | x in c + d && y in c + d ensures Conn(g, banned, x, y) {
      ConnSym(g, banned, y, u);
      ConnTrans(g, banned, x, u, y);
    }
  }

  lemma ClassInside(g: Graph, parent: map<Node, Node>, degree: map<Node, int>, r: Node)
    requires Sound(g, parent, degree)
    ensures Class(parent, r) <= g.nodes && Roots(parent) <= g.nodes
  {}

  ghost function Smaller(a: Node, b: Node): Node {
    if b < a then b else a
  }

  lemma MergeDegrees(g: Graph, parent: map<Node, Node>, degree: map<Node, int>, a: Node, b: Node,
                     joined: map<Node, Node>, degree': map<Node, int>)
    requires Sound(g, parent, degree) && a in Roots(parent) && b in Roots(parent) && a != b
    requires a in degree && b in degree
    requires joined == Joined(parent, a, b) && degree' == degree[Smaller(a, b) := degree[a] + degree[b]]
    ensures Forest(joined) && forall r :: DegreeAt(g, joined, degree', r)
  {
    JoinedClasses(parent, a, b);
    ClassesApart(parent, a, b);
    hide Class, Volume;
    VolumeOfMerged(g, Class(parent, a), Class(parent, b));
    assert DegreeAt(g, parent, degree, a) && DegreeAt(g, parent, degree, b);
    forall r ensures DegreeAt(g, joined, degree', r) {
      assert DegreeAt(g, parent, degree, r);
    }
  }

  lemma MergeBlocks(g: Graph, parent: map<Node, Node>, degree: map<Node, int>, a: Node, b: Node, u: Node, w: Node)
    requires Sound(g, parent, degree) && a in Roots(parent) && b in Roots(parent) && a != b
    requires u in Class(parent, a) && w in Class(parent, b) && Adj(g, u, w)
    ensures Forest(Joined(parent, a, b)) && forall r :: BlockAt(g, Joined(parent, a, b), r)
  {
    JoinedClasses(parent, a, b);
    ClassInside(g, parent, degree, a);
    ClassInside(g, parent, degree, b);
    hide Class, ConnectedBlock;
    assert BlockAt(g, parent, a) && BlockAt(g, parent, b);
    MergedConnected(g, Class(parent, a), Class(parent, b), u, w);
    forall r ensures BlockAt(g, Joined(parent, a, b), r) {
      assert BlockAt(g, parent, r);
    }
  }

  /** The gain computed by the loop is the gain of the two classes. */
  lemma ComputedGain(g: Graph, parent: map<Node, Node>, degree: map<Node, int>, a: Node, b: Node)
    requires Sound(g, parent, degree) && a in Roots(parent) && b in Roots(parent) && a != b
    ensures a in degree && b in degree
    ensures var c, d := Class(parent, a), Class(parent, b);
            ModularityGain(|g.edges|, |Links(g, c, d)|, degree[a], degree[b]) == GainOf(g, c, d)
  {
    ClassesApart(parent, a, b);
    assert DegreeAt(g, parent, degree, a) && DegreeAt(g, parent, degree, b);
    hide Class, Volume, Links, ModularityGain, Contribution;
    GainIsDelta(g, Class(parent, a), Class(parent, b), degree[a], degree[b]);
  }

  lemma MergeQuality(g: Graph, parent: map<Node, Node>, degree: map<Node, int>, a: Node, b: Node)
    requires Sound(g, parent, degree) && a in Roots(parent) && b in Roots(parent) && a != b
    ensures Forest(Joined(parent, a, b))
    ensures Quality(g, Blocks(Joined(parent, a, b))) ==
            Quality(g, Blocks(parent)) + GainOf(g, Class(parent, a), Class(parent, b))
    ensures |Roots(Joined(parent, a, b))| == |Roots(parent)| - 1
  {
    JoinedBlocks(parent, a, b);
    assert DegreeAt(g, parent, degree, a) && DegreeAt(g, parent, degree, b);
    ComputedGain(g, parent, degree, a, b);
    hide Class, Volume, Links, ModularityGain, Contribution, Quality, Blocks;
    QualityAfterMerge(g, Blocks(parent), Class(parent, a), Class(parent, b), degree[a], degree[b]);
  }

  lemma OneMoreMerge(theta: real, k: int)
    ensures Times(theta, (k + 1) as real) == Times(theta, k as real) + theta && Times(theta, 0 as real) == 0.0
  {}

  lemma MergeImproves(g: Graph, parent: map<Node, Node>, degree: map<Node, int>, theta: real, a: Node, b: Node)
    requires Sound(g, parent, degree) && Improved(g, parent, theta)
    requires a in Roots(parent) && b in Roots(parent) && a != b
    requires GainOf(g, Class(parent, a), Class(parent, b)) > theta
    ensures Forest(Joined(parent, a, b)) && Improved(g, Joined(parent, a, b), theta)
    ensures |Roots(Joined(parent, a, b))| == |Roots(parent)| - 1
  {
    hide Times, Quality, Blocks, Class, GainOf, Roots, Singletons;
    MergeQuality(g, parent, degree, a, b);
    RootsBound(g, parent);
    OneMoreMerge(theta, Merges(g, parent));
  }

  lemma RootsBound(g: Graph, parent: map<Node, Node>)
    requires parent.Keys == g.nodes
    ensures Merges(g, parent) >= 0
  {
    SubsetSize(Roots(parent), g.nodes);
  }

  /** An accepted merge keeps the invariant, removes one root and raises the modularity by more than `theta`. */
  lemma MergeStep(g: Graph, parent: map<Node, Node>, degree: map<Node, int>, theta: real, a: Node, b: Node,
                  u: Node, w: Node, joined: map<Node, Node>, degree': map<Node, int>)
    requires Sound(g, parent, degree) && Improved(g, parent, theta)
    requires a in Roots(parent) && b in Roots(parent) && a != b && a in degree && b in degree
    requires u in Class(parent, a) && w in Class(parent, b) && Adj(g, u, w)
    requires GainOf(g, Class(parent, a), Class(parent, b)) > theta
    requires joined == Joined(parent, a, b) && degree' == degree[Smaller(a, b) := degree[a] + degree[b]]
    ensures Sound(g, joined, degree') && Improved(g, joined, theta)
    ensures |Roots(joined)| == |Roots(parent)| - 1
  {
    JoinedForest(parent, a, b);
    MergeDegrees(g, parent, degree, a, b, joined, degree');
    MergeBlocks(g, parent, degree, a, b, u, w);
    MergeImproves(g, parent, degree, theta, a, b);
    assert a in g.nodes && b in g.nodes;
    hide Improved, Roots, Class, GainOf, DegreeAt, BlockAt;
  }

  // ---------------------------------------------------------------- the run on partitions

  /** The block of a node is its class. */
  lemma BlockOfIs(parent: map<Node, Node>, x: Node)
    requires Forest(parent) && x in parent
    ensures BlockOf(Blocks(parent), x) == Class(parent, Root(parent, x))
  {
    RootIsRoot(parent, x);
    var r := Root(parent, x);
    assert r in Roots(parent) && Class(parent, r) in Blocks(parent);
    forall y ensures y in BlockOf(Blocks(parent), x) <==> y in Class(parent, r) {
      if y in BlockOf(Blocks(parent), x) {
        var c :| c in Blocks(parent) && x in c && y in c;
        var s :| s in Roots(parent) && c == Class(parent, s);
      }
    }
  }

  /** An edge inside a class changes nothing. */
  lemma StepInside(g: Graph, parent: map<Node, Node>, theta: real, e: Edge)
    requires Forest(parent) && e.a in parent && e.b in parent && Root(parent, e.a) == Root(parent, e.b)
    ensures Step(g, theta, Blocks(parent), e) == Blocks(parent)
  {
    BlockOfIs(parent, e.a);
    BlockOfIs(parent, e.b);
    hide Blocks, BlockOf, Class, Quality;
  }

  /** An edge between two classes joins them exactly when that gains more than `theta`. */
  lemma StepBetween(g: Graph, parent: map<Node, Node>, degree: map<Node, int>, theta: real, e: Edge)
    requires Sound(g, parent, degree) && e.a in parent && e.b in parent && Root(parent, e.a) != Root(parent, e.b)
    ensures var a, b := Root(parent, e.a), Root(parent, e.b);
            && Forest(Joined(parent, a, b))
            && Step(g, theta, Blocks(parent), e) ==
               if GainOf(g, Class(parent, a), Class(parent, b)) > theta then Blocks(Joined(parent, a, b))
               else Blocks(parent)
  {
    var a, b := Root(parent, e.a), Root(parent, e.b);
    RootIsRoot(parent, e.a);
    RootIsRoot(parent, e.b);
    BlockOfIs(parent, e.a);
    BlockOfIs(parent, e.b);
    JoinedBlocks(parent, a, b);
    MergeQuality(g, parent, degree, a, b);
    hide Blocks, BlockOf, Class, Quality, GainOf, Sound, Root, Joined;
  }

  // ---------------------------------------------------------------- the end

  /** The two classes of an edge are the same, or merging them gains at most `theta`. */
  ghost predicate SettledAt(g: Graph, parent: map<Node, Node>, theta: real, e: Edge)
    requires Forest(parent)
  {
    Root(parent, e.a) == Root(parent, e.b) ||
    GainOf(g, Class(parent, Root(parent, e.a)), Class(parent, Root(parent, e.b))) <= theta
  }

  lemma SettledSame(g: Graph, p: map<Node, Node>, q: map<Node, Node>, theta: real, e: Edge)
    requires SameClasses(p, q) && e.a in p && e.b in p && SettledAt(g, p, theta, e)
    ensures SettledAt(g, q, theta, e)
  {
    hide GainOf;
    SameBlocks(p, q);
  }

  lemma GainSymmetric(g: Graph, c: set<Node>, d: set<Node>)
    ensures GainOf(g, c, d) == GainOf(g, d, c)
  {
    assert c + d == d + c;
  }

  /** Once every edge is settled no two classes, joined by an edge or not, are worth merging. */
  lemma LocallyOptimal(g: Graph, parent: map<Node, Node>, degree: map<Node, int>, theta: real, a: Node, b: Node)
    requires Valid(g) && Sound(g, parent, degree) && theta >= 0.0
    requires forall e | e in g.edges :: SettledAt(g, parent, theta, e)
    requires a in Roots(parent) && b in Roots(parent) && a != b
    ensures GainOf(g, Class(parent, a), Class(parent, b)) <= theta
  {
    hide GainOf;
    var c, d := Class(parent, a), Class(parent, b);
    GainSymmetric(g, c, d);
    if e :| e in Links(g, c, d) {
      assert SettledAt(g, parent, theta, e);
    } else {
      assert Links(g, c, d) == {};
      ComputedGain(g, parent, degree, a, b);
      assert DegreeAt(g, parent, degree, a) && DegreeAt(g, parent, degree, b);
      NoLinksNoGain(|g.edges|, degree[a], degree[b]);
    }
  }
}
