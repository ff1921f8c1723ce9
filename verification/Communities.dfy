/** Greedy modularity communities over a union-find with path halving. */
module Communities {
  import opened Sums
  import opened Graphs
  import opened Ordering
  import opened Pairs
  import opened Modularity
  import opened UnionFind
  import opened Greedy
  import opened Clustering

  // ---------------------------------------------------------------- edges in sorted order

  predicate NotAfter(e: Edge, f: Edge) {
    e.a < f.a || (e.a == f.a && e.b <= f.b)
  }

  predicate IsLeast(s: set<Edge>, e: Edge) {
    e in s && forall f | f in s :: NotAfter(e, f)
  }

  lemma {:induction false} LeastExists(s: set<Edge>)
    requires s != {}
    ensures exists e :: IsLeast(s, e)
  {
    var x :| x in s;
    if s == {x} {
      assert IsLeast(s, x);
    } else {
      assert s - {x} != {} by { assert s == (s - {x}) + {x}; }
      LeastExists(s - {x});
      var m :| IsLeast(s - {x}, m);
      var least := if NotAfter(m, x) then m else x;
      forall f | f in s ensures NotAfter(least, f) {
        assert f == x || f in s - {x};
      }
      assert IsLeast(s, least);
    }
  }

  function SortedEdges(s: set<Edge>): (q: seq<Edge>)
    ensures |q| == |s| && forall e :: e in q <==> e in s
    ensures forall i, j | 0 <= i < j < |q| :: q[i].a < q[j].a || (q[i].a == q[j].a && q[i].b < q[j].b)
  {
    if s == {} then []
    else
      LeastExists(s);
      var e :| IsLeast(s, e);
      var rest := SortedEdges(s - {e});
      LeastFirst(s, e, rest);
      [e] + rest
  }

  lemma LeastFirst(s: set<Edge>, e: Edge, rest: seq<Edge>)
    requires IsLeast(s, e) && forall f :: f in rest <==> f in s - {e}
    requires forall i, j | 0 <= i < j < |rest| ::
               rest[i].a < rest[j].a || (rest[i].a == rest[j].a && rest[i].b < rest[j].b)
    ensures var q := [e] + rest;
            && (forall f :: f in q <==> f in s)
            && forall i, j | 0 <= i < j < |q| :: q[i].a < q[j].a || (q[i].a == q[j].a && q[i].b < q[j].b)
  {
    var q := [e] + rest;
    forall f ensures f in q <==> f in s {
      assert f in q <==> f == e || f in rest;
    }
    forall j | 0 <= j < |rest| ensures e.a < rest[j].a || (e.a == rest[j].a && e.b < rest[j].b) {
      assert rest[j] in rest;
    }
    assert forall j | 0 < j < |q| :: q[j] == rest[j - 1];
  }

  // ---------------------------------------------------------------- the mutable tables

  /** The two tables the merge loop updates. */
  class Clusters {
    var parent: map<Node, Node>
    var degreeSum: map<Node, int>

    constructor (g: Graph, adj: map<Node, set<Node>>)
      requires IsAdjacency(g, adj)
      ensures parent.Keys == g.nodes && degreeSum.Keys == g.nodes
      ensures forall x | x in g.nodes :: parent[x] == x && degreeSum[x] == |Nbrs(g, x)|
    {
      parent := map x | x in g.nodes :: x;
      degreeSum := map x | x in g.nodes :: |Get(adj, x)|;
    }

    /** Follows the links up, halving the path on the way; the partition stays the same. */
    method Find(node: Node) returns (root: Node)
      requires Forest(parent) && node in parent
      modifies this`parent
      ensures SameClasses(old(parent), parent)
      ensures root == Root(parent, node) && root in Roots(parent)
    {
      root := node;
      assert LinkAt(parent, root);
      while parent[root] != root
        invariant SameClasses(old(parent), parent) && root in parent
        invariant Root(parent, root) == Root(parent, node)
        decreases root
      {
        hide Root;
        assert LinkAt(parent, root) && LinkAt(parent, parent[root]);
        HalvedSame(parent, root);
        RootSteps(Halved(parent, root), root);
        parent := parent[root := parent[parent[root]]];
        root := parent[root];
      }
      RootSteps(parent, root);
    }

    /** All nodes whose root is `root`; the lookups halve paths but move nobody. */
    method Members(nodes: set<Node>, root: Node) returns (members: set<Node>)
      requires Forest(parent) && nodes == parent.Keys
      modifies this`parent
      ensures SameClasses(old(parent), parent)
      ensures members == Class(parent, root)
    {
      members := {};
      var rest := nodes;
      while rest != {}
        invariant rest <= nodes && SameClasses(old(parent), parent) && nodes == parent.Keys
        invariant members == set x | x in nodes - rest && Root(old(parent), x) == root
        decreases |rest|
      {
        var node :| node in rest;
        ghost var before := parent;
        var r := Find(node);
        SameTransitive(old(parent), before, parent);
        if r == root {
          members := members + {node};
        }
        rest := rest - {node};
      }
    }

    /** Puts both roots under the smaller one. */
    method Merge(rootA: Node, rootB: Node)
      requires rootA in degreeSum && rootB in degreeSum
      modifies this
      ensures parent == Joined(old(parent), rootA, rootB)
      ensures degreeSum == old(degreeSum)[Smaller(rootA, rootB) := old(degreeSum[rootA] + degreeSum[rootB])]
    {
      var newRoot := if rootB < rootA then rootB else rootA;
      var total := degreeSum[rootA] + degreeSum[rootB];
      parent := parent[rootA := newRoot];
      parent := parent[rootB := newRoot];
      degreeSum := degreeSum[newRoot := total];
    }

    /** One turn of the merge loop: the two classes of `edge` are joined when that gains more than `theta`. */
    method Consider(g: Graph, edge: Edge, theta: real) returns (merged: bool)
      requires Valid(g) && Sound(g, parent, degreeSum) && Improved(g, parent, theta) && edge in g.edges
      modifies this
      ensures Sound(g, parent, degreeSum) && Improved(g, parent, theta)
      ensures merged ==> |Roots(parent)| == |Roots(old(parent))| - 1
      ensures !merged ==> SameClasses(old(parent), parent) && SettledAt(g, parent, theta, edge)
      ensures Blocks(parent) == Step(g, theta, Blocks(old(parent)), edge)
    {
      hide Improved, GainOf, Class, DegreeAt, BlockAt, Links, ModularityGain, Joined, Root, Sound, Step, Blocks;
      ghost var p0 := parent;
      SoundForest(g, parent, degreeSum);
      var rootA := Find(edge.a);
      ghost var p1 := parent;
      var rootB := Find(edge.b);
      SameTransitive(p0, p1, parent);
      SoundSame(g, p0, parent, degreeSum, theta);
      merged := false;
      SameBlocks(p0, parent);
      if rootA == rootB {
        StepInside(g, parent, theta, edge);
      } else {
        ghost var p2 := parent;
        var membersA := Members(g.nodes, rootA);
        ghost var p3 := parent;
        var membersB := Members(g.nodes, rootB);
        SameTransitive(p0, p2, p3);
        SameTransitive(p0, p3, parent);
        SameBlocks(p3, parent);
        SoundSame(g, p0, parent, degreeSum, theta);
        EdgeClasses(g, parent, p0, edge, rootA, rootB);
        ComputedGain(g, parent, degreeSum, rootA, rootB);
        SameBlocks(p0, parent);
        StepBetween(g, parent, degreeSum, theta, edge);
        var links := |Links(g, membersA, membersB)|;
        var gain := ModularityGain(|g.edges|, links, degreeSum[rootA], degreeSum[rootB]);
        if gain > theta {
          ghost var p4, deg := parent, degreeSum;
          Merge(rootA, rootB);
          MergeStep(g, p4, deg, theta, rootA, rootB, edge.a, edge.b, parent, degreeSum);
          merged := true;
        }
      }
    }

    /** Passes over the edges, by first end and then by second end, until a whole pass merges nothing. */
    method MergeAll(g: Graph, theta: real) returns (ghost order: seq<Edge>, ghost passes: nat)
      requires Valid(g) && Sound(g, parent, degreeSum) && Improved(g, parent, theta)
      requires Blocks(parent) == Singletons(g)
      modifies this
      ensures Sound(g, parent, degreeSum) && Improved(g, parent, theta)
      ensures forall e | e in g.edges :: SettledAt(g, parent, theta, e)
      ensures forall e :: e in order <==> e in g.edges
      ensures forall i, j | 0 <= i < j < |order| ::
                order[i].a < order[j].a || (order[i].a == order[j].a && order[i].b < order[j].b)
      ensures Blocks(parent) == Passes(g, theta, order, passes)
      ensures Pass(g, theta, Blocks(parent), order) == Blocks(parent)
    {
      hide Improved, Class, DegreeAt, BlockAt, SettledAt, SortedEdges, Root, Roots, Pass, Passes, Blocks, Step;
      var edgeList := SortedEdges(g.edges);
      order, passes := edgeList, 0;
      PassesNext(g, theta, order, 0);
      var merged := true;
      while merged
        invariant Sound(g, parent, degreeSum) && Improved(g, parent, theta)
        invariant !merged ==> forall e | e in g.edges :: SettledAt(g, parent, theta, e)
        invariant Blocks(parent) == Passes(g, theta, order, passes)
        invariant !merged ==> Pass(g, theta, Blocks(parent), order) == Blocks(parent)
        decreases |Roots(parent)| + (if merged then 1 else 0)
      {
        merged := false;
        ghost var atStart, blocks := |Roots(parent)|, Blocks(parent);
        PassStart(g, theta, blocks, order);
        for i := 0 to |edgeList|
          invariant Sound(g, parent, degreeSum) && Improved(g, parent, theta)
          invariant |Roots(parent)| <= atStart && (merged ==> |Roots(parent)| < atStart)
          invariant !merged ==> forall k | 0 <= k < i :: SettledAt(g, parent, theta, edgeList[k])
          invariant Blocks(parent) == Pass(g, theta, blocks, order[..i]) && (!merged ==> Blocks(parent) == blocks)
        {
          ghost var before := parent;
          assert edgeList[i] in g.edges;
          PassNext(g, theta, blocks, order, i);
          var joined := Consider(g, edgeList[i], theta);
          if joined {
            merged := true;
          } else {
            SameBlocks(before, parent);
            if !merged {
              StillSettled(g, before, parent, theta, edgeList, i);
            }
          }
        }
        PassesNext(g, theta, order, passes);
        passes := passes + 1;
        if !merged {
          forall e | e in g.edges ensures SettledAt(g, parent, theta, e) {
            assert e in edgeList;
          }
        }
      }
    }

    /** The members of every class, gathered under its root. */
    method Collect(nodes: set<Node>) returns (members: map<Node, set<Node>>)
      requires Forest(parent) && nodes == parent.Keys
      modifies this`parent
      ensures SameClasses(old(parent), parent)
      ensures members.Keys == Roots(parent) && forall r | r in members :: members[r] == Class(parent, r)
    {
      hide Root, Gathered, SameClasses, Roots, Class, Forest;
      members := map[];
      SameStart(parent);
      GatherStart(parent);
      var rest := nodes;
      ghost var done: set<Node> := {};
      ghost var p := parent;
      while rest != {}
        invariant rest <= nodes && done == nodes - rest && nodes == p.Keys
        invariant SameClasses(p, parent) && Forest(p) && Forest(parent) && parent.Keys == p.Keys
        invariant Gathered(p, done, members)
        decreases |rest|
      {
        var node :| node in rest;
        ghost var before := parent;
        var root := Find(node);
        SameTransitive(p, before, parent);
        SameRoot(before, parent, node);
        SameRoot(p, before, node);
        GatherStep(p, done, members, node);
        members := members[root := (if root in members then members[root] else {}) + {node}];
        rest := rest - {node};
        done := done + {node};
      }
      SameBlocks(p, parent);
      assert done == nodes;
      CollectedAll(p, nodes, members);
    }
  }

  lemma SoundForest(g: Graph, parent: map<Node, Node>, degree: map<Node, int>)
    requires Sound(g, parent, degree)
    ensures Forest(parent) && parent.Keys == g.nodes && degree.Keys == g.nodes
  {}

  lemma SameStart(p: map<Node, Node>)
    requires Forest(p)
    ensures SameClasses(p, p)
  {}

  lemma SameRoot(p: map<Node, Node>, q: map<Node, Node>, x: Node)
    requires SameClasses(p, q) && x in p
    ensures Forest(p) && Forest(q) && p.Keys == q.Keys && Root(p, x) == Root(q, x)
  {}

  lemma SameTransitive(p: map<Node, Node>, q: map<Node, Node>, r: map<Node, Node>)
    requires SameClasses(p, q) && SameClasses(q, r)
    ensures SameClasses(p, r)
  {}

  lemma EdgeClasses(g: Graph, parent: map<Node, Node>, before: map<Node, Node>, e: Edge, a: Node, b: Node)
    requires Valid(g) && Forest(parent) && parent.Keys == g.nodes && SameClasses(before, parent) && e in g.edges
    requires a == Root(before, e.a) && b == Root(before, e.b) && a != b
    ensures a in Roots(parent) && b in Roots(parent) && e.a in Class(parent, a) && e.b in Class(parent, b)
    ensures Adj(g, e.a, e.b) && Root(parent, e.a) == a && Root(parent, e.b) == b
  {
    RootIsRoot(parent, e.a);
    RootIsRoot(parent, e.b);
  }

  /** The part of a class found so far. */
  ghost function ClassIn(parent: map<Node, Node>, r: Node, done: set<Node>): set<Node>
    requires Forest(parent)
  {
    set x | x in done && Root(parent, x) == r
  }

  ghost predicate Gathered(parent: map<Node, Node>, done: set<Node>, members: map<Node, set<Node>>)
    requires Forest(parent)
  {
    && (forall x | x in done :: Root(parent, x) in members)
    && (forall r | r in members :: members[r] != {} && members[r] == ClassIn(parent, r, done))
  }

  lemma GatherStart(parent: map<Node, Node>)
    requires Forest(parent)
    ensures Gathered(parent, {}, map[])
  {}

  lemma GatherStep(parent: map<Node, Node>, done: set<Node>, members: map<Node, set<Node>>, node: Node)
    requires Forest(parent) && node in parent && Gathered(parent, done, members)
    ensures var r := Root(parent, node);
            Gathered(parent, done + {node}, members[r := (if r in members then members[r] else {}) + {node}])
  {
    hide Root;
    var r := Root(parent, node);
    var grown := members[r := (if r in members then members[r] else {}) + {node}];
    forall q | q in grown ensures grown[q] != {} && grown[q] == ClassIn(parent, q, done + {node}) {
      if q != r {
        assert ClassIn(parent, q, done + {node}) == ClassIn(parent, q, done);
      } else {
        assert ClassIn(parent, q, done + {node}) == ClassIn(parent, q, done) + {node};
        assert q !in members ==> ClassIn(parent, q, done) == {};
      }
    }
  }

  lemma CollectedAll(parent: map<Node, Node>, nodes: set<Node>, members: map<Node, set<Node>>)
    requires Forest(parent) && nodes == parent.Keys && Gathered(parent, nodes, members)
    ensures members.Keys == Roots(parent) && forall r | r in members :: members[r] == Class(parent, r)
  {
    forall r ensures r in members <==> r in Roots(parent) {
      if r in members {
        var x :| x in members[r];
        RootIsRoot(parent, x);
      }
      if r in Roots(parent) {
        RootSteps(parent, r);
      }
    }
  }

  lemma StillSettled(g: Graph, before: map<Node, Node>, parent: map<Node, Node>, theta: real, edgeList: seq<Edge>,
                     i: nat)
    requires Valid(g) && SameClasses(before, parent) && parent.Keys == g.nodes
    requires i < |edgeList| && forall k | 0 <= k < |edgeList| :: edgeList[k] in g.edges
    requires forall k | 0 <= k < i :: SettledAt(g, before, theta, edgeList[k])
    ensures forall k | 0 <= k < i :: SettledAt(g, parent, theta, edgeList[k])
  {
    hide SettledAt;
    forall k | 0 <= k < i ensures SettledAt(g, parent, theta, edgeList[k]) {
      SettledSame(g, before, parent, theta, edgeList[k]);
    }
  }

  // ---------------------------------------------------------------- reported communities

  datatype Community = Community(root: Node, members: set<Node>, size: nat, internalEdges: nat,
                                 externalEdges: nat, density: real)

  /** Internal edges over possible internal edges. */
  function Density(size: nat, inner: nat): real {
    if size > 1 then 2.0 * inner as real / (size * (size - 1)) as real else 0.0
  }

  function Describe(g: Graph, root: Node, members: set<Node>): Community {
    var size, inner := |members|, |Internal(g, members)|;
    Community(root, members, size, inner, |External(g, members)|, Density(size, inner))
  }

  /** Largest first, ties by root. */
  function CommunityKey(c: Community): (real, nat) {
    (c.size as real, c.root)
  }

  /** The record at `i` tells the truth about a block that is connected on its own. */
  ghost predicate RecordAt(g: Graph, cs: seq<Community>, i: int) {
    0 <= i < |cs| ==>
      var c := cs[i].members;
      && cs[i].size == |c|
      && cs[i].internalEdges == |set e | e in g.edges && e.a in c && e.b in c|
      && cs[i].externalEdges == |set e | e in g.edges && (e.a in c) != (e.b in c)|
      && cs[i].density == (if |c| > 1 then 2.0 * cs[i].internalEdges as real / (|c| * (|c| - 1)) as real else 0.0)
      && cs[i].root in cs[i].members && (forall x | x in cs[i].members :: cs[i].root <= x)
      && cs[i].members <= g.nodes && ConnectedBlock(g, cs[i].members)
  }

  lemma DescribeIs(g: Graph, c: Community)
    requires c == Describe(g, c.root, c.members)
    ensures c.size == |c.members|
    ensures c.internalEdges == |set e | e in g.edges && e.a in c.members && e.b in c.members|
    ensures c.externalEdges == |set e | e in g.edges && (e.a in c.members) != (e.b in c.members)|
    ensures c.density == Density(c.size, c.internalEdges)
  {
    assert Internal(g, c.members) == set e | e in g.edges && e.a in c.members && e.b in c.members;
    assert External(g, c.members) == set e | e in g.edges && (e.a in c.members) != (e.b in c.members);
  }

  /** The counts of a record are those of its block. */
  lemma RecordCounts(g: Graph, cs: seq<Community>, i: nat)
    requires i < |cs| && RecordAt(g, cs, i)
    ensures cs[i].internalEdges == |Internal(g, cs[i].members)| && cs[i].externalEdges == |External(g, cs[i].members)|
    ensures cs[i].density == Density(|cs[i].members|, cs[i].internalEdges)
  {
    var c := cs[i].members;
    assert Internal(g, c) == set e | e in g.edges && e.a in c && e.b in c;
    assert External(g, c) == set e | e in g.edges && (e.a in c) != (e.b in c);
  }

  /** Two records are disjoint, in strict ranking order, and not worth merging. */
  ghost predicate PairAt(g: Graph, theta: real, cs: seq<Community>, i: int, j: int) {
    0 <= i < j < |cs| ==>
      && cs[i].members !! cs[j].members
      && (cs[i].size > cs[j].size || (cs[i].size == cs[j].size && cs[i].root < cs[j].root))
      && GainOf(g, cs[i].members, cs[j].members) <= theta
  }

  ghost predicate Reported(cs: seq<Community>, i: int, x: Node) {
    0 <= i < |cs| && x in cs[i].members
  }

  ghost function BlocksOf(cs: seq<Community>): set<set<Node>> {
    set c | c in cs :: c.members
  }

  /** The reported partition beats the singletons by more than `theta` per merge. */
  ghost predicate Better(g: Graph, theta: real, cs: seq<Community>) {
    var gained := Quality(g, BlocksOf(cs)) - Quality(g, Singletons(g));
    if |cs| == |g.nodes| then gained == 0.0
    else |cs| < |g.nodes| && gained > Times(theta, (|g.nodes| - |cs|) as real)
  }

  ghost predicate Outcome(g: Graph, theta: real, cs: seq<Community>) {
    && (forall i :: RecordAt(g, cs, i))
    && (forall i, j :: PairAt(g, theta, cs, i, j))
    && (forall x | x in g.nodes :: exists i :: Reported(cs, i, x))
    && Better(g, theta, cs)
  }

  /** One record per class, before sorting. */
  ghost predicate Listing(g: Graph, parent: map<Node, Node>, roots: set<Node>, cs: seq<Community>)
    requires Forest(parent)
  {
    && |cs| == |roots|
    && (forall c | c in cs :: c.root in roots && c == Describe(g, c.root, Class(parent, c.root)))
    && (forall r | r in roots :: exists c :: c in cs && c.root == r)
    && (forall i, j | 0 <= i < j < |cs| :: cs[i].root != cs[j].root)
  }

  lemma ListingStep(g: Graph, parent: map<Node, Node>, roots: set<Node>, cs: seq<Community>, r: Node)
    requires Forest(parent) && Listing(g, parent, roots, cs) && r !in roots
    ensures Listing(g, parent, roots + {r}, cs + [Describe(g, r, Class(parent, r))])
  {
    var c := Describe(g, r, Class(parent, r));
    assert c.root == r;
    hide Class, Describe, Forest;
    var more := cs + [c];
    forall d | d in more ensures d.root in roots + {r} && d == Describe(g, d.root, Class(parent, d.root)) {
      assert d in cs || d == c;
    }
    forall i, j | 0 <= i < j < |cs + [c]| ensures (cs + [c])[i].root != (cs + [c])[j].root {
      if j == |cs| {
        assert cs[i] in cs;
      }
    }
    forall q | q in roots + {r} ensures exists d :: d in cs + [c] && d.root == q {
      if q in roots {
        var d :| d in cs && d.root == q;
        assert d in cs + [c];
      } else {
        assert c in cs + [c];
      }
    }
  }

  lemma ListingSorted(g: Graph, parent: map<Node, Node>, roots: set<Node>, cs: seq<Community>, sorted: seq<Community>)
    requires Forest(parent) && Listing(g, parent, roots, cs) && multiset(cs) == multiset(sorted) && |cs| == |sorted|
    ensures Listing(g, parent, roots, sorted)
  {
    hide Class, Describe;
    SameElements(cs, sorted);
    forall i, j | 0 <= i < j < |sorted| ensures sorted[i].root != sorted[j].root {
      assert sorted[i] in cs && sorted[j] in cs && sorted[i] != sorted[j];
    }
    forall q | q in roots ensures exists d :: d in sorted && d.root == q {
      var d :| d in cs && d.root == q;
      assert d in sorted;
    }
  }

  lemma ListingBlocks(g: Graph, parent: map<Node, Node>, cs: seq<Community>)
    requires Forest(parent) && Listing(g, parent, Roots(parent), cs)
    ensures BlocksOf(cs) == Blocks(parent)
  {
    hide Class;
    forall k ensures k in BlocksOf(cs) <==> k in Blocks(parent) {
      if k in Blocks(parent) {
        var r :| r in Roots(parent) && k == Class(parent, r);
        var c :| c in cs && c.root == r;
      }
    }
  }

  lemma ListingRecord(g: Graph, parent: map<Node, Node>, degree: map<Node, int>, cs: seq<Community>, i: int)
    requires Sound(g, parent, degree) && Listing(g, parent, Roots(parent), cs)
    ensures RecordAt(g, cs, i)
  {
    if 0 <= i < |cs| {
      assert cs[i] in cs;
      var r := cs[i].root;
      DescribeIs(g, cs[i]);
      ClassHasRoot(parent, r);
      ClassInside(g, parent, degree, r);
      assert BlockAt(g, parent, r);
    }
  }

  lemma ListingPair(g: Graph, parent: map<Node, Node>, degree: map<Node, int>, theta: real, cs: seq<Community>,
                    i: int, j: int)
    requires Valid(g) && Sound(g, parent, degree) && theta >= 0.0 && Listing(g, parent, Roots(parent), cs)
    requires forall e | e in g.edges :: SettledAt(g, parent, theta, e)
    requires RankedBy(cs, CommunityKey)
    ensures PairAt(g, theta, cs, i, j)
  {
    hide GainOf, SettledAt;
    if 0 <= i < j < |cs| {
      assert cs[i] in cs && cs[j] in cs;
      assert Ranked(CommunityKey(cs[i]), CommunityKey(cs[j]));
      ClassesApart(parent, cs[i].root, cs[j].root);
      hide Class;
      LocallyOptimal(g, parent, degree, theta, cs[i].root, cs[j].root);
    }
  }

  lemma ListingCovers(g: Graph, parent: map<Node, Node>, degree: map<Node, int>, cs: seq<Community>, x: Node)
    requires Sound(g, parent, degree) && Listing(g, parent, Roots(parent), cs) && x in g.nodes
    ensures exists i :: Reported(cs, i, x)
  {
    RootIsRoot(parent, x);
    assert Root(parent, x) in Roots(parent);
    hide Root, Roots, Describe;
    var c :| c in cs && c.root == Root(parent, x);
    var i :| 0 <= i < |cs| && cs[i] == c;
    assert Reported(cs, i, x);
  }

  lemma OutcomeHolds(g: Graph, parent: map<Node, Node>, degree: map<Node, int>, theta: real, cs: seq<Community>)
    requires Valid(g) && Sound(g, parent, degree) && Improved(g, parent, theta) && theta >= 0.0
    requires forall e | e in g.edges :: SettledAt(g, parent, theta, e)
    requires Listing(g, parent, Roots(parent), cs) && RankedBy(cs, CommunityKey)
    ensures Outcome(g, theta, cs)
  {
    ListingBlocks(g, parent, cs);
    assert Better(g, theta, cs) by { BetterFromImproved(g, parent, theta, cs); }
    forall i ensures RecordAt(g, cs, i) { ListingRecord(g, parent, degree, cs, i); }
    forall i, j ensures PairAt(g, theta, cs, i, j) { ListingPair(g, parent, degree, theta, cs, i, j); }
    forall x | x in g.nodes ensures exists i :: Reported(cs, i, x) { ListingCovers(g, parent, degree, cs, x); }
  }

  lemma BetterFromImproved(g: Graph, parent: map<Node, Node>, theta: real, cs: seq<Community>)
    requires Forest(parent) && Improved(g, parent, theta) && BlocksOf(cs) == Blocks(parent)
    requires |cs| == |Roots(parent)|
    ensures Better(g, theta, cs)
  {
    hide Times, Quality, Blocks, Singletons, BlocksOf, Roots;
  }

  const MIN_GUARD: real := 0.000000001

  /** The communities are where the greedy passes from the singletons settle, taking the edges in
      order; they partition the nodes, each is connected on its own, the modularity has risen by more
      than the threshold per merge, and no further merge of two of them would exceed it. */
  method DetectCommunities(g: Graph, qualityThreshold: real)
    returns (communities: seq<Community>, ghost order: seq<Edge>, ghost passes: nat)
    requires Valid(g)
    ensures var theta := if qualityThreshold > 0.000000001 then qualityThreshold else 0.000000001;
            && Outcome(g, theta, communities)
            && BlocksOf(communities) == Passes(g, theta, order, passes)
            && Pass(g, theta, BlocksOf(communities), order) == BlocksOf(communities)
    ensures forall e :: e in order <==> e in g.edges
    ensures forall i, j | 0 <= i < j < |order| ::
              order[i].a < order[j].a || (order[i].a == order[j].a && order[i].b < order[j].b)
  {
    hide Outcome, Improved, Sound, SettledAt, Class, Roots, SortBy, Listing, Valid, IsAdjacency, Pass, Passes,
         Blocks, BlocksOf;
    var theta := if qualityThreshold > MIN_GUARD then qualityThreshold else MIN_GUARD;
    var adj := Adjacency(g);
    var clusters := new Clusters(g, adj);
    StartSound(g, clusters.parent, clusters.degreeSum, theta);
    StartForest(g, clusters.parent);
    order, passes := clusters.MergeAll(g, theta);
    SoundForest(g, clusters.parent, clusters.degreeSum);
    ghost var parent, degree := clusters.parent, clusters.degreeSum;
    var members := clusters.Collect(g.nodes);
    SameBlocks(parent, clusters.parent);
    var found := Records(g, members, parent);
    communities := SortBy(found, CommunityKey);
    ListingSorted(g, parent, Roots(parent), found, communities);
    ListingBlocks(g, parent, communities);
    OutcomeHolds(g, parent, degree, theta, communities);
  }

  method Records(g: Graph, members: map<Node, set<Node>>, ghost parent: map<Node, Node>) returns (found: seq<Community>)
    requires Forest(parent) && members.Keys == Roots(parent)
    requires forall r | r in members :: members[r] == Class(parent, r)
    ensures Listing(g, parent, Roots(parent), found)
  {
    hide Class, Listing;
    found := [];
    var rest := members.Keys;
    ghost var done: set<Node> := {};
    ListingStart(g, parent);
    while rest != {}
      invariant rest <= members.Keys && done == members.Keys - rest
      invariant Listing(g, parent, done, found)
      decreases |rest|
    {
      var root :| root in rest;
      ListingStep(g, parent, done, found, root);
      found := found + [Describe(g, root, members[root])];
      rest := rest - {root};
      done := done + {root};
    }
    assert done == members.Keys;
  }

  lemma ListingStart(g: Graph, parent: map<Node, Node>)
    requires Forest(parent)
    ensures Listing(g, parent, {}, [])
  {}

  // ---------------------------------------------------------------- only one report

  /** A block has one record: its fields are functions of the members. */
  lemma RecordUnique(g: Graph, cs: seq<Community>, i: nat, other: seq<Community>, j: nat)
    requires i < |cs| && j < |other| && RecordAt(g, cs, i) && RecordAt(g, other, j)
    requires cs[i].members == other[j].members
    ensures cs[i] == other[j]
  {
    hide ConnectedBlock;
    assert cs[i].root <= other[j].root && other[j].root <= cs[i].root;
  }

  lemma {:induction false} RankingUnique(q: seq<Community>, r: seq<Community>)
    requires forall i, j | 0 <= i < j < |q| ::
               q[i].size > q[j].size || (q[i].size == q[j].size && q[i].root < q[j].root)
    requires forall i, j | 0 <= i < j < |r| ::
               r[i].size > r[j].size || (r[i].size == r[j].size && r[i].root < r[j].root)
    requires forall c :: c in q <==> c in r
    ensures q == r
  {
    assert (q != [] ==> q[0] in q) && (r != [] ==> r[0] in r);
    if q != [] {
      var k :| 0 <= k < |r| && r[k] == q[0];
      var m :| 0 <= m < |q| && q[m] == r[0];
      assert q[0] == r[0];
      forall c ensures c in q[1..] <==> c in r[1..] {
        assert c in q <==> c == q[0] || c in q[1..];
        assert c in r <==> c == r[0] || c in r[1..];
      }
      RankingUnique(q[1..], r[1..]);
    }
  }

  lemma SameRecords(g: Graph, theta: real, cs: seq<Community>, other: seq<Community>, c: Community)
    requires Outcome(g, theta, cs) && Outcome(g, theta, other) && BlocksOf(cs) == BlocksOf(other) && c in cs
    ensures c in other
  {
    hide ConnectedBlock, GainOf, Better;
    var i :| 0 <= i < |cs| && cs[i] == c;
    assert c.members in BlocksOf(cs);
    var d :| d in other && d.members == c.members;
    var j :| 0 <= j < |other| && other[j] == d;
    assert RecordAt(g, cs, i) && RecordAt(g, other, j);
    hide RecordAt;
    RecordUnique(g, cs, i, other, j);
  }

  /** The graph and the threshold determine the whole report. */
  lemma ReportUnique(g: Graph, theta: real, cs: seq<Community>, other: seq<Community>)
    requires Outcome(g, theta, cs) && IsGreedy(g, theta, BlocksOf(cs))
    requires Outcome(g, theta, other) && IsGreedy(g, theta, BlocksOf(other))
    ensures cs == other
  {
    GreedyUnique(g, theta, BlocksOf(cs), BlocksOf(other));
    forall c ensures c in cs <==> c in other {
      if c in cs { SameRecords(g, theta, cs, other, c); }
      if c in other { SameRecords(g, theta, other, cs, c); }
    }
    RankedReport(g, theta, cs);
    RankedReport(g, theta, other);
    hide Outcome, IsGreedy, BlocksOf;
    RankingUnique(cs, other);
  }

  lemma RankedReport(g: Graph, theta: real, cs: seq<Community>)
    requires Outcome(g, theta, cs)
    ensures forall i, j | 0 <= i < j < |cs| ::
              cs[i].size > cs[j].size || (cs[i].size == cs[j].size && cs[i].root < cs[j].root)
  {
    hide GainOf, RecordAt, Better;
    forall i, j | 0 <= i < j < |cs|
      ensures cs[i].size > cs[j].size || (cs[i].size == cs[j].size && cs[i].root < cs[j].root)
    {
      assert PairAt(g, theta, cs, i, j);
    }
  }

  // ---------------------------------------------------------------- what a record says

  /** Inside a connected block everything is in one component of the graph. */
  lemma BlocksRefineComponents(g: Graph, theta: real, cs: seq<Community>, i: nat, x: Node, y: Node)
    requires Outcome(g, theta, cs) && i < |cs| && x in cs[i].members && y in cs[i].members
    ensures Conn(g, {}, x, y)
  {
    assert RecordAt(g, cs, i);
    ConnMonotone(g, {}, g.nodes - cs[i].members, x, y);
  }

  /** Twice the internal edges plus the external ones make up the degrees of the members. */
  lemma EdgeCountsAddUp(g: Graph, theta: real, cs: seq<Community>, i: nat)
    requires Valid(g) && Outcome(g, theta, cs) && i < |cs|
    ensures 2.0 * cs[i].internalEdges as real + cs[i].externalEdges as real == Volume(g, cs[i].members)
  {
    assert RecordAt(g, cs, i);
    RecordCounts(g, cs, i);
    Handshake(g, cs[i].members);
  }

  lemma InternalBound(g: Graph, c: set<Node>)
    requires Valid(g)
    ensures 2 * |Internal(g, c)| <= |c| * (|c| - 1)
  {
    assert Internal(g, c) <= PairsIn(c);
    SubsetSize(Internal(g, c), PairsIn(c));
    PairsInSize(c);
  }

  lemma DensityInRange(g: Graph, theta: real, cs: seq<Community>, i: nat)
    requires Valid(g) && Outcome(g, theta, cs) && i < |cs|
    ensures 0.0 <= cs[i].density <= 1.0
  {
    assert RecordAt(g, cs, i);
    RecordCounts(g, cs, i);
    hide Outcome, ConnectedBlock, Internal, External, Density;
    InternalBound(g, cs[i].members);
    DensityRange(|cs[i].members|, |Internal(g, cs[i].members)|);
  }

  lemma DensityRange(size: nat, inner: nat)
    requires 2 * inner <= size * (size - 1)
    ensures 0.0 <= Density(size, inner) <= 1.0
  {
    if size > 1 {
      var t := size * (size - 1);
      AtLeastOne(size);
      Fraction(2 * inner, t);
      assert 2.0 * inner as real == (2 * inner) as real;
    }
  }

  lemma AtLeastOne(n: nat)
    requires n > 1
    ensures n * (n - 1) > 0
  {}

  lemma Fraction(k: nat, t: nat)
    requires k <= t && t > 0
    ensures 0.0 <= k as real / t as real <= 1.0
  {}
}
