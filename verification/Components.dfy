/** Flood fill over the graph minus a set of removed nodes, and the connected components. */
module Components {
  import opened Graphs
  import opened Ordering

  /** The component of `a` once the nodes of `banned` are gone. */
  ghost function Comp(g: Graph, banned: set<Node>, a: Node): set<Node> {
    set x | x in g.nodes && Conn(g, banned, a, x)
  }

  lemma CompMember(g: Graph, banned: set<Node>, a: Node, x: Node)
    ensures x in Comp(g, banned, a) <==> Conn(g, banned, a, x)
  {
    if Conn(g, banned, a, x) {
      ConnEnds(g, banned, a, x);
    }
  }

  /** Components are classes: any member has the same component. */
  lemma CompSame(g: Graph, banned: set<Node>, a: Node, b: Node)
    requires Conn(g, banned, a, b)
    ensures Comp(g, banned, a) == Comp(g, banned, b)
  {
    ConnSym(g, banned, a, b);
    forall x ensures x in Comp(g, banned, a) <==> x in Comp(g, banned, b) {
      CompMember(g, banned, a, x);
      CompMember(g, banned, b, x);
      if Conn(g, banned, a, x) {
        ConnTrans(g, banned, b, a, x);
      }
      if Conn(g, banned, b, x) {
        ConnTrans(g, banned, a, b, x);
      }
    }
  }

  /** The neighbour sets stored in `adj`, seen from the nodes that are left. */
  ghost predicate IsAdjacencyWithout(g: Graph, banned: set<Node>, adj: map<Node, set<Node>>) {
    forall u | u !in banned :: Get(adj, u) == Nbrs(g, u) - banned
  }

  // ---------------------------------------------------------------- flood fill

  ghost predicate SeenAt(visited0: set<Node>, visited: set<Node>, part: set<Node>, stack: seq<Node>, x: Node) {
    x in visited <==> x in visited0 || x in part || x in stack
  }

  ghost predicate FreshAt(g: Graph, banned: set<Node>, start: Node, visited0: set<Node>, part: set<Node>,
                          stack: seq<Node>, x: Node) {
    x in part || x in stack ==> x !in visited0 && Conn(g, banned, start, x)
  }

  /** Every neighbour of `u` that is still there is seen, or is listed in `pending`. */
  ghost predicate SpreadAt(g: Graph, banned: set<Node>, visited: set<Node>, part: set<Node>, current: Node,
                           pending: set<Node>, u: Node) {
    u in part ==> forall w | w in Nbrs(g, u) && w !in banned :: w in visited || (u == current && w in pending)
  }

  ghost predicate Flooding(g: Graph, banned: set<Node>, start: Node, visited0: set<Node>,
                           visited: set<Node>, part: set<Node>, stack: seq<Node>, current: Node, pending: set<Node>) {
    && (forall x :: SeenAt(visited0, visited, part, stack, x))
    && (forall x :: FreshAt(g, banned, start, visited0, part, stack, x))
    && (forall u :: SpreadAt(g, banned, visited, part, current, pending, u))
    && start in visited
  }

  lemma FloodStart(g: Graph, banned: set<Node>, start: Node, visited0: set<Node>)
    requires start in g.nodes && start !in banned && start !in visited0
    ensures Flooding(g, banned, start, visited0, visited0 + {start}, {}, [start], start, {})
  {
    ConnRefl(g, banned, start);
  }

  lemma FloodPop(g: Graph, banned: set<Node>, start: Node, visited0: set<Node>,
                 visited: set<Node>, part: set<Node>, stack: seq<Node>, old_current: Node)
    requires stack != [] && Flooding(g, banned, start, visited0, visited, part, stack, old_current, {})
    ensures var k := |stack| - 1;
            var current := stack[k];
            && Flooding(g, banned, start, visited0, visited, part + {current}, stack[..k], current,
                        Nbrs(g, current) - banned)
            && Conn(g, banned, start, current)
  {
    var k := |stack| - 1;
    var current := stack[k];
    assert stack == stack[..k] + [current];
    assert FreshAt(g, banned, start, visited0, part, stack, current);
    forall x ensures SeenAt(visited0, visited, part + {current}, stack[..k], x) {
      assert SeenAt(visited0, visited, part, stack, x);
    }
    forall x ensures FreshAt(g, banned, start, visited0, part + {current}, stack[..k], x) {
      assert FreshAt(g, banned, start, visited0, part, stack, x);
    }
    forall u ensures SpreadAt(g, banned, visited, part + {current}, current, Nbrs(g, current) - banned, u) {
      assert SpreadAt(g, banned, visited, part, old_current, {}, u);
    }
  }

  lemma FloodPush(g: Graph, banned: set<Node>, start: Node, visited0: set<Node>,
                  visited: set<Node>, part: set<Node>, stack: seq<Node>, current: Node, pending: set<Node>, w: Node)
    requires Valid(g) && Closed(g, banned, visited0)
    requires Flooding(g, banned, start, visited0, visited, part, stack, current, pending)
    requires Conn(g, banned, start, current) && current in part && w in Nbrs(g, current) && w !in banned
    ensures w !in visited ==>
              Flooding(g, banned, start, visited0, visited + {w}, part, stack + [w], current, pending - {w})
    ensures w in visited ==> Flooding(g, banned, start, visited0, visited, part, stack, current, pending - {w})
  {
    forall u ensures SpreadAt(g, banned, visited + {w}, part, current, pending - {w}, u) {
      assert SpreadAt(g, banned, visited, part, current, pending, u);
    }
    if w in visited {
      assert visited + {w} == visited;
    } else {
      ConnStep(g, banned, start, current, w);
      assert SeenAt(visited0, visited, part, stack, w);
      forall x ensures SeenAt(visited0, visited + {w}, part, stack + [w], x) {
        assert SeenAt(visited0, visited, part, stack, x);
      }
      forall x ensures FreshAt(g, banned, start, visited0, part, stack + [w], x) {
        assert FreshAt(g, banned, start, visited0, part, stack, x);
      }
    }
  }

  lemma FloodDone(g: Graph, banned: set<Node>, start: Node, visited0: set<Node>,
                  visited: set<Node>, part: set<Node>, current: Node)
    requires Valid(g) && Closed(g, banned, visited0) && start !in visited0
    requires Flooding(g, banned, start, visited0, visited, part, [], current, {})
    ensures part == Comp(g, banned, start) && visited == visited0 + part && part !! visited0
    ensures Closed(g, banned, visited)
  {
    forall x ensures (x in visited <==> x in visited0 + part) && (x in part ==> x !in visited0) {
      assert SeenAt(visited0, visited, part, [], x) && FreshAt(g, banned, start, visited0, part, [], x);
    }
    assert Closed(g, banned, part) by {
      forall u, w | u in part && u !in banned && w in Nbrs(g, u) && w !in banned ensures w in part {
        assert SpreadAt(g, banned, visited, part, current, {}, u);
        assert u in Nbrs(g, w);
      }
    }
    forall x ensures x in part <==> x in Comp(g, banned, start) {
      assert FreshAt(g, banned, start, visited0, part, [], x);
      CompMember(g, banned, start, x);
      if Conn(g, banned, start, x) {
        ConnClosed(g, banned, part, start, x);
      }
    }
  }

  lemma FloodNodes(g: Graph, banned: set<Node>, start: Node, visited0: set<Node>,
                   visited: set<Node>, part: set<Node>, stack: seq<Node>, current: Node, pending: set<Node>)
    requires visited0 <= g.nodes && Flooding(g, banned, start, visited0, visited, part, stack, current, pending)
    ensures visited <= g.nodes
  {
    forall x | x in visited ensures x in g.nodes {
      assert SeenAt(visited0, visited, part, stack, x) && FreshAt(g, banned, start, visited0, part, stack, x);
      if x !in visited0 {
        ConnEnds(g, banned, start, x);
      }
    }
  }

  /** The depth-first fill started at an unvisited node collects exactly its component. */
  method Flood(g: Graph, ghost banned: set<Node>, adj: map<Node, set<Node>>, start: Node, visited0: set<Node>)
    returns (part: set<Node>, visited: set<Node>)
    requires Valid(g) && IsAdjacencyWithout(g, banned, adj)
    requires start in g.nodes && start !in banned && start !in visited0
    requires Closed(g, banned, visited0) && visited0 <= g.nodes
    ensures part == Comp(g, banned, start) && visited == visited0 + part && part !! visited0
    ensures Closed(g, banned, visited) && visited <= g.nodes
  {
    hide Flooding, Closed, Valid, Nbrs;
    var stack: seq<Node> := [start];
    visited := visited0 + {start};
    part := {};
    FloodStart(g, banned, start, visited0);
    ghost var last := start;
    while stack != []
      invariant Flooding(g, banned, start, visited0, visited, part, stack, last, {})
      invariant visited <= g.nodes
      decreases g.nodes - visited, |stack|
    {
      var current := stack[|stack| - 1];
      FloodPop(g, banned, start, visited0, visited, part, stack, last);
      stack := stack[..|stack| - 1];
      part := part + {current};
      last := current;
      var pending := Get(adj, current);
      ConnEnds(g, banned, start, current);
      ghost var before, height := visited, |stack|;
      while pending != {}
        invariant pending <= Nbrs(g, current) - banned && current in part
        invariant Flooding(g, banned, start, visited0, visited, part, stack, current, pending)
        invariant before <= visited <= g.nodes && (visited == before ==> |stack| == height)
        decreases |pending|
      {
        var neighbor :| neighbor in pending;
        FloodPush(g, banned, start, visited0, visited, part, stack, current, pending, neighbor);
        if neighbor !in visited {
          visited := visited + {neighbor};
          stack := stack + [neighbor];
        }
        pending := pending - {neighbor};
        FloodNodes(g, banned, start, visited0, visited, part, stack, current, pending);
      }
    }
    FloodDone(g, banned, start, visited0, visited, part, last);
  }

  // ---------------------------------------------------------------- all components

  ghost predicate BlockAt(parts: seq<set<Node>>, i: int) {
    0 <= i < |parts| ==> parts[i] != {}
  }

  /** A member's block is its whole component in the graph without `banned`. */
  ghost predicate MemberAt(g: Graph, banned: set<Node>, parts: seq<set<Node>>, covered: set<Node>, i: int, x: Node) {
    0 <= i < |parts| && x in parts[i] ==> x in covered && x !in banned && parts[i] == Comp(g, banned, x)
  }

  ghost predicate ApartAt(parts: seq<set<Node>>, i: int, j: int) {
    0 <= i < j < |parts| ==> parts[i] !! parts[j]
  }

  ghost predicate Holds(parts: seq<set<Node>>, i: int, x: Node) {
    0 <= i < |parts| && x in parts[i]
  }

  ghost predicate CoveredAt(parts: seq<set<Node>>, covered: set<Node>, x: Node) {
    x in covered ==> exists i :: Holds(parts, i, x)
  }

  /** `parts` lists the components of the graph without `banned`, and together they make up `covered`. */
  ghost predicate PartsOf(g: Graph, banned: set<Node>, parts: seq<set<Node>>, covered: set<Node>) {
    && (forall i :: BlockAt(parts, i))
    && (forall i, x :: MemberAt(g, banned, parts, covered, i, x))
    && (forall i, j :: ApartAt(parts, i, j))
    && (forall x :: CoveredAt(parts, covered, x))
  }

  lemma PartsGrow(g: Graph, banned: set<Node>, parts: seq<set<Node>>, covered: set<Node>, start: Node)
    requires PartsOf(g, banned, parts, covered) && start in g.nodes && start !in banned
    requires Comp(g, banned, start) !! covered
    ensures PartsOf(g, banned, parts + [Comp(g, banned, start)], covered + Comp(g, banned, start))
  {
    var part := Comp(g, banned, start);
    var more := parts + [part];
    assert start in part by { ConnRefl(g, banned, start); }
    forall i ensures BlockAt(more, i) {
      assert BlockAt(parts, i);
    }
    forall i, x ensures MemberAt(g, banned, more, covered + part, i, x) {
      assert MemberAt(g, banned, parts, covered, i, x);
      if i == |parts| && x in part {
        ConnEnds(g, banned, start, x);
        CompSame(g, banned, start, x);
      }
    }
    hide Comp;
    forall i, j ensures ApartAt(more, i, j) {
      assert ApartAt(parts, i, j);
      if 0 <= i < j == |parts| {
        forall x | x in parts[i] ensures x !in part {
          assert MemberAt(g, banned, parts, covered, i, x);
        }
      }
    }
    forall x ensures CoveredAt(more, covered + part, x) {
      assert CoveredAt(parts, covered, x);
      if i :| Holds(parts, i, x) {
        assert Holds(more, i, x);
      }
      assert x in part ==> Holds(more, |parts|, x);
    }
  }

  /** The sweep over the nodes in sorted order, one fill per node not seen before. */
  method Parts(g: Graph, banned: set<Node>, adj: map<Node, set<Node>>) returns (parts: seq<set<Node>>)
    requires Valid(g) && IsAdjacencyWithout(g, banned, adj)
    ensures PartsOf(g, banned, parts, g.nodes - banned)
  {
    hide Closed, Valid, Nbrs, Sorted, IsAdjacencyWithout;
    parts := [];
    var visited: set<Node> := {};
    var order := Sorted(g.nodes - banned);
    assert Closed(g, banned, {}) by { ClosedEmpty(g, banned); }
    for i := 0 to |order|
      invariant PartsOf(g, banned, parts, visited)
      invariant Closed(g, banned, visited) && visited <= g.nodes - banned
      invariant forall k | 0 <= k < i :: order[k] in visited
    {
      var start := order[i];
      assert start in g.nodes - banned by { assert start in order; }
      if start !in visited {
        var part, seen := Flood(g, banned, adj, start, visited);
        PartsGrow(g, banned, parts, visited, start);
        assert start in part by { ConnRefl(g, banned, start); }
        forall x | x in part ensures x in g.nodes - banned {
          ConnEnds(g, banned, start, x);
        }
        parts := parts + [part];
        visited := seen;
      }
    }
    assert visited == g.nodes - banned by {
      forall x | x in g.nodes - banned ensures x in visited {
        assert x in order;
      }
    }
  }

  lemma ClosedEmpty(g: Graph, banned: set<Node>)
    ensures Closed(g, banned, {})
  {}

  /** Largest component first, ties by the smallest member. */
  function ComponentKey(c: set<Node>): (real, nat) {
    (|c| as real, if c == {} then 0 else Min(c))
  }

  lemma PartsDistinct(g: Graph, banned: set<Node>, parts: seq<set<Node>>, covered: set<Node>, sorted: seq<set<Node>>)
    requires PartsOf(g, banned, parts, covered) && multiset(parts) == multiset(sorted)
    ensures forall i, j | 0 <= i < j < |sorted| :: sorted[i] != sorted[j]
    ensures forall c :: c in parts <==> c in sorted
  {
    forall i, j | 0 <= i < j < |parts| ensures parts[i] != parts[j] {
      assert ApartAt(parts, i, j) && BlockAt(parts, i);
      var x :| x in parts[i];
    }
    SameElements(parts, sorted);
  }

  lemma PartsPermuted(g: Graph, banned: set<Node>, parts: seq<set<Node>>, covered: set<Node>, sorted: seq<set<Node>>)
    requires PartsOf(g, banned, parts, covered) && multiset(parts) == multiset(sorted)
    ensures PartsOf(g, banned, sorted, covered)
  {
    PartsDistinct(g, banned, parts, covered, sorted);
    hide Comp;
    forall i ensures BlockAt(sorted, i) {
      if 0 <= i < |sorted| {
        var k := IndexOf(parts, sorted[i]);
        assert BlockAt(parts, k);
      }
    }
    forall i, x ensures MemberAt(g, banned, sorted, covered, i, x) {
      if 0 <= i < |sorted| {
        var k := IndexOf(parts, sorted[i]);
        assert MemberAt(g, banned, parts, covered, k, x);
      }
    }
    forall i, j ensures ApartAt(sorted, i, j) {
      if 0 <= i < j < |sorted| {
        var k, l := IndexOf(parts, sorted[i]), IndexOf(parts, sorted[j]);
        assert ApartAt(parts, k, l) && ApartAt(parts, l, k);
      }
    }
    forall x ensures CoveredAt(sorted, covered, x) {
      assert CoveredAt(parts, covered, x);
      if i :| Holds(parts, i, x) {
        assert Holds(sorted, IndexOf(sorted, parts[i]), x);
      }
    }
  }

  ghost function IndexOf<T>(q: seq<T>, x: T): (i: nat)
    requires x in q
    ensures i < |q| && q[i] == x
  {
    if q[0] == x then 0 else 1 + IndexOf(q[1..], x)
  }

  ghost predicate StrictAt(parts: seq<set<Node>>, i: int, j: int) {
    0 <= i < j < |parts| ==>
      && parts[i] != {} && parts[j] != {}
      && (|parts[i]| > |parts[j]| || (|parts[i]| == |parts[j]| && Min(parts[i]) < Min(parts[j])))
  }

  /** Two blocks of a partition never share their key, so the order is strict. */
  ghost predicate StrictlyRanked(parts: seq<set<Node>>) {
    forall i, j :: StrictAt(parts, i, j)
  }

  /** The components partition the nodes, two nodes share one exactly when a walk joins them,
      and they come by decreasing size, ties by smallest member. */
  method ConnectedComponents(g: Graph) returns (components: seq<set<Node>>)
    requires Valid(g)
    ensures PartsOf(g, {}, components, g.nodes)
    ensures StrictlyRanked(components)
    ensures forall i, j | 0 <= i < j < |components| ::
              || |components[i]| > |components[j]|
              || (|components[i]| == |components[j]| &&
                  exists x :: x in components[i] && forall y | y in components[j] :: x < y)
  {
    hide Valid, Nbrs, SortBy, PartsOf, StrictlyRanked;
    var adj := Adjacency(g);
    AdjacencyWithoutNone(g, adj);
    var found := Parts(g, {}, adj);
    components := SortBy(found, ComponentKey);
    assert g.nodes - {} == g.nodes;
    PartsPermuted(g, {}, found, g.nodes, components);
    RankedStrictly(g, components);
    SmallestFirst(components);
  }

  lemma SmallestFirst(parts: seq<set<Node>>)
    requires StrictlyRanked(parts)
    ensures forall i, j | 0 <= i < j < |parts| ::
              || |parts[i]| > |parts[j]|
              || (|parts[i]| == |parts[j]| && exists x :: x in parts[i] && forall y | y in parts[j] :: x < y)
  {
    forall i, j | 0 <= i < j < |parts| && |parts[i]| <= |parts[j]|
      ensures |parts[i]| == |parts[j]| && exists x :: x in parts[i] && forall y | y in parts[j] :: x < y
    {
      assert StrictAt(parts, i, j);
      assert IsMin(parts[i], Min(parts[i])) && IsMin(parts[j], Min(parts[j]));
    }
  }

  lemma AdjacencyWithoutNone(g: Graph, adj: map<Node, set<Node>>)
    requires IsAdjacency(g, adj)
    ensures IsAdjacencyWithout(g, {}, adj)
  {
    forall u ensures Get(adj, u) == Nbrs(g, u) - {} {}
  }

  lemma RankedStrictly(g: Graph, parts: seq<set<Node>>)
    requires PartsOf(g, {}, parts, g.nodes) && RankedBy(parts, ComponentKey)
    ensures StrictlyRanked(parts)
  {
    forall i, j ensures StrictAt(parts, i, j) {
      if 0 <= i < j < |parts| {
        assert Ranked(ComponentKey(parts[i]), ComponentKey(parts[j]));
        assert BlockAt(parts, i) && BlockAt(parts, j) && ApartAt(parts, i, j);
        assert IsMin(parts[i], Min(parts[i])) && IsMin(parts[j], Min(parts[j]));
      }
    }
  }

  /** Sharing a block is the same as being joined by a walk. */
  lemma SharedBlock(g: Graph, parts: seq<set<Node>>, i: nat, x: Node, y: Node)
    requires PartsOf(g, {}, parts, g.nodes) && i < |parts| && x in parts[i]
    ensures y in parts[i] <==> Conn(g, {}, x, y)
  {
    assert MemberAt(g, {}, parts, g.nodes, i, x);
    CompMember(g, {}, x, y);
  }

  // ---------------------------------------------------------------- components as communities

  ghost function Union(parts: seq<set<Node>>): set<Node> {
    if parts == [] then {} else parts[0] + Union(parts[1..])
  }

  ghost function InternalTotal(g: Graph, parts: seq<set<Node>>): nat {
    if parts == [] then 0 else |Internal(g, parts[0])| + InternalTotal(g, parts[1..])
  }

  lemma EdgeStaysInside(g: Graph, parts: seq<set<Node>>, i: nat, e: Edge)
    requires Valid(g) && PartsOf(g, {}, parts, g.nodes) && i < |parts| && e in g.edges
    ensures (e.a in parts[i]) == (e.b in parts[i])
  {
    ConnEdge(g, {}, e.a, e.b);
    ConnEdge(g, {}, e.b, e.a);
    hide Conn, PartsOf;
    if e.a in parts[i] {
      SharedBlock(g, parts, i, e.a, e.b);
    } else if e.b in parts[i] {
      SharedBlock(g, parts, i, e.b, e.a);
    }
  }

  /** A component has no edge to the outside: the constant 0 reported by the fallback is right. */
  lemma ComponentHasNoExternal(g: Graph, parts: seq<set<Node>>, i: nat)
    requires Valid(g) && PartsOf(g, {}, parts, g.nodes) && i < |parts|
    ensures External(g, parts[i]) == {}
  {
    forall e | e in g.edges ensures (e.a in parts[i]) == (e.b in parts[i]) {
      EdgeStaysInside(g, parts, i, e);
    }
  }

  lemma {:induction false} UnionMember(parts: seq<set<Node>>, x: Node)
    ensures x in Union(parts) <==> exists i :: Holds(parts, i, x)
  {
    if parts != [] {
      UnionMember(parts[1..], x);
      if x in parts[0] {
        assert Holds(parts, 0, x);
      } else if i :| Holds(parts[1..], i, x) {
        assert Holds(parts, i + 1, x);
      }
      if i :| Holds(parts, i, x) {
        assert i > 0 ==> Holds(parts[1..], i - 1, x);
      }
    }
  }

  /** Pairwise disjoint blocks: the first is disjoint from the union of the others. */
  lemma FirstApart(parts: seq<set<Node>>)
    requires parts != [] && forall i, j :: ApartAt(parts, i, j)
    ensures parts[0] !! Union(parts[1..])
    ensures forall i, j :: ApartAt(parts[1..], i, j)
  {
    forall x | x in Union(parts[1..]) ensures x !in parts[0] {
      UnionMember(parts[1..], x);
      var i :| Holds(parts[1..], i, x);
      assert ApartAt(parts, 0, i + 1);
    }
    forall i, j ensures ApartAt(parts[1..], i, j) {
      assert ApartAt(parts, i + 1, j + 1);
    }
  }

  /** Blocks without outgoing edges share out the edges inside their union. */
  lemma {:induction false} InternalOfUnion(g: Graph, parts: seq<set<Node>>)
    requires forall i | 0 <= i < |parts| :: External(g, parts[i]) == {}
    requires forall i, j :: ApartAt(parts, i, j)
    ensures InternalTotal(g, parts) == |Internal(g, Union(parts))|
  {
    if parts == [] {
      assert Internal(g, {}) == {};
    } else {
      var first, rest := parts[0], Union(parts[1..]);
      FirstApart(parts);
      InternalOfUnion(g, parts[1..]);
      assert Internal(g, first + rest) == Internal(g, first) + Internal(g, rest) by {
        forall e | e in g.edges ensures (e.a in first) == (e.b in first) {
          assert e !in External(g, first);
        }
      }
    }
  }

  /** The internal counts of the fallback communities add up to the number of edges. */
  lemma ComponentInternalsAddUp(g: Graph, parts: seq<set<Node>>)
    requires Valid(g) && PartsOf(g, {}, parts, g.nodes)
    ensures InternalTotal(g, parts) == |g.edges|
  {
    hide InternalTotal, Union;
    forall i | 0 <= i < |parts| ensures External(g, parts[i]) == {} {
      ComponentHasNoExternal(g, parts, i);
    }
    InternalOfUnion(g, parts);
    forall x | x in g.nodes ensures x in Union(parts) {
      UnionMember(parts, x);
      assert CoveredAt(parts, g.nodes, x);
      var i :| Holds(parts, i, x);
    }
    assert Internal(g, Union(parts)) == g.edges;
  }
}
