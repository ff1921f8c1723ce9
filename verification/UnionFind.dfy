/** The union-find forest of the community detection: path halving keeps every root, and the
    root of a class is its smallest member. */
module UnionFind {
  import opened Graphs

  // ---------------------------------------------------------------- forests as values

  ghost predicate LinkAt(parent: map<Node, Node>, x: Node) {
    x in parent ==> parent[x] in parent && parent[x] <= x
  }

  /** Links point to smaller or equal nodes, so every chain ends. */
  ghost predicate Forest(parent: map<Node, Node>) {
    forall x :: LinkAt(parent, x)
  }

  ghost function Root(parent: map<Node, Node>, x: Node): Node
    requires Forest(parent)
    decreases x
  {
    if x !in parent || parent[x] == x then x
    else
      assert LinkAt(parent, x);
      Root(parent, parent[x])
  }

  ghost predicate IsRoot(parent: map<Node, Node>, r: Node) {
    r in parent && parent[r] == r
  }

  lemma {:induction false} RootIsRoot(parent: map<Node, Node>, x: Node)
    requires Forest(parent) && x in parent
    ensures IsRoot(parent, Root(parent, x)) && Root(parent, x) <= x
    decreases x
  {
    assert LinkAt(parent, x);
    if parent[x] != x {
      RootIsRoot(parent, parent[x]);
    }
  }

  /** A root is its own root, and one link up does not change the root. */
  lemma RootSteps(parent: map<Node, Node>, x: Node)
    requires Forest(parent) && x in parent
    ensures IsRoot(parent, x) <==> Root(parent, x) == x
    ensures parent[x] in parent && Root(parent, parent[x]) == Root(parent, x)
  {
    assert LinkAt(parent, x);
    RootIsRoot(parent, x);
    if parent[x] != x {
      RootIsRoot(parent, parent[x]);
    }
  }

  // ---------------------------------------------------------------- path halving

  ghost function Halved(parent: map<Node, Node>, x: Node): map<Node, Node>
    requires Forest(parent) && x in parent
  {
    assert LinkAt(parent, x);
    parent[x := parent[parent[x]]]
  }

  lemma HalvedForest(parent: map<Node, Node>, x: Node)
    requires Forest(parent) && x in parent
    ensures Forest(Halved(parent, x)) && Halved(parent, x).Keys == parent.Keys
  {
    assert LinkAt(parent, x) && LinkAt(parent, parent[x]);
    forall y ensures LinkAt(Halved(parent, x), y) {
      assert LinkAt(parent, y);
    }
  }

  /** Halving a path never moves a node to another class. */
  lemma {:induction false} HalvedRoot(parent: map<Node, Node>, x: Node, y: Node)
    requires Forest(parent) && x in parent && y in parent
    ensures Forest(Halved(parent, x)) && Root(Halved(parent, x), y) == Root(parent, y)
    decreases y
  {
    HalvedForest(parent, x);
    var half := Halved(parent, x);
    assert LinkAt(parent, y) && LinkAt(half, y);
    RootSteps(parent, y);
    RootSteps(parent, parent[y]);
    RootSteps(half, y);
    if half[y] != y {
      HalvedRoot(parent, x, half[y]);
    } else {
      assert LinkAt(parent, parent[y]);
    }
  }

  // ---------------------------------------------------------------- joining two classes

  ghost function Joined(parent: map<Node, Node>, a: Node, b: Node): map<Node, Node> {
    var r := if b < a then b else a;
    parent[a := r][b := r]
  }

  lemma JoinedForest(parent: map<Node, Node>, a: Node, b: Node)
    requires Forest(parent) && IsRoot(parent, a) && IsRoot(parent, b)
    ensures Forest(Joined(parent, a, b)) && Joined(parent, a, b).Keys == parent.Keys
  {
    forall y ensures LinkAt(Joined(parent, a, b), y) {
      assert LinkAt(parent, y);
    }
  }

  /** Joining two roots puts both classes under the smaller one and leaves the others alone. */
  lemma {:induction false} JoinedRoot(parent: map<Node, Node>, a: Node, b: Node, y: Node)
    requires Forest(parent) && IsRoot(parent, a) && IsRoot(parent, b) && y in parent
    ensures Forest(Joined(parent, a, b))
    ensures Root(Joined(parent, a, b), y) ==
            if Root(parent, y) == a || Root(parent, y) == b then (if b < a then b else a) else Root(parent, y)
    decreases y
  {
    JoinedForest(parent, a, b);
    var joined := Joined(parent, a, b);
    assert LinkAt(parent, y) && LinkAt(joined, y);
    RootSteps(parent, y);
    RootSteps(joined, y);
    if y != a && y != b && parent[y] != y {
      JoinedRoot(parent, a, b, parent[y]);
    } else if y == a || y == b {
      RootSteps(parent, a);
      RootSteps(parent, b);
      RootSteps(joined, a);
      RootSteps(joined, b);
    }
  }

  // ---------------------------------------------------------------- classes

  ghost function Class(parent: map<Node, Node>, r: Node): set<Node>
    requires Forest(parent)
  {
    set x | x in parent && Root(parent, x) == r
  }

  ghost function Roots(parent: map<Node, Node>): set<Node> {
    set r | r in parent && parent[r] == r
  }

  /** The partition of the nodes into classes. */
  ghost function Blocks(parent: map<Node, Node>): set<set<Node>>
    requires Forest(parent)
  {
    set r | r in Roots(parent) :: Class(parent, r)
  }

  /** The same nodes under the same roots. */
  ghost predicate SameClasses(p: map<Node, Node>, q: map<Node, Node>) {
    Forest(p) && Forest(q) && p.Keys == q.Keys && forall x | x in p :: Root(p, x) == Root(q, x)
  }

  lemma SameBlocks(p: map<Node, Node>, q: map<Node, Node>)
    requires SameClasses(p, q)
    ensures Roots(p) == Roots(q) && Blocks(p) == Blocks(q)
    ensures forall r :: Class(p, r) == Class(q, r)
  {
    forall r ensures r in Roots(p) <==> r in Roots(q) {
      if r in p {
        RootSteps(p, r);
        RootSteps(q, r);
      }
    }
    forall r ensures Class(p, r) == Class(q, r) {}
  }

  lemma HalvedSame(parent: map<Node, Node>, x: Node)
    requires Forest(parent) && x in parent
    ensures SameClasses(parent, Halved(parent, x))
  {
    HalvedForest(parent, x);
    forall y | y in parent ensures Root(parent, y) == Root(Halved(parent, x), y) {
      HalvedRoot(parent, x, y);
    }
  }

  lemma ClassHasRoot(parent: map<Node, Node>, r: Node)
    requires Forest(parent) && r in Roots(parent)
    ensures r in Class(parent, r) && forall x | x in Class(parent, r) :: r <= x
  {
    RootSteps(parent, r);
    forall x | x in Class(parent, r) ensures r <= x {
      RootIsRoot(parent, x);
    }
  }

  lemma ClassesApart(parent: map<Node, Node>, r: Node, s: Node)
    requires Forest(parent) && r != s
    ensures Class(parent, r) !! Class(parent, s)
  {}

  lemma JoinedClasses(parent: map<Node, Node>, a: Node, b: Node)
    requires Forest(parent) && a in Roots(parent) && b in Roots(parent) && a != b
    ensures Forest(Joined(parent, a, b))
    ensures var r, gone := if b < a then b else a, if b < a then a else b;
            && Roots(Joined(parent, a, b)) == Roots(parent) - {gone}
            && Class(Joined(parent, a, b), r) == Class(parent, a) + Class(parent, b)
            && forall s | s in Roots(parent) && s != a && s != b :: Class(Joined(parent, a, b), s) == Class(parent, s)
  {
    JoinedForest(parent, a, b);
    forall y | y in parent
      ensures Root(Joined(parent, a, b), y) ==
              if Root(parent, y) == a || Root(parent, y) == b then (if b < a then b else a) else Root(parent, y)
    {
      JoinedRoot(parent, a, b, y);
    }
  }

  /** On the partition, joining replaces two blocks by their union. */
  lemma JoinedBlocks(parent: map<Node, Node>, a: Node, b: Node)
    requires Forest(parent) && a in Roots(parent) && b in Roots(parent) && a != b
    ensures Forest(Joined(parent, a, b))
    ensures var c, d := Class(parent, a), Class(parent, b);
            && Blocks(Joined(parent, a, b)) == Blocks(parent) - {c, d} + {c + d}
            && c in Blocks(parent) && d in Blocks(parent) && c != d && c !! d && c + d !in Blocks(parent)
            && |Roots(Joined(parent, a, b))| == |Roots(parent)| - 1
  {
    JoinedClasses(parent, a, b);
    ClassesApart(parent, a, b);
    ClassHasRoot(parent, a);
    ClassHasRoot(parent, b);
    var c, d := Class(parent, a), Class(parent, b);
    var joined := Joined(parent, a, b);
    forall s | s in Roots(parent) && s != a && s != b ensures Class(parent, s) !in {c, d, c + d} {
      ClassHasRoot(parent, s);
      ClassesApart(parent, s, a);
      ClassesApart(parent, s, b);
    }
    assert c + d != c && c + d != d;
    forall k ensures k in Blocks(joined) <==> k in Blocks(parent) - {c, d} + {c + d} {
      JoinedBlock(parent, a, b, k);
    }
  }

  lemma JoinedBlock(parent: map<Node, Node>, a: Node, b: Node, k: set<Node>)
    requires Forest(parent) && a in Roots(parent) && b in Roots(parent) && a != b && Forest(Joined(parent, a, b))
    requires forall s | s in Roots(parent) && s != a && s != b ::
               Class(parent, s) !in {Class(parent, a), Class(parent, b), Class(parent, a) + Class(parent, b)}
    ensures k in Blocks(Joined(parent, a, b)) <==>
            k in Blocks(parent) - {Class(parent, a), Class(parent, b)} + {Class(parent, a) + Class(parent, b)}
  {
    JoinedClasses(parent, a, b);
    var joined := Joined(parent, a, b);
    var r := if b < a then b else a;
    assert r in Roots(joined);
    if k in Blocks(joined) {
      var s :| s in Roots(joined) && k == Class(joined, s);
      assert s == r || (s in Roots(parent) && s != a && s != b);
    }
    if k in Blocks(parent) - {Class(parent, a), Class(parent, b)} {
      var s :| s in Roots(parent) && k == Class(parent, s);
      assert s in Roots(joined);
    }
  }
}
