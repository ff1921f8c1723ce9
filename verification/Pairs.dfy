/** Counting unordered pairs of nodes, kept as edges with the smaller end first. */
module Pairs {
  import opened Sums
  import opened Graphs

  ghost function PairsIn(s: set<Node>): set<Edge> {
    set a, b | a in s && b in s && a < b :: Edge(a, b)
  }

  /** All pairs with one end in `s` and the other in `t`. */
  ghost function Across(s: set<Node>, t: set<Node>): set<Edge> {
    set a, b | a in s && b in t && a != b :: Key(a, b)
  }

  lemma StarSplit(x: Node, t: set<Node>, y: Node)
    requires x !in t && y in t
    ensures Across({x}, t) == Across({x}, t - {y}) + {Key(x, y)} && Key(x, y) !in Across({x}, t - {y})
  {
    assert Key(x, y) in Across({x}, t);
  }

  lemma {:induction false} Star(x: Node, t: set<Node>)
    requires x !in t
    ensures |Across({x}, t)| == |t|
    decreases |t|
  {
    if t == {} {
      assert Across({x}, t) == {};
    } else {
      var y :| y in t;
      Star(x, t - {y});
      StarSplit(x, t, y);
    }
  }

  lemma AcrossSplit(s: set<Node>, t: set<Node>, x: Node)
    requires s !! t && x in s
    ensures Across(s, t) == Across(s - {x}, t) + Across({x}, t) && Across(s - {x}, t) !! Across({x}, t)
  {}

  lemma AcrossNone(t: set<Node>)
    ensures Across({}, t) == {}
  {}

  /** Multiplication under a name, so that it can be hidden from the solver. */
  ghost function Product(m: nat, n: nat): nat {
    m * n
  }

  lemma OneMore(m: nat, n: nat)
    ensures Product(m + 1, n) == Product(m, n) + n && Product(0, n) == 0
  {}

  lemma {:induction false} AcrossProduct(s: set<Node>, t: set<Node>)
    requires s !! t
    ensures |Across(s, t)| == Product(|s|, |t|)
    decreases |s|
  {
    hide Product, Across;
    if s == {} {
      AcrossNone(t);
      OneMore(0, |t|);
    } else {
      var x :| x in s;
      AcrossProduct(s - {x}, t);
      Star(x, t);
      AcrossSplit(s, t, x);
      OneMore(|s - {x}|, |t|);
    }
  }

  lemma AcrossSize(s: set<Node>, t: set<Node>)
    requires s !! t
    ensures |Across(s, t)| == |s| * |t|
  {
    AcrossProduct(s, t);
  }

  lemma PairsInSplit(s: set<Node>, x: Node)
    requires x in s
    ensures PairsIn(s) == PairsIn(s - {x}) + Across({x}, s - {x})
    ensures PairsIn(s - {x}) !! Across({x}, s - {x})
  {
    var t := s - {x};
    forall e | e in PairsIn(s) ensures e in PairsIn(t) || e in Across({x}, t) {
      assert e == Key(e.a, e.b) && e == Key(e.b, e.a);
    }
    forall e | e in Across({x}, t) ensures e in PairsIn(s) && e !in PairsIn(t) {}
    forall e | e in PairsIn(t) ensures e in PairsIn(s) {}
  }

  /** There are n(n-1)/2 pairs in a set of n nodes. */
  lemma {:induction false} PairsInSize(s: set<Node>)
    ensures 2 * |PairsIn(s)| == |s| * (|s| - 1)
    decreases |s|
  {
    if s == {} {
      assert PairsIn(s) == {};
    } else {
      var x :| x in s;
      PairsInSize(s - {x});
      PairsInSplit(s, x);
      Star(x, s - {x});
      hide PairsIn, Across;
      var n := |s - {x}|;
      assert |s| == n + 1;
      assert (n + 1) * n == n * (n - 1) + 2 * n;
    }
  }

  lemma {:induction false} SubsetSize<T>(a: set<T>, b: set<T>)
    requires a <= b
    ensures |a| <= |b|
    ensures a != b ==> |a| < |b|
    decreases |a|
  {
    if a != {} {
      var x :| x in a;
      SubsetSize(a - {x}, b - {x});
      assert a == a - {x} + {x} && b == b - {x} + {x};
    }
  }

  // ---------------------------------------------------------------- sums over pairs

  ghost predicate Symmetric(f: (Node, Node) -> real) {
    forall a, b :: f(a, b) == f(b, a)
  }

  ghost function OnPair(f: (Node, Node) -> real): Edge -> real {
    (e: Edge) => f(e.a, e.b)
  }

  /** Row sums over `s`. */
  ghost function RowSums(f: (Node, Node) -> real, s: set<Node>): Node -> real {
    (a: Node) => Sum(s, Row(f, a))
  }

  lemma {:induction false} StarSum(f: (Node, Node) -> real, x: Node, t: set<Node>)
    requires Symmetric(f) && x !in t
    ensures Sum(Across({x}, t), OnPair(f)) == Sum(t, Row(f, x))
    decreases |t|
  {
    if t == {} {
      assert Across({x}, t) == {};
      SumConstant(t, 0.0, Row(f, x));
      SumConstant(Across({x}, t), 0.0, OnPair(f));
    } else {
      hide Sum;
      var y :| y in t;
      StarSum(f, x, t - {y});
      StarSplit(x, t, y);
      assert OnPair(f)(Key(x, y)) == f(x, y);
      hide Across, Symmetric;
      SumInsert(Across({x}, t - {y}), OnPair(f), Key(x, y));
      SumRemove(t, Row(f, x), y);
    }
  }

  /** Dropping `x` takes its row and its column out of the double sum. */
  lemma RowSumsSplit(f: (Node, Node) -> real, s: set<Node>, x: Node)
    requires Symmetric(f) && x in s && f(x, x) == 0.0
    ensures Sum(s, RowSums(f, s)) == 2.0 * Sum(s - {x}, Row(f, x)) + Sum(s - {x}, RowSums(f, s - {x}))
  {
    hide Sum;
    var t := s - {x};
    SumRemove(s, RowSums(f, s), x);
    SumRemove(s, Row(f, x), x);
    forall a | a in t ensures RowSums(f, s)(a) == Row(f, x)(a) + RowSums(f, t)(a) {
      SumRemove(s, Row(f, a), x);
    }
    SumPlus(t, Row(f, x), RowSums(f, t), RowSums(f, s));
  }

  /** Summing a symmetric quantity over ordered pairs counts every unordered pair twice. */
  lemma {:induction false} OrderedPairsTwice(f: (Node, Node) -> real, s: set<Node>)
    requires Symmetric(f) && forall x | x in s :: f(x, x) == 0.0
    ensures Sum(s, RowSums(f, s)) == 2.0 * Sum(PairsIn(s), OnPair(f))
    decreases |s|
  {
    if s == {} {
      assert PairsIn(s) == {};
    } else {
      var x :| x in s;
      var t := s - {x};
      OrderedPairsTwice(f, t);
      RowSumsSplit(f, s, x);
      PairsInSplit(s, x);
      StarSum(f, x, t);
      hide Sum, PairsIn, Across, Symmetric;
      SumUnion(PairsIn(t), Across({x}, t), OnPair(f));
    }
  }
}
