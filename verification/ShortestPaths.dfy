/** Walks of a given length as finite sets of node sequences, their number, distances, and the
    share of shortest paths that pass through a node. */
module ShortestPaths {
  import opened Sums
  import opened Graphs

  /** All walks from `s` to `t` with `n` edges. */
  ghost function WalkSet(g: Graph, s: Node, t: Node, n: nat): set<seq<Node>>
    decreases n
  {
    if n == 0 then (if s == t && s in g.nodes then {[s]} else {})
    else Extend(Nbrs(g, t), (w: Node) => WalkSet(g, s, w, n - 1), t)
  }

  /** The sequences of `a(w)`, for each `w` in `ws`, followed by `t`. */
  ghost function Extend(ws: set<Node>, a: Node -> set<seq<Node>>, t: Node): set<seq<Node>> {
    set w, p | w in ws && p in a(w) :: p + [t]
  }

  ghost function Count(g: Graph, s: Node, t: Node, n: nat): nat {
    |WalkSet(g, s, t, n)|
  }

  ghost function Sizes(a: Node -> set<seq<Node>>): Node -> real {
    (w: Node) => |a(w)| as real
  }

  ghost predicate EndIn(ps: set<seq<Node>>, w: Node) {
    forall p | p in ps :: |p| > 0 && p[|p| - 1] == w
  }

  ghost function Append(ps: set<seq<Node>>, t: Node): set<seq<Node>> {
    set p | p in ps :: p + [t]
  }

  lemma AppendInjective(p: seq<Node>, q: seq<Node>, t: Node)
    requires p + [t] == q + [t]
    ensures p == q
  {
    assert p == (p + [t])[..|p + [t]| - 1];
    assert q == (q + [t])[..|q + [t]| - 1];
  }

  lemma AppendMember(ps: set<seq<Node>>, t: Node, p: seq<Node>)
    ensures p + [t] in Append(ps, t) <==> p in ps
  {
    if p + [t] in Append(ps, t) {
      var q :| q in ps && q + [t] == p + [t];
      AppendInjective(p, q, t);
    }
  }

  lemma {:induction false} AppendSize(ps: set<seq<Node>>, t: Node)
    ensures |Append(ps, t)| == |ps|
    decreases |ps|
  {
    if ps == {} {
      assert Append(ps, t) == {};
    } else {
      var q :| q in ps;
      AppendSize(ps - {q}, t);
      assert Append(ps, t) == Append(ps - {q}, t) + {q + [t]};
      AppendMember(ps - {q}, t, q);
    }
  }

  lemma ExtendSplit(ws: set<Node>, a: Node -> set<seq<Node>>, t: Node, w: Node)
    requires w in ws && forall x | x in ws :: EndIn(a(x), x)
    ensures Extend(ws, a, t) == Extend(ws - {w}, a, t) + Append(a(w), t)
    ensures Extend(ws - {w}, a, t) !! Append(a(w), t)
  {
    forall q | q in Append(a(w), t) ensures q !in Extend(ws - {w}, a, t) {
      var p :| p in a(w) && q == p + [t];
      if q in Extend(ws - {w}, a, t) {
        var x, r :| x in ws - {w} && r in a(x) && q == r + [t];
        AppendInjective(p, r, t);
      }
    }
  }

  /** Families that end in different nodes stay disjoint when extended. */
  lemma {:induction false} ExtendSize(ws: set<Node>, a: Node -> set<seq<Node>>, t: Node)
    requires forall w | w in ws :: EndIn(a(w), w)
    ensures |Extend(ws, a, t)| as real == Sum(ws, Sizes(a))
    decreases |ws|
  {
    if ws == {} {
      assert Extend(ws, a, t) == {};
    } else {
      var w :| w in ws;
      ExtendSize(ws - {w}, a, t);
      AppendSize(a(w), t);
      ExtendSplit(ws, a, t, w);
      SumRemove(ws, Sizes(a), w);
    }
  }

  lemma {:induction false} WalkSetSound(g: Graph, s: Node, t: Node, n: nat, p: seq<Node>)
    requires Valid(g) && p in WalkSet(g, s, t, n)
    ensures Walk(g, {}, p, s, t) && |p| == n + 1
    decreases n
  {
    if n > 0 {
      var w, q :| w in Nbrs(g, t) && q in WalkSet(g, s, w, n - 1) && p == q + [t];
      WalkSetSound(g, s, w, n - 1, q);
      StepWalk(g, q, s, w, t);
    }
  }

  lemma {:induction false} WalkSetComplete(g: Graph, s: Node, t: Node, n: nat, p: seq<Node>)
    requires Valid(g) && Walk(g, {}, p, s, t) && |p| == n + 1
    ensures p in WalkSet(g, s, t, n)
    decreases n
  {
    if n > 0 {
      var q := p[..n];
      assert p == q + [t];
      assert Adj(g, p[n - 1], p[n - 1 + 1]);
      PrefixWalk(g, p, s, t, n - 1);
      WalkSetComplete(g, s, p[n - 1], n - 1, q);
      assert p[n - 1] in Nbrs(g, t);
    } else {
      assert p == [s];
    }
  }

  lemma PrefixWalk(g: Graph, p: seq<Node>, s: Node, t: Node, i: nat)
    requires Walk(g, {}, p, s, t) && i < |p|
    ensures Walk(g, {}, p[..i + 1], s, p[i]) && Walk(g, {}, p[i..], p[i], t)
  {
    var q, r := p[..i + 1], p[i..];
    forall k | 0 <= k < |q| - 1 ensures Adj(g, q[k], q[k + 1]) {
      assert Adj(g, p[k], p[k + 1]);
    }
    forall k | 0 <= k < |r| - 1 ensures Adj(g, r[k], r[k + 1]) {
      assert Adj(g, p[i + k], p[i + k + 1]);
    }
  }

  /** The recursion lists exactly the walks with `n` edges. */
  lemma WalkSetExact(g: Graph, s: Node, t: Node, n: nat, p: seq<Node>)
    requires Valid(g)
    ensures p in WalkSet(g, s, t, n) <==> Walk(g, {}, p, s, t) && |p| == n + 1
  {
    if p in WalkSet(g, s, t, n) {
      WalkSetSound(g, s, t, n, p);
    } else if Walk(g, {}, p, s, t) && |p| == n + 1 {
      WalkSetComplete(g, s, t, n, p);
    }
  }

  lemma StepWalk(g: Graph, q: seq<Node>, s: Node, w: Node, t: Node)
    requires Valid(g) && Walk(g, {}, q, s, w) && w in Nbrs(g, t)
    ensures Walk(g, {}, q + [t], s, t)
  {
    var p := q + [t];
    assert q[|q| - 1] == w;
    forall i | 0 <= i < |p| - 1 ensures Adj(g, p[i], p[i + 1]) {
      if i < |q| - 1 {
        assert Adj(g, q[i], q[i + 1]);
      }
    }
  }

  lemma WalksEnd(g: Graph, s: Node, w: Node, n: nat)
    requires Valid(g)
    ensures EndIn(WalkSet(g, s, w, n), w)
  {
    forall p | p in WalkSet(g, s, w, n) ensures |p| > 0 && p[|p| - 1] == w {
      WalkSetExact(g, s, w, n, p);
    }
  }

  // ---------------------------------------------------------------- counting

  ghost function From(g: Graph, s: Node, n: nat): Node -> real {
    (w: Node) => Count(g, s, w, n) as real
  }

  ghost function To(g: Graph, t: Node, n: nat): Node -> real {
    (w: Node) => Count(g, w, t, n) as real
  }

  /** Walks split by their last edge. */
  lemma CountLast(g: Graph, s: Node, t: Node, n: nat)
    requires Valid(g)
    ensures Count(g, s, t, n + 1) as real == Sum(Nbrs(g, t), From(g, s, n))
  {
    var a := (w: Node) => WalkSet(g, s, w, n);
    forall w | w in Nbrs(g, t) ensures EndIn(a(w), w) {
      WalksEnd(g, s, w, n);
    }
    ExtendSize(Nbrs(g, t), a, t);
    SumCongruent(Nbrs(g, t), Sizes(a), From(g, s, n));
    assert WalkSet(g, s, t, n + 1) == Extend(Nbrs(g, t), (w: Node) => WalkSet(g, s, w, n + 1 - 1), t);
    assert Extend(Nbrs(g, t), (w: Node) => WalkSet(g, s, w, n + 1 - 1), t) == Extend(Nbrs(g, t), a, t);
  }

  lemma CountZero(g: Graph, s: Node, t: Node)
    ensures Count(g, s, t, 0) == if s == t && s in g.nodes then 1 else 0
  {}

  lemma SumIndicator(ws: set<Node>, x: Node, f: Node -> real)
    requires forall w | w in ws :: f(w) == if w == x then 1.0 else 0.0
    ensures Sum(ws, f) == if x in ws then 1.0 else 0.0
  {
    SumHit(ws, x);
    SumCongruent(ws, f, Hit(x));
  }

  /** Walks split by their first edge as well. */
  lemma {:induction false} CountFirst(g: Graph, s: Node, t: Node, n: nat)
    requires Valid(g)
    ensures Count(g, s, t, n + 1) as real == Sum(Nbrs(g, s), To(g, t, n))
    decreases n
  {
    hide Sum, Count;
    CountLast(g, s, t, n);
    NbrsSymmetric(g, s, t);
    if n == 0 {
      forall w | w in Nbrs(g, t) ensures From(g, s, 0)(w) == if w == s then 1.0 else 0.0 { CountZero(g, s, w); }
      forall w | w in Nbrs(g, s) ensures To(g, t, 0)(w) == if w == t then 1.0 else 0.0 { CountZero(g, w, t); }
      SumIndicator(Nbrs(g, t), s, From(g, s, 0));
      SumIndicator(Nbrs(g, s), t, To(g, t, 0));
    } else {
      var k := (w: Node, u: Node) => Count(g, u, w, n - 1) as real;
      forall w | w in Nbrs(g, t) ensures From(g, s, n)(w) == Sum(Nbrs(g, s), Row(k, w)) {
        CountFirst(g, s, w, n - 1);
        SumCongruent(Nbrs(g, s), To(g, w, n - 1), Row(k, w));
      }
      forall u | u in Nbrs(g, s) ensures To(g, t, n)(u) == Sum(Nbrs(g, t), Column(k, u)) {
        CountLast(g, u, t, n - 1);
        SumCongruent(Nbrs(g, t), From(g, u, n - 1), Column(k, u));
      }
      SumSwap(Nbrs(g, t), Nbrs(g, s), k, From(g, s, n), To(g, t, n));
    }
  }

  lemma {:induction false} CountSymmetric(g: Graph, s: Node, t: Node, n: nat)
    requires Valid(g)
    ensures Count(g, s, t, n) == Count(g, t, s, n)
    decreases n
  {
    hide Sum, Count, Nbrs, Valid;
    if n == 0 {
      CountZero(g, s, t);
      CountZero(g, t, s);
    } else {
      CountLast(g, s, t, n - 1);
      CountFirst(g, t, s, n - 1);
      forall w | w in Nbrs(g, t) ensures From(g, s, n - 1)(w) == To(g, s, n - 1)(w) {
        CountSymmetric(g, s, w, n - 1);
      }
      SumCongruent(Nbrs(g, t), From(g, s, n - 1), To(g, s, n - 1));
    }
  }

  // ---------------------------------------------------------------- walks through a node

  /** Walks of length `a + b` that are at `v` after `a` edges. */
  ghost function Through(g: Graph, s: Node, v: Node, t: Node, a: nat, b: nat): set<seq<Node>> {
    set p | p in WalkSet(g, s, t, a + b) && |p| > a && p[a] == v
  }

  ghost function ThroughFamily(g: Graph, s: Node, v: Node, a: nat, b: nat): Node -> set<seq<Node>> {
    (w: Node) => Through(g, s, v, w, a, b)
  }

  lemma ThroughStep(g: Graph, s: Node, v: Node, t: Node, a: nat, b: nat)
    requires Valid(g)
    ensures Through(g, s, v, t, a, b + 1) == Extend(Nbrs(g, t), ThroughFamily(g, s, v, a, b), t)
  {
    var fam := ThroughFamily(g, s, v, a, b);
    forall p | p in Through(g, s, v, t, a, b + 1) ensures p in Extend(Nbrs(g, t), fam, t) {
      var w, q :| w in Nbrs(g, t) && q in WalkSet(g, s, w, a + b + 1 - 1) && p == q + [t];
      WalkSetExact(g, s, w, a + b, q);
      assert q in fam(w);
    }
    forall p | p in Extend(Nbrs(g, t), fam, t) ensures p in Through(g, s, v, t, a, b + 1) {
      var w, q :| w in Nbrs(g, t) && q in fam(w) && p == q + [t];
      assert q in WalkSet(g, s, w, a + b + 1 - 1);
    }
  }

  lemma ThroughSum(g: Graph, s: Node, v: Node, t: Node, a: nat, b: nat)
    requires Valid(g)
    ensures |Through(g, s, v, t, a, b + 1)| as real == Sum(Nbrs(g, t), Sizes(ThroughFamily(g, s, v, a, b)))
  {
    var fam := ThroughFamily(g, s, v, a, b);
    forall w | w in Nbrs(g, t) ensures EndIn(fam(w), w) {
      WalksEnd(g, s, w, a + b);
    }
    ThroughStep(g, s, v, t, a, b);
    ExtendSize(Nbrs(g, t), fam, t);
  }

  /** A walk through `v` is a free choice of the part before and the part after. */
  lemma {:induction false} ThroughCount(g: Graph, s: Node, v: Node, t: Node, a: nat, b: nat)
    requires Valid(g)
    ensures |Through(g, s, v, t, a, b)| as real == Count(g, s, v, a) as real * Count(g, v, t, b) as real
    decreases b
  {
    hide Sum, Count, Through;
    if b == 0 {
      ThroughEnd(g, s, v, t, a);
    } else {
      ThroughSum(g, s, v, t, a, b - 1);
      var fam := ThroughFamily(g, s, v, a, b - 1);
      var c := Count(g, s, v, a) as real;
      forall w | w in Nbrs(g, t) ensures Sizes(fam)(w) == c * From(g, v, b - 1)(w) {
        ThroughCount(g, s, v, w, a, b - 1);
      }
      SumScale(Nbrs(g, t), c, From(g, v, b - 1), Sizes(fam));
      CountLast(g, v, t, b - 1);
    }
  }

  lemma ThroughEnd(g: Graph, s: Node, v: Node, t: Node, a: nat)
    requires Valid(g)
    ensures |Through(g, s, v, t, a, 0)| == Count(g, s, v, a) * Count(g, v, t, 0)
  {
    forall p | p in WalkSet(g, s, t, a) ensures |p| == a + 1 && p[a] == t && t in g.nodes {
      WalkSetExact(g, s, t, a, p);
    }
    CountZero(g, v, t);
    if v == t {
      assert Through(g, s, v, t, a, 0) == WalkSet(g, s, t, a);
      if t !in g.nodes {
        assert WalkSet(g, s, t, a) == {};
      }
    } else {
      assert Through(g, s, v, t, a, 0) == {};
    }
  }
}
