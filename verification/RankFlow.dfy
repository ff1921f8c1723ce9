/** PageRank by power iteration over the directed edges: where the mass goes, and how fast the
    iteration settles. */
module RankFlow {
  import opened Sums
  import opened Graphs
  import opened Ordering

  // ---------------------------------------------------------------- out-links

  /** Destinations of the arcs that leave `u`, with repetitions. */
  function Targets(arcs: seq<Arc>, u: Node): seq<Node> {
    if arcs == [] then []
    else
      var rest, last := Targets(arcs[..|arcs| - 1], u), arcs[|arcs| - 1];
      if last.src == u then rest + [last.dst] else rest
  }

  /** Out-degree counts parallel arcs. */
  function OutDegree(g: Graph, u: Node): nat {
    |Targets(g.directed, u)|
  }

  /** Shares go to distinct neighbours only. */
  ghost function OutNbrs(g: Graph, u: Node): set<Node> {
    Elements(Targets(g.directed, u))
  }

  lemma {:induction false} TargetMember(arcs: seq<Arc>, u: Node, x: Node)
    ensures x in Targets(arcs, u) <==> exists r :: r in arcs && r.src == u && r.dst == x
  {
    if arcs != [] {
      var k := |arcs| - 1;
      TargetMember(arcs[..k], u, x);
      assert arcs == arcs[..k] + [arcs[k]];
    }
  }

  lemma OutNbrsAreNodes(g: Graph, u: Node)
    requires Valid(g)
    ensures OutNbrs(g, u) <= g.nodes
  {
    forall x | x in OutNbrs(g, u) ensures x in g.nodes {
      TargetMember(g.directed, u, x);
    }
  }

  /** Positions of the arcs that leave `u`. */
  ghost function Leaving(arcs: seq<Arc>, u: Node): set<int> {
    set i | 0 <= i < |arcs| && arcs[i].src == u
  }

  /** The out-degree is the number of arcs that leave the node, parallel ones included. */
  lemma {:induction false} TargetsCount(arcs: seq<Arc>, u: Node)
    ensures |Targets(arcs, u)| == |set i | 0 <= i < |arcs| && arcs[i].src == u|
  {
    assert Leaving(arcs, u) == set i | 0 <= i < |arcs| && arcs[i].src == u;
    if arcs == [] {
      assert Leaving(arcs, u) == {};
    } else {
      var k := |arcs| - 1;
      TargetsCount(arcs[..k], u);
      assert Leaving(arcs[..k], u) == set i | 0 <= i < |arcs[..k]| && arcs[..k][i].src == u;
      assert Leaving(arcs, u) == Leaving(arcs[..k], u) + (if arcs[k].src == u then {k} else {});
    }
  }

  ghost function TargetCounts(arcs: seq<Arc>): Node -> real {
    (u: Node) => |Targets(arcs, u)| as real
  }

  /** Over all nodes the out-degrees add up to the number of arcs. */
  lemma {:induction false} OutDegreesAddUp(nodes: set<Node>, arcs: seq<Arc>)
    requires forall r | r in arcs :: r.src in nodes
    ensures Sum(nodes, TargetCounts(arcs)) == |arcs| as real
  {
    hide Sum;
    if arcs == [] {
      SumConstant(nodes, 0.0, TargetCounts(arcs));
    } else {
      var k := |arcs| - 1;
      OutDegreesAddUp(nodes, arcs[..k]);
      assert arcs[k] in arcs;
      forall u | u in nodes
        ensures TargetCounts(arcs)(u) == TargetCounts(arcs[..k])(u) + Hit(arcs[k].src)(u)
      {
        assert |Targets(arcs, u)| == |Targets(arcs[..k], u)| + (if u == arcs[k].src then 1 else 0);
      }
      SumPlus(nodes, TargetCounts(arcs[..k]), Hit(arcs[k].src), TargetCounts(arcs));
      SumHit(nodes, arcs[k].src);
    }
  }

  /** The fraction of its rank that `u` passes on (1 for a dangling node, whose rank is spread evenly). */
  ghost function Kept(g: Graph, u: Node): real {
    if OutDegree(g, u) == 0 then 1.0 else |OutNbrs(g, u)| as real / OutDegree(g, u) as real
  }

  /** No ordered pair is linked twice. */
  ghost predicate NoParallel(arcs: seq<Arc>) {
    forall i, j | 0 <= i < j < |arcs| :: !(arcs[i].src == arcs[j].src && arcs[i].dst == arcs[j].dst)
  }

  lemma {:induction false} NoParallelTargets(arcs: seq<Arc>)
    ensures NoParallel(arcs) <==> forall u :: Distinct(Targets(arcs, u))
  {
    if arcs != [] {
      var k := |arcs| - 1;
      var init, last := arcs[..k], arcs[k];
      NoParallelTargets(init);
      ParallelSplit(arcs);
      TargetMember(init, last.src, last.dst);
      var was := Targets(init, last.src);
      assert Targets(arcs, last.src) == was + [last.dst];
      DistinctSnoc(was, last.dst);
      if NoParallel(arcs) {
        forall u ensures Distinct(Targets(arcs, u)) {
          assert Distinct(Targets(init, u));
          assert u != last.src ==> Targets(arcs, u) == Targets(init, u);
        }
      } else if NoParallel(init) {
        assert !Distinct(Targets(arcs, last.src));
      } else {
        var u :| !Distinct(Targets(init, u));
        assert !Distinct(Targets(arcs, u));
      }
    } else {
      forall u ensures Distinct(Targets(arcs, u)) {}
    }
  }

  lemma DistinctSnoc(q: seq<Node>, x: Node)
    ensures Distinct(q + [x]) <==> Distinct(q) && x !in q
  {
    var r := q + [x];
    if Distinct(r) {
      forall i, j | 0 <= i < j < |q| ensures q[i] != q[j] { assert r[i] != r[j]; }
      forall i | 0 <= i < |q| ensures q[i] != x { assert r[i] != r[|q|]; }
    }
  }

  lemma ParallelSplit(arcs: seq<Arc>)
    requires arcs != []
    ensures var k := |arcs| - 1;
            NoParallel(arcs) <==>
            NoParallel(arcs[..k]) && !exists r :: r in arcs[..k] && r.src == arcs[k].src && r.dst == arcs[k].dst
  {
    var k := |arcs| - 1;
    var init := arcs[..k];
    if NoParallel(arcs) {
      forall i, j | 0 <= i < j < k ensures !(init[i].src == init[j].src && init[i].dst == init[j].dst) {
        assert arcs[i] == init[i] && arcs[j] == init[j];
      }
      forall r | r in init ensures !(r.src == arcs[k].src && r.dst == arcs[k].dst) {
        var i :| 0 <= i < k && init[i] == r;
        assert arcs[i] == r;
      }
    } else {
      var i, j :| 0 <= i < j < |arcs| && arcs[i].src == arcs[j].src && arcs[i].dst == arcs[j].dst;
      assert arcs[i] == init[i] && arcs[i] in init;
      if j < k {
        assert arcs[j] == init[j];
      }
    }
  }

  lemma KeptRange(g: Graph, u: Node)
    ensures 0.0 <= Kept(g, u) <= 1.0
    ensures Kept(g, u) == 1.0 <==> Distinct(Targets(g.directed, u))
  {
    var q := Targets(g.directed, u);
    ElementsSize(q);
    var a, b := |OutNbrs(g, u)|, |q|;
    if b > 0 {
      assert a < b ==> a as real / b as real < 1.0;
    }
  }

  // ---------------------------------------------------------------- one iteration

  ghost function Danglers(g: Graph): set<Node> {
    set u | u in g.nodes && OutDegree(g, u) == 0
  }

  /** The damped value `x`, split `n` ways. */
  ghost function Portion(d: real, x: real, n: real): real
    requires n > 0.0
  {
    d * x / n
  }

  /** What `u` sends to `v` along its arcs. */
  ghost function Sent(g: Graph, d: real, x: Node -> real): (Node, Node) -> real {
    (u: Node, v: Node) => if v in OutNbrs(g, u) then Portion(d, x(u), OutDegree(g, u) as real) else 0.0
  }

  /** Everything `v` receives: its even part of the dangling mass, and the shares along arcs. */
  ghost function Flow(g: Graph, d: real, x: Node -> real): Node -> real
    requires g.nodes != {}
  {
    (v: Node) => Portion(d, Sum(Danglers(g), x), |g.nodes| as real) + Sum(g.nodes, Column(Sent(g, d, x), v))
  }

  ghost function Next(g: Graph, d: real, x: Node -> real): Node -> real
    requires g.nodes != {}
  {
    (v: Node) => (1.0 - d) / |g.nodes| as real + Flow(g, d, x)(v)
  }

  ghost function Uniform(g: Graph): Node -> real
    requires g.nodes != {}
  {
    (v: Node) => 1.0 / |g.nodes| as real
  }

  /** `k` iterations from `x`. */
  ghost function Iterate(g: Graph, d: real, x: Node -> real, k: nat): Node -> real
    requires g.nodes != {}
  {
    if k == 0 then x else Next(g, d, Iterate(g, d, x, k - 1))
  }

  // ---------------------------------------------------------------- mass

  ghost function KeptOf(g: Graph, x: Node -> real): Node -> real {
    (u: Node) => Times(Kept(g, u), x(u))
  }

  lemma ShareArithmetic(d: real, x: real, k: real, out: real, share: real)
    requires out > 0.0 && share == Portion(d, x, out)
    ensures Times(share, k) == Times(d, Times(k / out, x))
  {
    var q := x / out;
    assert share == d * q by { DivideProduct(d, x, out); }
    assert k / out * x == k * q by { DivideProduct(k, x, out); }
    assert d * q * k == d * (k * q);
  }

  /** Summed over the receivers, a node sends the kept fraction of its damped rank. */
  lemma SentTotal(g: Graph, d: real, x: Node -> real, u: Node)
    requires Valid(g)
    ensures OutDegree(g, u) > 0 ==> Sum(g.nodes, Row(Sent(g, d, x), u)) == Times(d, KeptOf(g, x)(u))
    ensures OutDegree(g, u) == 0 ==> Sum(g.nodes, Row(Sent(g, d, x), u)) == 0.0
  {
    hide Sum, Times, Targets;
    var row := Row(Sent(g, d, x), u);
    if OutDegree(g, u) > 0 {
      var share := Portion(d, x(u), OutDegree(g, u) as real);
      OutNbrsAreNodes(g, u);
      SumRestrict(g.nodes, OutNbrs(g, u), row, row);
      SumConstant(OutNbrs(g, u), share, row);
      Named(share, |OutNbrs(g, u)| as real);
      ShareArithmetic(d, x(u), |OutNbrs(g, u)| as real, OutDegree(g, u) as real, share);
    } else {
      NoTargets(g, u);
      SumConstant(g.nodes, 0.0, row);
    }
  }

  lemma NoTargets(g: Graph, u: Node)
    requires OutDegree(g, u) == 0
    ensures OutNbrs(g, u) == {}
  {}

  lemma Named(a: real, b: real)
    ensures a * b == Times(a, b)
  {}

  /** The part of `Kept` that travels along arcs. */
  ghost function Travelling(g: Graph, d: real, x: Node -> real): Node -> real {
    (u: Node) => if OutDegree(g, u) == 0 then 0.0 else Times(d, KeptOf(g, x)(u))
  }

  ghost function Resting(g: Graph, d: real, x: Node -> real): Node -> real {
    (u: Node) => if OutDegree(g, u) == 0 then Times(d, x(u)) else 0.0
  }

  ghost function DampedKept(g: Graph, d: real, x: Node -> real): Node -> real {
    (u: Node) => Times(d, KeptOf(g, x)(u))
  }

  /** All damped mass arrives, except what parallel arcs withhold. */
  lemma FlowTotal(g: Graph, d: real, x: Node -> real)
    requires Valid(g) && g.nodes != {}
    ensures Sum(g.nodes, Flow(g, d, x)) == Times(d, Sum(g.nodes, KeptOf(g, x)))
  {
    hide Sum, Times, OutDegree, Sent;
    var even := Portion(d, Sum(Danglers(g), x), |g.nodes| as real);
    var evenly := (v: Node) => even;
    var received := (v: Node) => Sum(g.nodes, Column(Sent(g, d, x), v));
    SumPlus(g.nodes, evenly, received, Flow(g, d, x));
    EvenTotal(g, d, x, evenly);
    TravelTotal(g, d, x, received);
    forall u | u in g.nodes ensures DampedKept(g, d, x)(u) == Travelling(g, d, x)(u) + Resting(g, d, x)(u) {
      RestingKept(g, x, u);
    }
    SumPlus(g.nodes, Travelling(g, d, x), Resting(g, d, x), DampedKept(g, d, x));
    SumTimes(g.nodes, d, KeptOf(g, x), DampedKept(g, d, x));
  }

  lemma RestingKept(g: Graph, x: Node -> real, u: Node)
    ensures OutDegree(g, u) == 0 ==> KeptOf(g, x)(u) == x(u)
  {
    assert Times(1.0, x(u)) == x(u);
  }

  lemma EvenTotal(g: Graph, d: real, x: Node -> real, evenly: Node -> real)
    requires g.nodes != {} && forall v :: evenly(v) == Portion(d, Sum(Danglers(g), x), |g.nodes| as real)
    ensures Sum(g.nodes, evenly) == Sum(g.nodes, Resting(g, d, x))
  {
    hide Sum, Times, OutDegree;
    var s := Sum(Danglers(g), x);
    SumConstant(g.nodes, Portion(d, s, |g.nodes| as real), evenly);
    SpreadEvenly(d * s, |g.nodes| as real);
    SumTimes(Danglers(g), d, x, Resting(g, d, x));
    Named(d, s);
    SumRestrict(g.nodes, Danglers(g), Resting(g, d, x), Resting(g, d, x));
  }

  lemma SpreadEvenly(a: real, n: real)
    requires n > 0.0
    ensures a / n * n == a
  {}

  lemma TravelTotal(g: Graph, d: real, x: Node -> real, received: Node -> real)
    requires Valid(g) && forall v :: received(v) == Sum(g.nodes, Column(Sent(g, d, x), v))
    ensures Sum(g.nodes, received) == Sum(g.nodes, Travelling(g, d, x))
  {
    hide Sum, Times, OutDegree, Sent;
    forall u | u in g.nodes ensures Travelling(g, d, x)(u) == Sum(g.nodes, Row(Sent(g, d, x), u)) {
      SentTotal(g, d, x, u);
    }
    SumSwap(g.nodes, g.nodes, Sent(g, d, x), Travelling(g, d, x), received);
  }

  ghost function Mass(g: Graph, x: Node -> real): real {
    Sum(g.nodes, x)
  }

  /** Total rank after one iteration. */
  lemma MassAfter(g: Graph, d: real, x: Node -> real)
    requires Valid(g) && g.nodes != {}
    ensures Mass(g, Next(g, d, x)) == 1.0 - d + Times(d, Sum(g.nodes, KeptOf(g, x)))
  {
    hide Sum, Times, Flow;
    var seed := (v: Node) => (1.0 - d) / |g.nodes| as real;
    var each := (1.0 - d) / |g.nodes| as real;
    SumPlus(g.nodes, seed, Flow(g, d, x), Next(g, d, x));
    SumConstant(g.nodes, each, seed);
    SpreadEvenly(1.0 - d, |g.nodes| as real);
    FlowTotal(g, d, x);
  }

  ghost predicate NonNegative(g: Graph, x: Node -> real) {
    forall u | u in g.nodes :: x(u) >= 0.0
  }

  lemma KeptBelow(g: Graph, x: Node -> real, u: Node)
    requires x(u) >= 0.0
    ensures 0.0 <= KeptOf(g, x)(u) <= x(u)
    ensures x(u) > 0.0 && Kept(g, u) < 1.0 ==> KeptOf(g, x)(u) < x(u)
    ensures Kept(g, u) == 1.0 ==> KeptOf(g, x)(u) == x(u)
  {
    KeptRange(g, u);
    hide Kept;
    ScaleDown(Kept(g, u), x(u));
  }

  lemma ScaleDown(k: real, x: real)
    requires 0.0 <= k <= 1.0 && x >= 0.0
    ensures 0.0 <= Times(k, x) <= x && (x > 0.0 && k < 1.0 ==> Times(k, x) < x) && (k == 1.0 ==> Times(k, x) == x)
  {
    ProductSign(k, x);
    ProductSign(1.0 - k, x);
    assert (1.0 - k) * x == x - k * x;
  }

  lemma KeptMass(g: Graph, x: Node -> real)
    requires NonNegative(g, x)
    ensures Sum(g.nodes, KeptOf(g, x)) <= Mass(g, x)
  {
    hide Sum, KeptOf;
    forall u | u in g.nodes ensures KeptOf(g, x)(u) <= x(u) { KeptBelow(g, x, u); }
    SumMonotone(g.nodes, KeptOf(g, x), x);
  }

  lemma DampedBound(d: real, m: real)
    requires 0.0 <= d <= 1.0 && m <= 1.0
    ensures 1.0 - d + Times(d, m) <= 1.0
    ensures d > 0.0 ==> (1.0 - d + Times(d, m) == 1.0 <==> m == 1.0)
  {
    ProductSign(d, 1.0 - m);
    assert d * (1.0 - m) == d - d * m;
  }

  /** An iteration never creates mass, and never restores what was lost. */
  lemma MassStep(g: Graph, d: real, x: Node -> real)
    requires Valid(g) && g.nodes != {} && 0.0 <= d <= 1.0 && NonNegative(g, x) && Mass(g, x) <= 1.0
    ensures Mass(g, Next(g, d, x)) <= 1.0
    ensures d > 0.0 ==> (Mass(g, Next(g, d, x)) == 1.0 <==> Sum(g.nodes, KeptOf(g, x)) == 1.0)
  {
    hide Sum, Next, KeptOf;
    MassAfter(g, d, x);
    KeptMass(g, x);
    DampedBound(d, Sum(g.nodes, KeptOf(g, x)));
  }

  lemma FlowNonNegative(g: Graph, d: real, x: Node -> real, v: Node)
    requires g.nodes != {} && d >= 0.0 && NonNegative(g, x)
    ensures Flow(g, d, x)(v) >= 0.0
  {
    hide Sum, Sent, OutDegree;
    var zero := (u: Node) => 0.0;
    SumConstant(Danglers(g), 0.0, zero);
    SumMonotone(Danglers(g), zero, x);
    SumConstant(g.nodes, 0.0, zero);
    forall u | u in g.nodes ensures zero(u) <= Column(Sent(g, d, x), v)(u) { SentNonNegative(g, d, x, u, v); }
    SumMonotone(g.nodes, zero, Column(Sent(g, d, x), v));
    QuotientNonNegative(d, Sum(Danglers(g), x), |g.nodes| as real);
  }

  lemma SentNonNegative(g: Graph, d: real, x: Node -> real, u: Node, v: Node)
    requires d >= 0.0 && x(u) >= 0.0
    ensures Sent(g, d, x)(u, v) >= 0.0
  {
    if v in OutNbrs(g, u) {
      assert OutDegree(g, u) > 0;
      QuotientNonNegative(d, x(u), OutDegree(g, u) as real);
    }
  }

  lemma QuotientNonNegative(d: real, x: real, n: real)
    requires d >= 0.0 && x >= 0.0 && n > 0.0
    ensures Portion(d, x, n) >= 0.0
  {
    DivideProduct(d, x, n);
  }

  /** Every node keeps at least its teleport share. */
  lemma NextLower(g: Graph, d: real, x: Node -> real, v: Node)
    requires g.nodes != {} && 0.0 <= d <= 1.0 && NonNegative(g, x)
    ensures Next(g, d, x)(v) >= (1.0 - d) / |g.nodes| as real >= 0.0
  {
    hide Flow;
    FlowNonNegative(g, d, x, v);
  }

  lemma UniformMass(g: Graph)
    requires g.nodes != {}
    ensures Mass(g, Uniform(g)) == 1.0 && forall u :: Uniform(g)(u) > 0.0
  {
    SumConstant(g.nodes, 1.0 / |g.nodes| as real, Uniform(g));
    SpreadEvenly(1.0, |g.nodes| as real);
  }

  /** Ranks after `k` iterations from the uniform start: bounded below, and total at most 1. */
  lemma {:induction false} RanksBounded(g: Graph, d: real, k: nat)
    requires Valid(g) && g.nodes != {} && 0.0 <= d <= 1.0
    ensures NonNegative(g, Iterate(g, d, Uniform(g), k)) && Mass(g, Iterate(g, d, Uniform(g), k)) <= 1.0
    ensures forall v :: Iterate(g, d, Uniform(g), k)(v) >= (1.0 - d) / |g.nodes| as real
    decreases k
  {
    hide Next, Mass;
    if k == 0 {
      UniformMass(g);
      UniformLower(g, d);
    } else {
      var x := Iterate(g, d, Uniform(g), k - 1);
      RanksBounded(g, d, k - 1);
      MassStep(g, d, x);
      forall v ensures Next(g, d, x)(v) >= (1.0 - d) / |g.nodes| as real >= 0.0 { NextLower(g, d, x, v); }
    }
  }

  lemma UniformLower(g: Graph, d: real)
    requires g.nodes != {} && 0.0 <= d <= 1.0
    ensures forall v :: Uniform(g)(v) >= (1.0 - d) / |g.nodes| as real
  {}

  lemma KeptAll(g: Graph, x: Node -> real)
    requires NoParallel(g.directed)
    ensures Sum(g.nodes, KeptOf(g, x)) == Mass(g, x)
  {
    hide Sum, KeptOf;
    NoParallelTargets(g.directed);
    forall u | u in g.nodes ensures KeptOf(g, x)(u) == x(u) {
      KeptRange(g, u);
      KeptWhole(g, x, u);
    }
    SumCongruent(g.nodes, KeptOf(g, x), x);
  }

  lemma KeptWhole(g: Graph, x: Node -> real, u: Node)
    requires Kept(g, u) == 1.0
    ensures KeptOf(g, x)(u) == x(u)
  {
    assert Times(1.0, x(u)) == x(u);
  }

  /** With a repeated arc some source passes on strictly less than it has. */
  lemma KeptLess(g: Graph, x: Node -> real)
    requires Valid(g) && !NoParallel(g.directed) && NonNegative(g, x) && forall u :: x(u) > 0.0
    ensures Sum(g.nodes, KeptOf(g, x)) < Mass(g, x)
  {
    hide Sum, KeptOf, Kept;
    NoParallelTargets(g.directed);
    var u :| !Distinct(Targets(g.directed, u));
    KeptRange(g, u);
    SourceIsNode(g, u);
    forall w | w in g.nodes ensures KeptOf(g, x)(w) <= x(w) { KeptBelow(g, x, w); }
    KeptBelow(g, x, u);
    SumStrict(g.nodes, KeptOf(g, x), x, u);
  }

  lemma SourceIsNode(g: Graph, u: Node)
    requires Valid(g) && !Distinct(Targets(g.directed, u))
    ensures u in g.nodes
  {
    var q := Targets(g.directed, u);
    TargetMember(g.directed, u, q[0]);
  }

  /** The mass after an iteration is whole exactly when nothing of the mass before it was withheld. */
  lemma MassRound(g: Graph, d: real, k: nat)
    requires Valid(g) && g.nodes != {} && 0.0 < d <= 1.0
    ensures var x := Iterate(g, d, Uniform(g), k);
            && (Mass(g, Iterate(g, d, Uniform(g), k + 1)) == 1.0 <==> Sum(g.nodes, KeptOf(g, x)) == 1.0)
            && Sum(g.nodes, KeptOf(g, x)) <= Mass(g, x) <= 1.0
            && (NoParallel(g.directed) ==> Sum(g.nodes, KeptOf(g, x)) == Mass(g, x))
  {
    hide Next, Mass, NoParallel, NonNegative, KeptOf, Sum, Uniform, Valid;
    var x := Iterate(g, d, Uniform(g), k);
    RanksBounded(g, d, k);
    MassStep(g, d, x);
    KeptMass(g, x);
    if NoParallel(g.directed) {
      KeptAll(g, x);
    }
  }

  lemma FirstRoundLoses(g: Graph)
    requires Valid(g) && g.nodes != {} && !NoParallel(g.directed)
    ensures Sum(g.nodes, KeptOf(g, Uniform(g))) < 1.0
  {
    UniformMass(g);
    hide Sum, KeptOf, NoParallel, Uniform;
    KeptLess(g, Uniform(g));
  }

  /** After any number of iterations the ranks add up to 1 exactly when no ordered pair is linked twice. */
  lemma {:induction false} MassConservedIffSimple(g: Graph, d: real, k: nat)
    requires Valid(g) && g.nodes != {} && 0.0 < d <= 1.0 && k > 0
    ensures Mass(g, Iterate(g, d, Uniform(g), k)) == 1.0 <==> NoParallel(g.directed)
    decreases k
  {
    hide Next, Mass, NoParallel, NonNegative, KeptOf, Sum, Uniform, Valid;
    MassRound(g, d, k - 1);
    if k > 1 {
      MassConservedIffSimple(g, d, k - 1);
    } else if NoParallel(g.directed) {
      UniformMass(g);
    } else {
      FirstRoundLoses(g);
    }
  }

  /** Two nodes, linked twice in the same direction by whatever relations. */
  ghost function DoubledArc(first: string, second: string): Graph {
    Graph({0, 1}, {Edge(0, 1)}, [Arc(0, 1, first), Arc(0, 1, second)])
  }

  /** The smallest loss: a quarter of the damped mass of a doubled arc is gone after one iteration. */
  lemma DoubledArcLosesMass(first: string, second: string, d: real)
    ensures var g := DoubledArc(first, second);
            && Valid(g) && !NoParallel(g.directed)
            && Mass(g, Iterate(g, d, Uniform(g), 1)) == 1.0 - d / 4.0
  {
    var g := DoubledArc(first, second);
    DoubledArcKept(first, second);
    var x := Uniform(g);
    assert Valid(g) && g.nodes == {0, 1};
    hide Next, Sum, Mass, Uniform, DoubledArc, Valid, KeptOf, Times;
    SumTwo(0, 1, KeptOf(g, x));
    MassAfter(g, d, x);
    assert Iterate(g, d, x, 0) == x;
    assert Iterate(g, d, x, 1) == Next(g, d, x);
    Quarter(d);
  }

  lemma Quarter(d: real)
    ensures 1.0 - d + Times(d, 0.75) == 1.0 - d / 4.0
  {}

  lemma SumTwo(a: Node, b: Node, f: Node -> real)
    requires a != b
    ensures Sum({a, b}, f) == f(a) + f(b)
  {
    SumOne(a, f);
    SumInsert({a}, f, b);
    assert {a} + {b} == {a, b};
  }

  lemma DoubledArcKept(first: string, second: string)
    ensures var g := DoubledArc(first, second);
            && !NoParallel(g.directed)
            && KeptOf(g, Uniform(g))(0) == 0.25 && KeptOf(g, Uniform(g))(1) == 0.5
  {
    var g := DoubledArc(first, second);
    var arcs := g.directed;
    assert arcs[..1] == [arcs[0]] && arcs[..1][..0] == [];
    assert Targets(arcs[..1], 0) == [1] && Targets(arcs[..1], 1) == [];
    assert Targets(arcs, 0) == [1, 1] && Targets(arcs, 1) == [];
    assert OutNbrs(g, 0) == {1};
    assert Kept(g, 0) == 0.5 && Kept(g, 1) == 1.0;
    assert |g.nodes| == 2;
    assert Uniform(g)(0) == 0.5 && Uniform(g)(1) == 0.5;
    assert Times(0.5, 0.5) == 0.25 && Times(1.0, 0.5) == 0.5;
    assert arcs[0].src == arcs[1].src && arcs[0].dst == arcs[1].dst;
  }

  // ---------------------------------------------------------------- contraction

  ghost function Gap(x: Node -> real, y: Node -> real): Node -> real {
    (v: Node) => Abs(x(v) - y(v))
  }

  ghost function Distance(g: Graph, x: Node -> real, y: Node -> real): real {
    Sum(g.nodes, Gap(x, y))
  }

  lemma QuotientGap(d: real, a: real, b: real, n: real, h: real)
    requires d >= 0.0 && n > 0.0 && Abs(a - b) <= h
    ensures Abs(Portion(d, a, n) - Portion(d, b, n)) <= Portion(d, h, n)
  {
    var c := d / n;
    DivideProduct(d, a, n);
    DivideProduct(d, b, n);
    DivideProduct(d, h, n);
    assert c >= 0.0;
    ScaledGap(c, a, b, h);
  }

  lemma ScaledGap(c: real, a: real, b: real, h: real)
    requires c >= 0.0 && Abs(a - b) <= h
    ensures Abs(c * a - c * b) <= c * h
  {
    assert c * a - c * b == c * (a - b);
  }

  /** The teleport term cancels, the rest is linear in the ranks. */
  lemma NextGap(g: Graph, d: real, x: Node -> real, y: Node -> real, v: Node)
    requires g.nodes != {} && d >= 0.0
    ensures Gap(Next(g, d, x), Next(g, d, y))(v) <= Flow(g, d, Gap(x, y))(v)
  {
    FlowGap(g, d, x, y, v);
    hide Flow, Gap;
    assert Next(g, d, x)(v) - Next(g, d, y)(v) == Flow(g, d, x)(v) - Flow(g, d, y)(v);
    GapIs(Next(g, d, x), Next(g, d, y), v);
  }

  lemma GapIs(x: Node -> real, y: Node -> real, v: Node)
    ensures Gap(x, y)(v) == Abs(x(v) - y(v)) >= 0.0
  {
    assert Gap(x, y)(v) == Abs(x(v) - y(v));
  }

  lemma FlowGap(g: Graph, d: real, x: Node -> real, y: Node -> real, v: Node)
    requires g.nodes != {} && d >= 0.0
    ensures Abs(Flow(g, d, x)(v) - Flow(g, d, y)(v)) <= Flow(g, d, Gap(x, y))(v)
  {
    hide Sum, Sent, OutDegree, Danglers, Portion;
    var n := |g.nodes| as real;
    var h := Gap(x, y);
    SumDistance(Danglers(g), x, y, h);
    QuotientGap(d, Sum(Danglers(g), x), Sum(Danglers(g), y), n, Sum(Danglers(g), h));
    forall u | u in g.nodes
      ensures Abs(Column(Sent(g, d, x), v)(u) - Column(Sent(g, d, y), v)(u)) <= Column(Sent(g, d, h), v)(u) {
      SentGap(g, d, x, y, u, v);
    }
    SumDistance(g.nodes, Column(Sent(g, d, x), v), Column(Sent(g, d, y), v), Column(Sent(g, d, h), v));
  }

  lemma SentGap(g: Graph, d: real, x: Node -> real, y: Node -> real, u: Node, v: Node)
    requires d >= 0.0
    ensures Abs(Sent(g, d, x)(u, v) - Sent(g, d, y)(u, v)) <= Sent(g, d, Gap(x, y))(u, v)
  {
    hide Portion;
    if v in OutNbrs(g, u) {
      assert OutDegree(g, u) > 0;
      GapIs(x, y, u);
      QuotientGap(d, x(u), y(u), OutDegree(g, u) as real, Gap(x, y)(u));
    }
  }

  lemma TimesMonotone(d: real, a: real, b: real)
    requires d >= 0.0 && a <= b
    ensures Times(d, a) <= Times(d, b)
  {
    ProductSign(d, b - a);
    assert d * (b - a) == d * b - d * a;
  }

  /** One iteration brings any two rank vectors closer by the damping factor. */
  lemma Contraction(g: Graph, d: real, x: Node -> real, y: Node -> real)
    requires Valid(g) && g.nodes != {} && d >= 0.0
    ensures Distance(g, Next(g, d, x), Next(g, d, y)) <= Times(d, Distance(g, x, y))
  {
    hide Sum, Next, Flow, Times, Gap;
    var h := Gap(x, y);
    forall v | v in g.nodes ensures Gap(Next(g, d, x), Next(g, d, y))(v) <= Flow(g, d, h)(v) { NextGap(g, d, x, y, v); }
    SumMonotone(g.nodes, Gap(Next(g, d, x), Next(g, d, y)), Flow(g, d, h));
    FlowTotal(g, d, h);
    forall u | u in g.nodes ensures h(u) >= 0.0 { GapIs(x, y, u); }
    KeptMass(g, h);
    TimesMonotone(d, Sum(g.nodes, KeptOf(g, h)), Sum(g.nodes, h));
  }

  ghost function Power(d: real, k: nat): real {
    if k == 0 then 1.0 else d * Power(d, k - 1)
  }

  ghost predicate Stationary(g: Graph, d: real, x: Node -> real)
    requires g.nodes != {}
  {
    forall v | v in g.nodes :: Next(g, d, x)(v) == x(v)
  }

  lemma PowerStep(d: real, k: nat, m: real)
    ensures Times(d, Times(Power(d, k), m)) == Times(Power(d, k + 1), m)
  {
    assert Power(d, k + 1) == d * Power(d, k);
  }

  lemma DistanceToSame(g: Graph, x: Node -> real, y: Node -> real, z: Node -> real)
    requires forall v | v in g.nodes :: y(v) == z(v)
    ensures Distance(g, x, y) == Distance(g, x, z)
  {
    SumCongruent(g.nodes, Gap(x, y), Gap(x, z));
  }

  /** After `k` iterations the distance to any stationary vector has shrunk by the k-th power of the damping factor. */
  lemma {:induction false} Converges(g: Graph, d: real, x: Node -> real, fixed: Node -> real, k: nat)
    requires Valid(g) && g.nodes != {} && d >= 0.0 && Stationary(g, d, fixed)
    ensures Distance(g, Iterate(g, d, x, k), fixed) <= Times(Power(d, k), Distance(g, x, fixed))
    decreases k
  {
    hide Next, Distance, Times, Power;
    if k == 0 {
      PowerZero(d, Distance(g, x, fixed));
    } else {
      var y := Iterate(g, d, x, k - 1);
      Converges(g, d, x, fixed, k - 1);
      Contraction(g, d, y, fixed);
      DistanceToSame(g, Next(g, d, y), Next(g, d, fixed), fixed);
      TimesMonotone(d, Distance(g, y, fixed), Times(Power(d, k - 1), Distance(g, x, fixed)));
      PowerStep(d, k - 1, Distance(g, x, fixed));
    }
  }

  lemma PowerZero(d: real, m: real)
    ensures Times(Power(d, 0), m) == m
  {}

  /** After `k` iterations any two starts have come closer by the k-th power of the damping factor. */
  lemma {:induction false} StartsConverge(g: Graph, d: real, x: Node -> real, y: Node -> real, k: nat)
    requires Valid(g) && g.nodes != {} && d >= 0.0
    ensures Distance(g, Iterate(g, d, x, k), Iterate(g, d, y, k)) <= Times(Power(d, k), Distance(g, x, y))
    decreases k
  {
    hide Next, Distance, Times, Power;
    if k == 0 {
      PowerZero(d, Distance(g, x, y));
    } else {
      var u, w := Iterate(g, d, x, k - 1), Iterate(g, d, y, k - 1);
      StartsConverge(g, d, x, y, k - 1);
      Contraction(g, d, u, w);
      TimesMonotone(d, Distance(g, u, w), Times(Power(d, k - 1), Distance(g, x, y)));
      PowerStep(d, k - 1, Distance(g, x, y));
    }
  }

  /** Below damping 1 there is at most one stationary vector. */
  lemma StationaryUnique(g: Graph, d: real, x: Node -> real, y: Node -> real, v: Node)
    requires Valid(g) && g.nodes != {} && 0.0 <= d < 1.0 && v in g.nodes
    requires Stationary(g, d, x) && Stationary(g, d, y)
    ensures x(v) == y(v)
  {
    StationaryDistance(g, d, x, y);
    Contraction(g, d, x, y);
    hide Next, Distance, Times, Stationary;
    DistanceAbove(g, x, y, v);
    NoShrinking(d, Distance(g, x, y));
  }

  lemma StationaryDistance(g: Graph, d: real, x: Node -> real, y: Node -> real)
    requires g.nodes != {} && Stationary(g, d, x) && Stationary(g, d, y)
    ensures Distance(g, Next(g, d, x), Next(g, d, y)) == Distance(g, x, y)
  {
    hide Next, Sum, Gap;
    var nx, ny := Next(g, d, x), Next(g, d, y);
    forall u | u in g.nodes ensures Gap(nx, ny)(u) == Gap(x, y)(u) {
      GapIs(x, y, u);
      GapIs(nx, ny, u);
    }
    SumCongruent(g.nodes, Gap(nx, ny), Gap(x, y));
  }

  lemma NoShrinking(d: real, m: real)
    requires 0.0 <= d < 1.0 && 0.0 <= m <= Times(d, m)
    ensures m == 0.0
  {
    ProductSign(1.0 - d, m);
    assert (1.0 - d) * m == m - d * m;
  }

  lemma DistanceAbove(g: Graph, x: Node -> real, y: Node -> real, v: Node)
    requires v in g.nodes
    ensures 0.0 <= Abs(x(v) - y(v)) <= Distance(g, x, y)
  {
    hide Sum, Gap;
    SumRemove(g.nodes, Gap(x, y), v);
    SumConstant(g.nodes - {v}, 0.0, Zero());
    forall u | u in g.nodes - {v} ensures Zero()(u) <= Gap(x, y)(u) { GapIs(x, y, u); }
    SumMonotone(g.nodes - {v}, Zero(), Gap(x, y));
    GapIs(x, y, v);
  }

  ghost function Zero(): Node -> real {
    (v: Node) => 0.0
  }

  lemma {:induction false} IterateSplit(g: Graph, d: real, x: Node -> real, m: nat, k: nat)
    requires g.nodes != {}
    ensures Iterate(g, d, x, m + k) == Iterate(g, d, Iterate(g, d, x, m), k)
    decreases k
  {
    hide Next;
    if k > 0 {
      IterateSplit(g, d, x, m, k - 1);
    }
  }

  /** Vectors of mass at most 1 lie within 2 of each other. */
  lemma DistanceOfMasses(g: Graph, x: Node -> real, y: Node -> real)
    requires NonNegative(g, x) && NonNegative(g, y) && Mass(g, x) <= 1.0 && Mass(g, y) <= 1.0
    ensures Distance(g, x, y) <= 2.0
  {
    hide Sum, Gap;
    var both := (v: Node) => x(v) + y(v);
    forall v | v in g.nodes ensures Gap(x, y)(v) <= both(v) { GapIs(x, y, v); }
    SumMonotone(g.nodes, Gap(x, y), both);
    SumPlus(g.nodes, x, y, both);
  }

  /** The computed ranks form a Cauchy sequence: however long the iteration went on, it would move
      the ranks after `k` iterations by at most 2 d^k in total. */
  lemma RanksSettle(g: Graph, d: real, k: nat, m: nat)
    requires Valid(g) && g.nodes != {} && 0.0 <= d <= 1.0
    ensures Distance(g, Iterate(g, d, Uniform(g), m + k), Iterate(g, d, Uniform(g), k)) <= Times(Power(d, k), 2.0)
  {
    hide Next, Distance, Times, Power, Uniform, Mass, NonNegative;
    var start, later := Uniform(g), Iterate(g, d, Uniform(g), m);
    IterateSplit(g, d, start, m, k);
    StartsConverge(g, d, later, start, k);
    RanksBounded(g, d, m);
    RanksBounded(g, d, 0);
    DistanceOfMasses(g, later, start);
    PowerNonNegative(d, k);
    TimesMonotone(Power(d, k), Distance(g, later, start), 2.0);
  }

  lemma {:induction false} PowerNonNegative(d: real, k: nat)
    requires d >= 0.0
    ensures Power(d, k) >= 0.0
  {
    if k > 0 {
      PowerNonNegative(d, k - 1);
      ProductSign(d, Power(d, k - 1));
    }
  }
}
