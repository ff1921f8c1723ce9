/** Missing-link hypotheses: candidate actor pairs at distance two, scored, ranked and truncated. */
module Hypotheses {
  import opened Graphs
  import opened Ordering
  import opened Pairs
  import opened Sums
  import opened Greedy
  import opened Communities
  import opened SecondDegree

  datatype Draft = Draft(a: Node, b: Node, shared: set<Node>, score: real)

  predicate IsActor(types: map<Node, string>, n: Node) {
    n in types && (types[n] == "person" || types[n] == "organization")
  }

  function Actors(g: Graph, types: map<Node, string>): set<Node> {
    set n | n in g.nodes && IsActor(types, n)
  }

  /** Pairs of persons or organizations at distance exactly two. */
  ghost predicate Candidate(g: Graph, types: map<Node, string>, a: Node, b: Node) {
    && a < b && TwoApart(g, a, b)
    && a in g.nodes && a in types && (types[a] == "person" || types[a] == "organization")
    && b in g.nodes && b in types && (types[b] == "person" || types[b] == "organization")
  }

  lemma CandidateActors(g: Graph, types: map<Node, string>, a: Node, b: Node)
    ensures Candidate(g, types, a, b) <==>
            a < b && a in Actors(g, types) && b in Actors(g, types) && TwoApart(g, a, b)
  {
    hide TwoApart;
  }

  /** Index of the reported community that holds `x`; every node has one. */
  function Label(cs: seq<Community>, x: Node): nat {
    if cs == [] || x in cs[0].members then 0 else 1 + Label(cs[1..], x)
  }

  /** One reported community holds both nodes. */
  ghost predicate Together(cs: seq<Community>, a: Node, b: Node) {
    exists c :: c in cs && a in c.members && b in c.members
  }

  /** The label of a node is the first community that holds it. */
  lemma {:induction false} LabelFinds(cs: seq<Community>, x: Node, i: int)
    requires 0 <= i < |cs| && x in cs[i].members
    ensures Label(cs, x) <= i && x in cs[Label(cs, x)].members
  {
    if x !in cs[0].members {
      LabelFinds(cs[1..], x, i - 1);
    }
  }

  /** Since the reported communities partition the nodes, equal labels mean a common community. */
  lemma SameLabelIffTogether(g: Graph, theta: real, cs: seq<Community>, a: Node, b: Node)
    requires Outcome(g, theta, cs) && a in g.nodes && b in g.nodes
    ensures Label(cs, a) == Label(cs, b) <==> Together(cs, a, b)
  {
    var i :| Reported(cs, i, a);
    var j :| Reported(cs, j, b);
    LabelFinds(cs, a, i);
    LabelFinds(cs, b, j);
    if c :| c in cs && a in c.members && b in c.members {
      var k :| 0 <= k < |cs| && cs[k] == c;
      var p, q := Label(cs, a), Label(cs, b);
      assert PairAt(g, theta, cs, p, k) && PairAt(g, theta, cs, k, p);
      assert PairAt(g, theta, cs, q, k) && PairAt(g, theta, cs, k, q);
    }
  }

  /** 0.55 for the relative number of shared neighbours, 0.30 for a common community, 0.15 base. */
  function Score(shared: nat, maxShared: nat, same: bool): real
    requires maxShared > 0
  {
    0.55 * (shared as real / maxShared as real) + 0.30 * (if same then 1.0 else 0.0) + 0.15
  }

  // ---------------------------------------------------------------- candidate pairs

  datatype Pair = Pair(a: Node, b: Node, shared: set<Node>)

  ghost predicate Listed(g: Graph, p: Pair) {
    p.shared == Nbrs(g, p.a) * Nbrs(g, p.b) && p.shared != {} && p.b !in Nbrs(g, p.a)
  }

  /** `pairs` holds every candidate with first actor in `done`, or first actor `a` and second in `seen`. */
  ghost predicate Gathered(g: Graph, actors: set<Node>, done: set<Node>, a: Node, seen: set<Node>, pairs: seq<Pair>) {
    && (forall p | p in pairs :: p.a < p.b && p.a in actors && p.b in actors && Listed(g, p))
    && (forall p | p in pairs :: p.a in done || (p.a == a && p.b in seen))
    && (forall x, y | x in actors && y in actors && x < y && Linked(g, x, y) && (x in done || (x == a && y in seen)) ::
          Pair(x, y, Nbrs(g, x) * Nbrs(g, y)) in pairs)
  }

  ghost predicate Precedes(a: Node, b: Node, a': Node, b': Node) {
    a < a' || (a == a' && b < b')
  }

  /** The pairs come in increasing order, so none comes twice. */
  ghost predicate InOrder(pairs: seq<Pair>) {
    forall i, j | 0 <= i < j < |pairs| :: Precedes(pairs[i].a, pairs[i].b, pairs[j].a, pairs[j].b)
  }

  /** All pairs come before `(a, b)`. */
  ghost predicate Below(pairs: seq<Pair>, a: Node, b: Node) {
    forall p | p in pairs :: Precedes(p.a, p.b, a, b)
  }

  lemma AppendInOrder(pairs: seq<Pair>, p: Pair, b: Node)
    requires InOrder(pairs) && Below(pairs, p.a, p.b) && p.b < b
    ensures InOrder(pairs + [p]) && Below(pairs + [p], p.a, b)
  {}

  lemma BelowLater(pairs: seq<Pair>, a: Node, b: Node, a': Node, b': Node)
    requires Below(pairs, a, b) && (Precedes(a, b, a', b') || (a == a' && b == b'))
    ensures Below(pairs, a', b')
  {}

  /** No edge, but a common neighbour. */
  ghost predicate Linked(g: Graph, x: Node, y: Node) {
    y !in Nbrs(g, x) && Nbrs(g, x) * Nbrs(g, y) != {}
  }

  lemma GatherPair(g: Graph, actors: set<Node>, done: set<Node>, a: Node, seen: set<Node>, pairs: seq<Pair>, b: Node)
    requires Gathered(g, actors, done, a, seen, pairs) && a in actors && b in actors && a < b
    requires a !in done && b !in seen
    ensures var more := if Linked(g, a, b) then pairs + [Pair(a, b, Nbrs(g, a) * Nbrs(g, b))] else pairs;
            Gathered(g, actors, done, a, seen + {b}, more)
  {
    hide Nbrs;
  }

  /** Moving on to the next first actor. */
  lemma GatherNext(g: Graph, actors: set<Node>, done: set<Node>, a: Node, seen: set<Node>, pairs: seq<Pair>, a': Node)
    requires Gathered(g, actors, done, a, seen, pairs) && forall y | y in actors && a < y :: y in seen
    ensures Gathered(g, actors, done + {a}, a', {}, pairs)
  {
    hide Nbrs;
  }

  /** The candidates whose first actor is `actors[i]`. */
  method Partners(g: Graph, adj: map<Node, set<Node>>, actors: seq<Node>, i: nat,
                  ghost all: set<Node>, ghost done: set<Node>, found: seq<Pair>)
    returns (pairs: seq<Pair>)
    requires Valid(g) && IsAdjacency(g, adj) && i < |actors| && Increasing(actors)
    requires (forall x :: x in actors <==> x in all) && actors[i] !in done
    requires Gathered(g, all, done, actors[i], {}, found) && InOrder(found) && Below(found, actors[i], 0)
    ensures Gathered(g, all, done + {actors[i]}, 0, {}, pairs)
    ensures InOrder(pairs) && Below(pairs, actors[i] + 1, 0)
  {
    hide Gathered, Nbrs, IsAdjacency, Valid, InOrder, Below;
    ghost var bound := 0;
    pairs := found;
    var a := actors[i];
    ghost var seen: set<Node> := {};
    GetNbrs(g, adj, a);
    for j := i + 1 to |actors|
      invariant forall x | x in seen :: x < a || exists k :: i < k < j && actors[k] == x
      invariant forall k | i < k < j :: actors[k] in seen
      invariant Gathered(g, all, done, a, seen, pairs)
      invariant InOrder(pairs) && Below(pairs, a, bound) && forall k | j <= k < |actors| :: bound <= actors[k]
    {
      var b := actors[j];
      BelowLater(pairs, a, bound, a, b);
      BelowLater(pairs, a, b, a, b + 1);
      assert b !in seen;
      GetNbrs(g, adj, b);
      GatherPair(g, all, done, a, seen, pairs, b);
      if b !in Get(adj, a) {
        var sharedNeighbors := Get(adj, a) * Get(adj, b);
        if sharedNeighbors != {} {
          AppendInOrder(pairs, Pair(a, b, sharedNeighbors), b + 1);
          pairs := pairs + [Pair(a, b, sharedNeighbors)];
        }
      }
      seen := seen + {b};
      bound := b + 1;
    }
    BelowLater(pairs, a, bound, a + 1, 0);
    forall y | y in all && a < y ensures y in seen {
      var k :| 0 <= k < |actors| && actors[k] == y;
    }
    GatherNext(g, all, done, a, seen, pairs, 0);
  }

  method CandidatePairs(g: Graph, types: map<Node, string>, adj: map<Node, set<Node>>) returns (pairs: seq<Pair>)
    requires Valid(g) && IsAdjacency(g, adj)
    ensures Gathered(g, Actors(g, types), Actors(g, types), 0, {}, pairs) && InOrder(pairs)
  {
    hide Gathered, Nbrs, Sorted, IsAdjacency, Valid, Below;
    pairs := [];
    ghost var bound := 0;
    assert Below(pairs, 0, 0) by { BelowNone(); }
    ghost var all := Actors(g, types);
    var actors := Sorted(Actors(g, types));
    ghost var done: set<Node> := {};
    GatherStart(g, all);
    for i := 0 to |actors|
      invariant forall x :: x in done <==> x in actors[..i]
      invariant Gathered(g, all, done, 0, {}, pairs)
      invariant InOrder(pairs) && Below(pairs, bound, 0) && forall k | i <= k < |actors| :: bound <= actors[k]
    {
      BelowLater(pairs, bound, 0, actors[i], 0);
      GatherTurn(g, all, done, actors[i], pairs);
      pairs := Partners(g, adj, actors, i, all, done, pairs);
      done := done + {actors[i]};
      bound := actors[i] + 1;
    }
    assert actors[..|actors|] == actors;
    assert done == all;
  }

  lemma BelowNone()
    ensures Below([], 0, 0)
  {}

  lemma GatherStart(g: Graph, actors: set<Node>)
    ensures Gathered(g, actors, {}, 0, {}, [])
  {}

  /** With nothing seen yet the first actor in hand does not matter. */
  lemma GatherTurn(g: Graph, actors: set<Node>, done: set<Node>, a: Node, pairs: seq<Pair>)
    requires Gathered(g, actors, done, 0, {}, pairs)
    ensures Gathered(g, actors, done, a, {}, pairs)
  {
    hide Nbrs;
  }

  // ---------------------------------------------------------------- the gathered pairs are the candidates

  lemma PairIsCandidate(g: Graph, types: map<Node, string>, pairs: seq<Pair>, p: Pair)
    requires Valid(g) && Gathered(g, Actors(g, types), Actors(g, types), 0, {}, pairs) && p in pairs
    ensures Candidate(g, types, p.a, p.b) && p.shared == Nbrs(g, p.a) * Nbrs(g, p.b) && p.shared != {}
  {
    CandidateActors(g, types, p.a, p.b);
    hide TwoApart, Candidate, Actors;
    SharedNeighbour(g, p.a, p.b);
  }

  lemma CandidateIsListed(g: Graph, types: map<Node, string>, pairs: seq<Pair>, a: Node, b: Node)
    requires Valid(g) && Gathered(g, Actors(g, types), Actors(g, types), 0, {}, pairs) && Candidate(g, types, a, b)
    ensures Pair(a, b, Nbrs(g, a) * Nbrs(g, b)) in pairs
  {
    CandidateActors(g, types, a, b);
    CandidateNodes(g, types, a, b);
    hide TwoApart, Candidate, Actors;
    SharedNeighbour(g, a, b);
    assert Linked(g, a, b);
  }

  // ---------------------------------------------------------------- scoring and ranking

  function MaxShared(pairs: seq<Pair>): nat {
    if pairs == [] then 0
    else
      var rest, first := MaxShared(pairs[1..]), |pairs[0].shared|;
      if first > rest then first else rest
  }

  lemma {:induction false} MaxSharedIsMax(pairs: seq<Pair>)
    ensures forall p | p in pairs :: |p.shared| <= MaxShared(pairs)
    ensures pairs != [] ==> exists p :: p in pairs && |p.shared| == MaxShared(pairs)
  {
    if pairs != [] {
      MaxSharedIsMax(pairs[1..]);
      assert pairs[0] in pairs;
      if pairs[1..] != [] {
        var p :| p in pairs[1..] && |p.shared| == MaxShared(pairs[1..]);
        assert p in pairs;
      }
    }
  }

  function Describe(p: Pair, maxShared: nat, cs: seq<Community>): Draft
    requires maxShared > 0
  {
    Draft(p.a, p.b, p.shared, Score(|p.shared|, maxShared, Label(cs, p.a) == Label(cs, p.b)))
  }

  /** Higher score first, ties by the first actor. */
  function DraftKey(d: Draft): (real, nat) {
    (d.score, d.a)
  }

  lemma ScoreRange(shared: nat, maxShared: nat, same: bool)
    requires 0 < shared <= maxShared
    ensures 0.15 < Score(shared, maxShared, same) <= 1.0
  {
    var x := shared as real / maxShared as real;
    assert 0.0 < x <= 1.0;
  }

  lemma ScoreIs(shared: nat, maxShared: nat, same: bool)
    requires maxShared > 0
    ensures Score(shared, maxShared, same) ==
            0.55 * (shared as real / maxShared as real) + (if same then 0.30 else 0.0) + 0.15
  {}

  /** All drafts, before ranking: one per candidate, in order, with its score in range. */
  ghost predicate AllDrafts(g: Graph, types: map<Node, string>, maxShared: nat, cs: seq<Community>, all: seq<Draft>) {
    && (forall d | d in all ::
          && Candidate(g, types, d.a, d.b) && d.shared == Nbrs(g, d.a) * Nbrs(g, d.b)
          && 0 < |d.shared| <= maxShared && 0.15 < d.score <= 1.0
          && d.score == 0.55 * (|d.shared| as real / maxShared as real)
                        + (if Together(cs, d.a, d.b) then 0.30 else 0.0) + 0.15)
    && (forall a, b | Candidate(g, types, a, b) :: exists d :: d in all && d.a == a && d.b == b)
    && DraftsInOrder(all)
  }

  ghost predicate DraftsInOrder(all: seq<Draft>) {
    forall i, j | 0 <= i < j < |all| :: Precedes(all[i].a, all[i].b, all[j].a, all[j].b)
  }

  /** Higher score first, ties by first actor, further ties by second actor. */
  ghost predicate Outranks(d: Draft, e: Draft) {
    d.score > e.score || (d.score == e.score && Precedes(d.a, d.b, e.a, e.b))
  }

  /** `kept` is the ranked list of the best `limit` drafts: every dropped draft is outranked by all of them. */
  ghost predicate TopOf(all: seq<Draft>, limit: int, kept: seq<Draft>) {
    && |kept| == (if |all| <= limit then |all| else limit)
    && (forall d | d in kept :: d in all)
    && (forall i, j | 0 <= i < j < |kept| :: Outranks(kept[i], kept[j]))
    && (forall d, k | d in all && d !in kept && k in kept :: Outranks(k, d))
  }

  /** The sort is stable and the drafts come in order, so equal score and first actor leave the
      second actor to decide. */
  lemma SortedOutranks(all: seq<Draft>)
    requires DraftsInOrder(all)
    ensures var sorted := SortBy(all, DraftKey);
            forall i, j | 0 <= i < j < |sorted| :: Outranks(sorted[i], sorted[j])
  {
    var before := (d: Draft, e: Draft) => Precedes(d.a, d.b, e.a, e.b);
    SortStable(all, DraftKey, before);
    var sorted := SortBy(all, DraftKey);
    hide SortBy;
    forall i, j | 0 <= i < j < |sorted| ensures Outranks(sorted[i], sorted[j]) {
      assert Ranked(DraftKey(sorted[i]), DraftKey(sorted[j]));
      if DraftKey(sorted[i]) == DraftKey(sorted[j]) {
        assert before(sorted[i], sorted[j]);
      }
    }
  }

  lemma TruncationKeepsBest(all: seq<Draft>, limit: int)
    requires limit > 0 && DraftsInOrder(all)
    ensures var sorted := SortBy(all, DraftKey);
            TopOf(all, limit, if |sorted| <= limit then sorted else sorted[..limit])
  {
    SortedOutranks(all);
    SortedMembers(all, DraftKey);
    hide *;
    BestAreFirst(all, SortBy(all, DraftKey), limit);
  }

  lemma BestAreFirst(all: seq<Draft>, sorted: seq<Draft>, limit: int)
    requires limit > 0 && |sorted| == |all| && forall d :: d in all <==> d in sorted
    requires forall i, j | 0 <= i < j < |sorted| :: Outranks(sorted[i], sorted[j])
    ensures TopOf(all, limit, if |sorted| <= limit then sorted else sorted[..limit])
  {
    hide Outranks;
    var kept := if |sorted| <= limit then sorted else sorted[..limit];
    assert forall j | 0 <= j < |kept| :: kept[j] == sorted[j] && sorted[j] in kept;
    forall d | d in kept ensures d in all {
      assert d in sorted;
    }
    forall d, k | d in all && d !in kept && k in kept ensures Outranks(k, d) {
      var j :| 0 <= j < |sorted| && sorted[j] == d;
      var i :| 0 <= i < |kept| && kept[i] == k;
      assert sorted[i] == k;
    }
  }

  /** Only one list is the ranked best selection. */
  lemma TopIsUnique(all: seq<Draft>, limit: int, kept: seq<Draft>, other: seq<Draft>)
    requires TopOf(all, limit, kept) && TopOf(all, limit, other)
    ensures kept == other
  {
    if kept != other {
      var i := FirstDifference(kept, other, 0);
      NotLater(all, limit, kept, other, i);
      NotLater(all, limit, other, kept, i);
    }
  }

  /** Where two selections first differ, the draft of either would outrank the other's. */
  lemma NotLater(all: seq<Draft>, limit: int, kept: seq<Draft>, other: seq<Draft>, i: nat)
    requires TopOf(all, limit, kept) && TopOf(all, limit, other) && i < |kept|
    requires kept[..i] == other[..i] && kept[i] != other[i]
    ensures Outranks(kept[i], other[i])
  {
    var d := other[i];
    forall j | 0 <= j < i ensures kept[j] == other[j] {
      assert kept[j] == kept[..i][j] && other[j] == other[..i][j];
    }
    if d in kept {
      var j :| 0 <= j < |kept| && kept[j] == d;
      if j < i {
        assert false;
      }
    }
  }

  lemma {:induction false} FirstDifference(q: seq<Draft>, r: seq<Draft>, from: nat) returns (i: nat)
    requires |q| == |r| && from <= |q| && q != r && q[..from] == r[..from]
    ensures i < |q| && q[..i] == r[..i] && q[i] != r[i]
    decreases |q| - from
  {
    assert q == q[..|q|] && r == r[..|r|];
    if q[from] != r[from] {
      i := from;
    } else {
      assert q[..from + 1] == q[..from] + [q[from]] && r[..from + 1] == r[..from] + [r[from]];
      i := FirstDifference(q, r, from + 1);
    }
  }

  lemma DraftsHold(g: Graph, types: map<Node, string>, pairs: seq<Pair>, maxShared: nat, cs: seq<Community>,
                   all: seq<Draft>)
    requires Valid(g) && Gathered(g, Actors(g, types), Actors(g, types), 0, {}, pairs) && InOrder(pairs)
    requires forall a, b | a in g.nodes && b in g.nodes :: Label(cs, a) == Label(cs, b) <==> Together(cs, a, b)
    requires pairs != [] && maxShared == MaxShared(pairs) && maxShared > 0
    requires |all| == |pairs| && forall i | 0 <= i < |all| :: all[i] == Describe(pairs[i], maxShared, cs)
    ensures AllDrafts(g, types, maxShared, cs, all)
  {
    hide Candidate, Label, Together, MaxShared, Score, Nbrs, Gathered;
    MaxSharedIsMax(pairs);
    forall d | d in all
      ensures Candidate(g, types, d.a, d.b) && d.shared == Nbrs(g, d.a) * Nbrs(g, d.b)
      ensures 0 < |d.shared| <= maxShared && 0.15 < d.score <= 1.0
      ensures d.score == 0.55 * (|d.shared| as real / maxShared as real)
                         + (if Together(cs, d.a, d.b) then 0.30 else 0.0) + 0.15
    {
      var i :| 0 <= i < |all| && all[i] == d;
      assert pairs[i] in pairs;
      PairIsCandidate(g, types, pairs, pairs[i]);
      CandidateNodes(g, types, d.a, d.b);
      ScoreRange(|d.shared|, maxShared, Label(cs, d.a) == Label(cs, d.b));
      ScoreIs(|d.shared|, maxShared, Label(cs, d.a) == Label(cs, d.b));
    }
    forall a, b | Candidate(g, types, a, b) ensures exists d :: d in all && d.a == a && d.b == b {
      CandidateIsListed(g, types, pairs, a, b);
      var i :| 0 <= i < |pairs| && pairs[i] == Pair(a, b, Nbrs(g, a) * Nbrs(g, b));
      assert all[i] in all;
    }
    assert DraftsInOrder(all) by {
      forall i, j | 0 <= i < j < |all| ensures Precedes(all[i].a, all[i].b, all[j].a, all[j].b) {
        assert Precedes(pairs[i].a, pairs[i].b, pairs[j].a, pairs[j].b);
      }
    }
  }

  lemma CandidateNodes(g: Graph, types: map<Node, string>, a: Node, b: Node)
    requires Candidate(g, types, a, b)
    ensures a in g.nodes && b in g.nodes && a != b
  {}

  lemma {:induction false} InOrderUnique(q: seq<Draft>, r: seq<Draft>)
    requires DraftsInOrder(q) && DraftsInOrder(r) && forall d :: d in q <==> d in r
    ensures q == r
  {
    assert (q != [] ==> q[0] in q) && (r != [] ==> r[0] in r);
    if q != [] {
      var k :| 0 <= k < |r| && r[k] == q[0];
      var m :| 0 <= m < |q| && q[m] == r[0];
      assert q[0] == r[0];
      forall d ensures d in q[1..] <==> d in r[1..] {
        assert d in q <==> d == q[0] || d in q[1..];
        assert d in r <==> d == r[0] || d in r[1..];
      }
      InOrderUnique(q[1..], r[1..]);
    }
  }

  /** The drafts, and the order they are ranked from, are determined by the graph and its communities. */
  lemma DraftsUnique(g: Graph, types: map<Node, string>, maxShared: nat, cs: seq<Community>, all: seq<Draft>,
                     other: seq<Draft>)
    requires AllDrafts(g, types, maxShared, cs, all) && AllDrafts(g, types, maxShared, cs, other)
    ensures all == other
  {
    hide Candidate, Together, Nbrs, DraftsInOrder;
    forall d ensures d in all <==> d in other {
      if d in all {
        var e :| e in other && e.a == d.a && e.b == d.b;
        assert e == d;
      }
      if d in other {
        var e :| e in all && e.a == d.a && e.b == d.b;
        assert e == d;
      }
    }
    InOrderUnique(all, other);
  }

  /** How two drafts compare. Shared neighbours weigh 0.55 relative to the maximum and a common
      community weighs 0.30, so a draft with the maximal count across communities outscores one inside
      a community exactly when the latter has less than 5/11 of the maximal count. */
  lemma ScoresCompare(g: Graph, types: map<Node, string>, maxShared: nat, cs: seq<Community>, all: seq<Draft>,
                      d: Draft, e: Draft)
    requires AllDrafts(g, types, maxShared, cs, all) && d in all && e in all
    ensures (Together(cs, d.a, d.b) <==> Together(cs, e.a, e.b)) ==>
              d.score - e.score == 0.55 * ((|d.shared| - |e.shared|) as real / maxShared as real)
    ensures |d.shared| == |e.shared| && Together(cs, d.a, d.b) && !Together(cs, e.a, e.b) ==>
              d.score == e.score + 0.30
    ensures |d.shared| == maxShared && Together(cs, d.a, d.b) ==> d.score == 1.0
    ensures |d.shared| == maxShared && !Together(cs, d.a, d.b) && Together(cs, e.a, e.b) ==>
              (d.score > e.score <==> 11 * |e.shared| < 5 * maxShared)
  {
    ScoreOf(g, types, maxShared, cs, all, d);
    ScoreOf(g, types, maxShared, cs, all, e);
    hide AllDrafts, Together;
    QuotientDifference(|d.shared|, |e.shared|, maxShared);
    QuotientBelow(|e.shared|, maxShared);
    hide *;
  }

  lemma ScoreOf(g: Graph, types: map<Node, string>, maxShared: nat, cs: seq<Community>, all: seq<Draft>, d: Draft)
    requires AllDrafts(g, types, maxShared, cs, all) && d in all
    ensures maxShared > 0
    ensures d.score == 0.55 * Part(|d.shared|, maxShared) + (if Together(cs, d.a, d.b) then 0.30 else 0.0) + 0.15
  {
    hide Candidate, Together, Nbrs, DraftsInOrder;
  }

  ghost function Part(x: nat, m: nat): real
    requires m > 0
  {
    x as real / m as real
  }

  lemma QuotientDifference(x: nat, y: nat, m: nat)
    requires m > 0
    ensures 0.55 * Part(x, m) - 0.55 * Part(y, m) == 0.55 * ((x - y) as real / m as real)
    ensures x == m ==> Part(x, m) == 1.0
    ensures x == y ==> Part(x, m) == Part(y, m)
  {
    if x == m {
      WholePart(m as real);
    }
  }

  lemma WholePart(r: real)
    requires r > 0.0
    ensures r / r == 1.0
  {}

  lemma QuotientBelow(s: nat, m: nat)
    requires m > 0
    ensures 0.55 * Part(s, m) < 0.25 <==> 11 * s < 5 * m
  {
    var c := 5.0 / 11.0;
    QuotientCompare(s as real, m as real, c);
    hide Part;
    assert 11.0 * c == 5.0;
    assert 11 * s < 5 * m <==> 11.0 * s as real < 5.0 * m as real;
    Elevenths(c, s as real, m as real);
  }

  lemma Elevenths(c: real, x: real, m: real)
    requires 11.0 * c == 5.0
    ensures 11.0 * x < 5.0 * m <==> x < c * m
  {
    assert 11.0 * (c * m) == 5.0 * m;
  }

  lemma QuotientCompare(x: real, m: real, c: real)
    requires m > 0.0
    ensures x / m < c <==> x < c * m
  {
    assert x / m * m == x;
    ScaledCompare(x / m, m, c);
  }

  lemma ScaledCompare(q: real, m: real, c: real)
    requires m > 0.0
    ensures q < c <==> q * m < c * m
  {
    if q < c {
      ProductSign(c - q, m);
      assert (c - q) * m == c * m - q * m;
    } else {
      ProductSign(q - c, m);
      assert (q - c) * m == q * m - c * m;
    }
  }

  lemma NoPairsNoCandidates(g: Graph, types: map<Node, string>, pairs: seq<Pair>, cs: seq<Community>)
    requires Valid(g) && Gathered(g, Actors(g, types), Actors(g, types), 0, {}, pairs) && pairs == []
    ensures AllDrafts(g, types, 0, cs, [])
  {
    forall a: Node, b: Node ensures !Candidate(g, types, a, b) {
      if Candidate(g, types, a, b) {
        CandidateIsListed(g, types, pairs, a, b);
      }
    }
  }

  lemma FewActors(g: Graph, types: map<Node, string>, cs: seq<Community>)
    requires |Actors(g, types)| < 2
    ensures AllDrafts(g, types, 0, cs, [])
  {
    forall a: Node, b: Node ensures !Candidate(g, types, a, b) {
      if Candidate(g, types, a, b) {
        CandidateActors(g, types, a, b);
        assert |{a, b}| == 2;
        SubsetSize({a, b}, Actors(g, types));
      }
    }
  }

  /** The drafts are the best `maxHypotheses` of exactly the actor pairs at distance two; the
      communities behind the scores are those of the greedy run. */
  method GenerateHypotheses(g: Graph, types: map<Node, string>, maxHypotheses: int, quality: real)
    returns (kept: seq<Draft>, ghost all: seq<Draft>, ghost maxShared: nat, ghost cs: seq<Community>)
    requires Valid(g)
    ensures maxHypotheses <= 0 ==> kept == []
    ensures maxHypotheses > 0 ==> AllDrafts(g, types, maxShared, cs, all) && TopOf(all, maxHypotheses, kept)
    ensures forall i, j | 0 <= i < j < |kept| ::
              || kept[i].score > kept[j].score
              || (kept[i].score == kept[j].score &&
                  (kept[i].a < kept[j].a || (kept[i].a == kept[j].a && kept[i].b < kept[j].b)))
    ensures maxHypotheses > 0 && all != [] ==>
              var theta := if quality > 0.000000001 then quality else 0.000000001;
              Outcome(g, theta, cs) && IsGreedy(g, theta, BlocksOf(cs))
    ensures maxHypotheses > 0 && all != [] ==> exists d :: d in all && |d.shared| == maxShared
  {
    hide Outcome, AllDrafts, Gathered, InOrder, Valid, IsAdjacency, SortBy, Actors, MaxShared, Label, Together,
         IsGreedy, Pass, Passes, BlocksOf;
    kept, all, maxShared, cs := [], [], 0, [];
    if maxHypotheses <= 0 {
      return;
    }
    if |Actors(g, types)| < 2 {
      FewActors(g, types, cs);
      return;
    }
    var communities, order, passes := DetectCommunities(g, quality);
    ghost var theta := if quality > 0.000000001 then quality else 0.000000001;
    GreedyIs(g, theta, order, passes, BlocksOf(communities));
    var adj := Adjacency(g);
    var pairs := CandidatePairs(g, types, adj);
    if pairs == [] {
      NoPairsNoCandidates(g, types, pairs, cs);
      return;
    }
    var most := MaxShared(pairs);
    MostIsPositive(g, types, pairs);
    var drafts := seq(|pairs|, i requires 0 <= i < |pairs| => Describe(pairs[i], most, communities));
    cs, maxShared, all := communities, most, drafts;
    forall a, b | a in g.nodes && b in g.nodes ensures Label(cs, a) == Label(cs, b) <==> Together(cs, a, b) {
      SameLabelIffTogether(g, theta, cs, a, b);
    }
    DraftsHold(g, types, pairs, most, cs, all);
    DraftsAreInOrder(g, types, most, cs, all);
    TruncationKeepsBest(all, maxHypotheses);
    var sorted := SortBy(drafts, DraftKey);
    kept := if |sorted| <= maxHypotheses then sorted else sorted[..maxHypotheses];
    MaximumIsDrafted(pairs, most, communities, all);
  }

  lemma MaximumIsDrafted(pairs: seq<Pair>, most: nat, cs: seq<Community>, all: seq<Draft>)
    requires pairs != [] && most == MaxShared(pairs) && most > 0
    requires |all| == |pairs| && forall i | 0 <= i < |all| :: all[i] == Describe(pairs[i], most, cs)
    ensures exists d :: d in all && |d.shared| == most
  {
    hide MaxShared, Label, Score;
    MaxSharedIsMax(pairs);
    var p :| p in pairs && |p.shared| == most;
    var i :| 0 <= i < |pairs| && pairs[i] == p;
    assert all[i] in all;
  }

  lemma DraftsAreInOrder(g: Graph, types: map<Node, string>, maxShared: nat, cs: seq<Community>, all: seq<Draft>)
    requires AllDrafts(g, types, maxShared, cs, all)
    ensures DraftsInOrder(all)
  {}

  lemma MostIsPositive(g: Graph, types: map<Node, string>, pairs: seq<Pair>)
    requires Gathered(g, Actors(g, types), Actors(g, types), 0, {}, pairs) && pairs != []
    ensures MaxShared(pairs) > 0
  {
    MaxSharedIsMax(pairs);
    assert pairs[0] in pairs;
    assert pairs[0].shared != {};
  }
}
