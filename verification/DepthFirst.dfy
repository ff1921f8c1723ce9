/** The state of the iterative depth-first search behind the articulation points, its three
    steps, and the invariants every step keeps. A ghost finishing time per node turns the
    parent forest into nested intervals of discovery times. Each invariant is stated for one
    node (or pair) at a time, so that a step is checked on one node at a time too. */
module DepthFirst {
  import opened Graphs
  import opened Ordering

  datatype Parent = Root | Of(node: Node)

  /** `todo[u]` is what the iterator over the sorted neighbours of `u` has not yielded yet;
      `fin[u]` is the value of the timer when `u` left the stack. */
  datatype State = State(disc: map<Node, int>, low: map<Node, int>, parent: map<Node, Parent>,
                         children: map<Node, int>, cut: set<Node>, timer: int,
                         stack: seq<Node>, todo: map<Node, seq<Node>>, fin: map<Node, int>)

  function Least(x: int, y: int): int {
    if y < x then y else x
  }

  function Left(todo: map<Node, seq<Node>>, u: Node): seq<Node> {
    if u in todo then todo[u] else []
  }

  ghost function Rest(s: State, u: Node): seq<Node> {
    Left(s.todo, u)
  }

  /** The iterator of `u` has yielded `w`. */
  ghost predicate Explored(g: Graph, s: State, u: Node, w: Node) {
    u in s.disc && w in Nbrs(g, u) && w !in Rest(s, u)
  }

  /** End of the discovery interval of `u`; an unfinished interval is still growing. */
  ghost function End(s: State, u: Node): int {
    if u in s.fin then s.fin[u] else s.timer
  }

  /** `x` belongs to the search subtree of `u`. */
  ghost predicate In(s: State, u: Node, x: Node) {
    u in s.disc && x in s.disc && s.disc[u] <= s.disc[x] < End(s, u)
  }

  ghost predicate Open(s: State, u: Node) {
    u in s.disc && u !in s.fin
  }

  ghost predicate ChildOf(s: State, c: Node, p: Node) {
    c in s.parent && s.parent[c] == Of(p)
  }

  ghost function Top(s: State): Node
    requires s.stack != []
  {
    s.stack[|s.stack| - 1]
  }

  // ---------------------------------------------------------------- invariants, one node at a time

  ghost predicate NodeAt(g: Graph, s: State, u: Node) {
    && (u in s.low <==> u in s.disc) && (u in s.parent <==> u in s.disc) && (u in s.children <==> u in s.disc)
    && (u in s.disc ==> u in g.nodes && 0 <= s.disc[u] < s.timer && s.low[u] <= s.disc[u])
    && (u in s.fin ==> u in s.disc && s.disc[u] < s.fin[u] <= s.timer && Rest(s, u) == [])
    && Increasing(Rest(s, u))
    && (u in s.todo ==> u in s.disc && forall w | w in s.todo[u] :: w in Nbrs(g, u))
  }

  ghost predicate DistinctAt(s: State, u: Node, w: Node) {
    u in s.disc && w in s.disc && s.disc[u] == s.disc[w] ==> u == w
  }

  /** The stack is a parent chain hanging from a root. */
  ghost predicate ChainAt(s: State, i: int) {
    0 <= i < |s.stack| ==>
      && Open(s, s.stack[i]) && s.stack[i] in s.parent
      && s.parent[s.stack[i]] == if i == 0 then Root else Of(s.stack[i - 1])
  }

  ghost predicate MonoAt(s: State, i: int, j: int) {
    0 <= i < j < |s.stack| ==>
      s.stack[i] in s.disc && s.stack[j] in s.disc && s.disc[s.stack[i]] < s.disc[s.stack[j]]
  }

  /** Unfinished nodes are on the stack. */
  ghost predicate OpenAt(s: State, u: Node) {
    Open(s, u) ==> exists i :: 0 <= i < |s.stack| && s.stack[i] == u
  }

  /** A finished interval lies after the discovery of an open node, or was over by then. */
  ghost predicate FrontAt(s: State, x: Node, u: Node) {
    Open(s, x) && u in s.fin && u in s.disc ==> s.disc[x] < s.disc[u] || s.fin[u] <= s.disc[x]
  }

  ghost predicate ParentAt(g: Graph, s: State, u: Node) {
    u in s.parent && s.parent[u].Of? ==>
      s.parent[u].node in Nbrs(g, u) && s.parent[u].node != u && In(s, s.parent[u].node, u)
  }

  ghost predicate TreeAt(s: State, u: Node, x: Node) {
    In(s, u, x) && x != u ==> x in s.parent && s.parent[x].Of? && In(s, u, s.parent[x].node)
  }

  ghost predicate NestedAt(s: State, u: Node, x: Node) {
    In(s, u, x) ==> End(s, x) <= End(s, u)
  }

  ghost predicate ReachAt(g: Graph, s: State, u: Node, w: Node) {
    && (Explored(g, s, u, w) ==> w in s.disc)
    && (u in s.fin && w in Nbrs(g, u) ==> w in s.disc && s.disc[w] < s.fin[u])
  }

  ghost predicate LowEdgeAt(g: Graph, s: State, u: Node, w: Node) {
    Explored(g, s, u, w) && w in s.disc && !ChildOf(s, u, w) ==> u in s.low && s.low[u] <= s.disc[w]
  }

  ghost predicate LowChildAt(s: State, c: Node, p: Node) {
    c in s.fin && ChildOf(s, c, p) ==> c in s.low && p in s.low && s.low[p] <= s.low[c]
  }

  ghost predicate ViaEdge(g: Graph, s: State, u: Node, w: Node) {
    Explored(g, s, u, w) && w in s.disc && !ChildOf(s, u, w) && u in s.low && s.low[u] == s.disc[w]
  }

  ghost predicate ViaChild(s: State, u: Node, c: Node) {
    c in s.fin && ChildOf(s, c, u) && c in s.low && u in s.low && s.low[u] == s.low[c]
  }

  ghost predicate AttainedAt(g: Graph, s: State, u: Node) {
    u in s.low && u in s.disc ==>
      s.low[u] == s.disc[u] || (exists w :: ViaEdge(g, s, u, w)) || (exists c :: ViaChild(s, u, c))
  }

  ghost function Children(s: State, p: Node): set<Node> {
    set c | c in s.parent && s.parent[c] == Of(p)
  }

  ghost predicate CountAt(s: State, p: Node) {
    p in s.children ==> s.children[p] == |Children(s, p)|
  }

  /** A finished child whose subtree never looks above its non-root parent. */
  ghost predicate Blocks(s: State, p: Node, c: Node) {
    && c in s.fin && ChildOf(s, c, p) && p in s.parent && s.parent[p] != Root
    && c in s.low && p in s.disc && s.low[c] >= s.disc[p]
  }

  ghost predicate BranchingRoot(s: State, p: Node) {
    p in s.fin && p in s.parent && s.parent[p] == Root && p in s.children && s.children[p] > 1
  }

  ghost predicate CutAt(s: State, p: Node) {
    p in s.cut <==> BranchingRoot(s, p) || exists c :: Blocks(s, p, c)
  }

  // ---------------------------------------------------------------- invariants, all nodes

  ghost predicate Nodes(g: Graph, s: State) {
    0 <= s.timer && (forall u :: NodeAt(g, s, u)) && (forall u, w :: DistinctAt(s, u, w))
  }

  ghost predicate Stacked(s: State) {
    && (forall i :: ChainAt(s, i)) && (forall i, j :: MonoAt(s, i, j))
    && (forall u :: OpenAt(s, u)) && (forall x, u :: FrontAt(s, x, u))
  }

  ghost predicate Forest(g: Graph, s: State) {
    && (forall u :: ParentAt(g, s, u)) && (forall u, x :: TreeAt(s, u, x)) && (forall u, x :: NestedAt(s, u, x))
  }

  ghost predicate Reached(g: Graph, s: State) {
    forall u, w :: ReachAt(g, s, u, w)
  }

  ghost predicate LowBound(g: Graph, s: State) {
    (forall u, w :: LowEdgeAt(g, s, u, w)) && (forall c, p :: LowChildAt(s, c, p))
  }

  ghost predicate LowAttained(g: Graph, s: State) {
    forall u :: AttainedAt(g, s, u)
  }

  ghost predicate Cuts(s: State) {
    (forall p :: CountAt(s, p)) && (forall p :: CutAt(s, p))
  }

  ghost predicate Inv(g: Graph, s: State) {
    Nodes(g, s) && Stacked(s) && Forest(g, s) && Reached(g, s) && LowBound(g, s) && LowAttained(g, s) && Cuts(s)
  }

  // ---------------------------------------------------------------- steps

  /** `x` is about to be discovered: as a new root, or as the next neighbour of the top. */
  ghost predicate CanEnter(g: Graph, s: State, x: Node) {
    && x in g.nodes && x !in s.disc
    && (s.stack != [] ==>
          Top(s) in s.todo && Top(s) in s.children && s.todo[Top(s)] != [] && s.todo[Top(s)][0] == x)
  }

  ghost function Enter(g: Graph, s: State, x: Node): State
    requires CanEnter(g, s, x)
  {
    var root := s.stack == [];
    State(s.disc[x := s.timer],
          s.low[x := s.timer],
          s.parent[x := if root then Root else Of(Top(s))],
          (if root then s.children else s.children[Top(s) := s.children[Top(s)] + 1])[x := 0],
          s.cut,
          s.timer + 1,
          s.stack + [x],
          (if root then s.todo else s.todo[Top(s) := s.todo[Top(s)][1..]])[x := Sorted(Nbrs(g, x))],
          s.fin)
  }

  /** The next neighbour of the top was discovered before. */
  ghost predicate CanLook(s: State) {
    && s.stack != []
    && Top(s) in s.todo && Top(s) in s.parent && Top(s) in s.low
    && s.todo[Top(s)] != [] && s.todo[Top(s)][0] in s.disc
  }

  ghost function Look(s: State): State
    requires CanLook(s)
  {
    var seen := s.todo[Top(s)][0];
    var t := s.(todo := s.todo[Top(s) := s.todo[Top(s)][1..]]);
    if s.parent[Top(s)] == Of(seen) then t
    else t.(low := s.low[Top(s) := Least(s.low[Top(s)], s.disc[seen])])
  }

  ghost predicate CanLeave(s: State) {
    && s.stack != []
    && Top(s) in s.low && Top(s) in s.parent && Top(s) in s.children && Rest(s, Top(s)) == []
    && (s.parent[Top(s)].Of? ==>
          var p := s.parent[Top(s)].node;
          p in s.low && p in s.disc && p in s.parent)
  }

  /** The low-links after the top has handed its own to its parent. */
  ghost function LowPassed(s: State): map<Node, int>
    requires CanLeave(s)
  {
    match s.parent[Top(s)]
    case Root => s.low
    case Of(p) => s.low[p := Least(s.low[p], s.low[Top(s)])]
  }

  /** The cut set after the root rule or the low-link rule. */
  ghost function CutMarked(s: State): set<Node>
    requires CanLeave(s)
  {
    match s.parent[Top(s)]
    case Root => if s.children[Top(s)] > 1 then s.cut + {Top(s)} else s.cut
    case Of(p) => if s.parent[p] != Root && s.low[Top(s)] >= s.disc[p] then s.cut + {p} else s.cut
  }

  /** The iterator of the top is exhausted. */
  ghost function Leave(s: State): State
    requires CanLeave(s)
  {
    State(s.disc, LowPassed(s), s.parent, s.children, CutMarked(s), s.timer,
          s.stack[..|s.stack| - 1], s.todo, s.fin[Top(s) := s.timer])
  }
}
