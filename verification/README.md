# Verified model of the case graph analytics and the tool loop

This project models, in Dafny, the deterministic graph analytics engine of the case backend and the
bounded tool loop of its AI gateway, and proves what their results mean.

The analytics build a simple undirected graph and a directed multigraph from case relationships and
run hand-written algorithms on them: connected components, articulation points with an explicit
stack, Brandes betweenness, harmonic closeness, PageRank by power iteration, triangle enumeration,
greedy modularity communities over a union-find with path halving, a bridge score, pair counts at
distance two and missing-link hypotheses. The tool loop alternates between an untrusted model and a
set of tools until a final answer is reached or forced.

Each loop of the sources is a method with its loop invariants; the tables that the source functions
update are local maps and sets, or fields of a class where helper functions share and rewrite them.
Each method is proved against a specification that does not mention the algorithm: walks, cut
vertices, distances, sets of shortest paths, the modularity function, the rank equation, the
transcript of a run.

## How it is organised

- `Sums`, `Ordering`, `Pairs`: finite sums, sorted traversal and ranking, unordered pairs.
- `Graphs`: the graph, its construction, walks that avoid a set of nodes, degree totals.
- `Components`, `BridgeScore`: flood fill, components, what a node separates.
- `DepthFirst`, `DepthFirstSteps`, `CutVertices`, `Articulation`: Tarjan's algorithm as a state with
  three steps, its invariants, the meaning of a finished search, and the loops.
- `ShortestPaths`, `Distances`, `Dependencies`, `BreadthFirst`, `PathCounts`, `Betweenness`,
  `PathTotals`, `Closeness`: walk counts, shortest paths, Brandes' recurrence, the searches.
- `RankFlow`, `PowerIteration`: the rank equation and its laws, the PageRank loops.
- `Modularity`, `Greedy`, `UnionFind`, `Clustering`, `Communities`: the gain, the merge run stated on
  partitions, the forest, the merge loop.
- `SecondDegree`, `Hypotheses`, `Triangles`: distance two, missing links, 3-cycles.
- `ToolLoop`: the session state, its outcomes and the history clamp.

## Modelling decisions

- Node ids are natural numbers; the code needs nothing but a total order. Floats are real numbers,
  and rounding to a fixed number of digits is ignored.
- A graph is valid when every edge and arc ends in a node. The construction does not check this
  (`Graphs.BuildGraph` says exactly when it holds), and the algorithms index tables by node, so
  validity is a precondition of all of them.
- Iterating over an unordered set is an arbitrary choice of the next element, so the results hold
  for every iteration order.
- The model, the tools and the tool-call parser are arbitrary functions of the round and the
  conversation, so the results about the tool loop hold for every behaviour of the model.

## Where code and documentation differ

The model follows the code.

- Betweenness: the comment gives isolated nodes 1, the code gives 0 (`Betweenness.IsolatedScoresZero`).
- PageRank divides by an out-degree that counts parallel arcs but sends shares to distinct
  neighbours only, so mass is conserved exactly when no ordered pair is linked twice
  (`RankFlow.MassConservedIffSimple`).
- The bridge score is documented as counting pairs that are joined only through the node; it counts
  pairs that are separated without it, and the
  two disagree exactly at the cut vertices of disconnected graphs
  (`BridgeScore.DisagreesIffDisconnectedCut`).

## Model

| member | source | states |
|---|---|---|
| Graphs.BuildGraph | backend/app/analytics/graph.py:62-79 | keeps the nodes; the arcs are the relationships at exactly the positions that are no self-loops, in order; two nodes are adjacent exactly when a relationship between different ends links them; the graph is valid exactly when every such end is a node |
| Graphs.Adjacency | backend/app/analytics/graph.py:35-41 | the table gives every node its neighbour set from both ends of each edge, and has no entry for a node without edges |
| Graphs.Handshake | backend/app/analytics/graph.py:57-59 | over any set of nodes the degrees add up to twice the internal edges plus the edges leaving the set |
| Components.Flood | backend/app/analytics/graph.py:90-99 | the explicit-stack fill from an unvisited node collects exactly the nodes joined to it and keeps the visited set closed |
| Components.ConnectedComponents | backend/app/analytics/graph.py:82-101 | the blocks partition the nodes, each is the whole component of each of its members, and they come strictly by decreasing size, then smallest member (some member of the earlier block is below all of the later one) |
| Components.SharedBlock | backend/app/analytics/graph.py:82-101 | two nodes share a block if and only if a walk joins them |
| Components.ComponentHasNoExternal | backend/app/analytics/findings.py:204-217 | no edge leaves a component, so the constant external count 0 of the over-cap fallback is right |
| Components.ComponentInternalsAddUp | backend/app/analytics/findings.py:204-217 | the internal counts of the fallback communities add up to the number of edges |
| DepthFirstSteps.EnterInv | backend/app/analytics/graph.py:123-128 | discovering a node, as a new root or from the top of the stack, keeps every invariant of the search (nested intervals, parent chain, low-links bounded and attained, cut set so far) |
| DepthFirstSteps.LookInv | backend/app/analytics/graph.py:152-153 | looking at a known neighbour and lowering the low-link keeps every invariant |
| DepthFirstSteps.LeaveInv | backend/app/analytics/graph.py:133-143 | leaving a node, passing its low-link up and marking cut vertices keeps every invariant |
| DepthFirstSteps.TopOpen | backend/app/analytics/graph.py:127-151 | the stack is a parent chain: the parent of its top is the entry below, a root stands at the bottom |
| CutVertices.NoCrossEdge | backend/app/analytics/graph.py:121-153 | in a finished search every edge joins an ancestor and a descendant |
| CutVertices.BranchingRootIsCut | backend/app/analytics/graph.py:136-138 | root rule: a root with more than one child is a cut vertex |
| CutVertices.BlockedIsCut | backend/app/analytics/graph.py:139-142 | low-link rule: a non-root with a child whose low-link does not reach above it is a cut vertex |
| CutVertices.UnmarkedKeepsMates | backend/app/analytics/graph.py:104-158 | any two component-mates of an unmarked node stay joined without it |
| CutVertices.MarkedIffCut | backend/app/analytics/graph.py:104-158 | the set collected by a finished search is exactly the set of cut vertices |
| Articulation.Retreat | backend/app/analytics/graph.py:133-143 | the exhausted-iterator branch carries the whole search state to one that satisfies all invariants |
| Articulation.Discover | backend/app/analytics/graph.py:144-151 | the new-neighbour branch does the same, adding exactly the neighbour to the discovered nodes |
| Articulation.Revisit | backend/app/analytics/graph.py:152-153 | the known-neighbour branch does the same, using up one neighbour |
| Articulation.Explore | backend/app/analytics/graph.py:121-153 | one run from an undiscovered node with edges keeps all invariants, discovers it and loses no discovered node |
| Articulation.FinishedSpent | backend/app/analytics/graph.py:129-155 | a finished search has spent exactly two iterations per edge and one per node that has an edge |
| Articulation.ArticulationPoints | backend/app/analytics/graph.py:104-158 | returns exactly the nodes whose removal leaves two of their component-mates with no walk between them; all runs together take 2|E| plus the number of non-isolated nodes iterations |
| ShortestPaths.WalkSetExact | backend/app/analytics/graph.py:174-183 | the recursive sets of node sequences are exactly the walks with n edges, so counting them counts walks |
| ShortestPaths.ThroughCount | backend/app/analytics/graph.py:184-191 | the number of walks passing v after a edges is the number of first parts times the number of second parts |
| ShortestPaths.CountSymmetric | backend/app/analytics/graph.py:161-195 | walk counts do not depend on the direction of the pair |
| Distances.ShareFormula | backend/app/analytics/graph.py:184-191 | the share of shortest s-t paths through v, defined on sets of paths, is sigma(s,v) sigma(v,t) / sigma(s,t) when v lies at matching distances and 0 otherwise |
| Dependencies.Recurrence | backend/app/analytics/graph.py:186-189 | a node's dependency, defined as a sum of shares, equals what its successors pass back to it |
| Dependencies.SourceDependency | backend/app/analytics/graph.py:184-189 | the dependency of the source on itself is the number of other nodes it reaches |
| BreadthFirst.DistancesExact | backend/app/analytics/graph.py:204-213 | a search whose queue has run empty knows exactly the reachable nodes, each at its true shortest distance |
| PathCounts.CountsExact | backend/app/analytics/graph.py:167-183 | the tallies of the finished search are the true numbers of shortest paths |
| PathCounts.PredsExact | backend/app/analytics/graph.py:167-183 | the predecessor lists hold exactly the neighbours one step nearer |
| PathCounts.SplitsWhole | backend/app/analytics/graph.py:184-189 | each popped node other than the source splits exactly one plus its dependency among its predecessors |
| Betweenness.CountPaths | backend/app/analytics/graph.py:167-183 | the search takes exactly the reachable nodes, once each in order of distance, with the true number of shortest paths for each and, as predecessor lists, exactly the neighbours one step nearer |
| Betweenness.PassBack | backend/app/analytics/graph.py:187-189 | passing a popped node's share to its predecessors keeps every collected sum exact |
| Betweenness.Accumulate | backend/app/analytics/graph.py:184-191 | adds to every node other than the source exactly its dependency, and leaves the source with the number of other nodes it reaches |
| Betweenness.ReceivedTwice | backend/app/analytics/graph.py:192-195 | summed over all sources every unordered pair counts twice, which the final halving undoes |
| Betweenness.BetweennessCentrality | backend/app/analytics/graph.py:161-195 | every node gets the sum, over unordered pairs of other nodes, of its share of their shortest paths |
| Betweenness.IsolatedScoresZero | backend/app/analytics/graph.py:161-165 | an isolated node scores 0; the comment on the function announces 1 |
| PathTotals.TotalBetweenness | backend/app/analytics/graph.py:161-195 | total betweenness is the sum of (distance - 1) over the joined pairs |
| Closeness.Search | backend/app/analytics/graph.py:204-213 | the distance table has exactly the reachable nodes, each at its true shortest distance |
| Closeness.ClosenessCentrality | backend/app/analytics/graph.py:198-220 | every node gets the sum of reciprocal distances to the nodes it reaches, over n - 1; that is the number of nodes at distance k, over k, for every k |
| Closeness.HarmonicByLayers | backend/app/analytics/graph.py:215-218 | the sum of reciprocal distances counts each distance layer by its size over its distance |
| Closeness.HarmonicRange | backend/app/analytics/graph.py:215-218 | closeness lies in [0, 1] and is 1 exactly for a node adjacent to every other node |
| PowerIteration.OutDegrees | backend/app/analytics/graph.py:43-48 | the out-degree of a node is the number of positions in the arc list that leave it, parallel arcs included |
| RankFlow.OutDegreesAddUp | backend/app/analytics/graph.py:43-48 | over all nodes the out-degrees add up to the number of arcs |
| PowerIteration.OutNeighbors | backend/app/analytics/graph.py:234-238 | a node's out-neighbours are exactly the ends of its arcs, listed once each, in order |
| PowerIteration.Round | backend/app/analytics/graph.py:242-252 | one pass of the loop body yields exactly one iteration of the rank equation |
| PowerIteration.PageRank | backend/app/analytics/graph.py:223-253 | returns exactly the requested number of iterations from the uniform start, nothing for an empty graph; the trace of all rounds is given, each redistributing the ranks of the one before along the arcs |
| PowerIteration.NextRedistributes | backend/app/analytics/graph.py:240-252 | after one iteration every node has (1-d)/n, an even part of the damped rank of the nodes without arcs, and d times rank over number of leaving arcs from each node that links to it, however often |
| RankFlow.MassAfter | backend/app/analytics/graph.py:240-251 | total rank after an iteration is (1-d) plus d times the mass not withheld by parallel arcs |
| RankFlow.RanksBounded | backend/app/analytics/graph.py:239-253 | after any number of iterations every rank is at least (1-d)/n and the ranks sum to at most 1 |
| RankFlow.MassConservedIffSimple | backend/app/analytics/graph.py:230-253 | for 0 < d <= 1 and at least one iteration the ranks sum to exactly 1 if and only if no ordered pair occurs twice among the arcs |
| RankFlow.DoubledArcLosesMass | backend/app/analytics/graph.py:230-249 | a concrete input that loses mass: two nodes linked twice in one direction keep 1 - d/4 after one iteration |
| RankFlow.Contraction | backend/app/analytics/graph.py:241-252 | one iteration shrinks the L1 distance of any two rank vectors by at least the damping factor |
| RankFlow.Converges | backend/app/analytics/graph.py:239-253 | after k iterations the L1 distance to any stationary vector is at most d^k times the initial one |
| RankFlow.StartsConverge | backend/app/analytics/graph.py:239-253 | after k iterations any two starts are within d^k times their first distance, whether or not anything is stationary |
| RankFlow.RanksSettle | backend/app/analytics/graph.py:239-253 | iterating on for any number of further rounds moves the computed ranks by at most 2 d^k in total |
| RankFlow.StationaryUnique | backend/app/analytics/graph.py:239-253 | below damping 1 there is at most one stationary vector |
| Triangles.FindTriangles | backend/app/analytics/graph.py:261-274 | returns every 3-cycle once and nothing else, strictly increasing in the smallest, then the middle, then the largest member |
| Triangles.TrianglesAreCycles | backend/app/analytics/graph.py:261-274 | the increasing triples with a < b < c stand for all 3-cycles, in whatever order their nodes are named |
| Modularity.GainIsDelta | backend/app/analytics/communities.py:28-36 | the gain formula is exactly the change in the modularity contributions when two blocks are merged |
| Modularity.QualityAfterMerge | backend/app/analytics/communities.py:28-36 | replacing two blocks of a partition by their union changes its modularity by the gain |
| Modularity.WholeGraphScoresZero | backend/app/analytics/communities.py:1-16 | the scale of the modularity: with all nodes in one block it is 0 |
| Modularity.SingletonScore | backend/app/analytics/communities.py:1-16 | a node on its own contributes the negative square of its share of the degrees |
| Modularity.NoLinksNoGain | backend/app/analytics/communities.py:86-87 | merging blocks with no edge between them never has positive gain |
| UnionFind.HalvedRoot | backend/app/analytics/communities.py:55-59 | path halving changes nobody's root |
| UnionFind.ClassHasRoot | backend/app/analytics/communities.py:48-59 | the root of a class is its smallest member |
| UnionFind.JoinedBlocks | backend/app/analytics/communities.py:88-90 | joining two roots replaces their two classes by the union and removes exactly one root |
| Communities.Clusters.Find | backend/app/analytics/communities.py:55-59 | returns the root, terminates, and leaves the partition as it was |
| Communities.Clusters.Members | backend/app/analytics/communities.py:82-85 | collects exactly the class of a root although every lookup rewrites links |
| Communities.Clusters.Merge | backend/app/analytics/communities.py:88-91 | puts both roots under the smaller one and adds up their degree sums there |
| Communities.Clusters.Consider | backend/app/analytics/communities.py:77-92 | one turn of the loop is the step of the run on partitions: the blocks at the ends of the edge are merged exactly when that raises the modularity by more than the threshold; the invariant is kept, a merge removes one root, no merge means the edge is settled |
| Communities.Clusters.MergeAll | backend/app/analytics/communities.py:71-92 | the loop ends; the partition is where repeated passes over the edges, by first end and then second end, from the singletons settle; every edge is settled |
| Clustering.StepBetween | backend/app/analytics/communities.py:82-92 | on the partition of the forest, the step at an edge between two classes joins their roots exactly when the gain exceeds the threshold |
| Greedy.GreedyUnique | backend/app/analytics/communities.py:71-92 | the passes settle in one partition only |
| Communities.Clusters.Collect | backend/app/analytics/communities.py:94-96 | gathers every class under its root |
| Clustering.MergeStep | backend/app/analytics/communities.py:86-92 | an accepted merge keeps degree sums exact, classes connected, and modularity above the start by more than the threshold per merge |
| Clustering.LocallyOptimal | backend/app/analytics/communities.py:74-92 | once a pass merges nothing, no two classes, joined by an edge or not, have a merge gain above max(threshold, 1e-9) |
| Communities.DetectCommunities | backend/app/analytics/communities.py:39-121 | the reported communities are where the passes over the ordered edges from the singletons settle, with threshold max(given, 1e-9); they partition the nodes, each is connected within itself, size, internal and external edges and density are counted on its members, the order is strict by size then root, the modularity beats the singletons by more than the threshold per merge, and no two are worth merging |
| Communities.ReportUnique | backend/app/analytics/communities.py:39-121 | the graph and the threshold determine the whole report |
| Communities.BlocksRefineComponents | backend/app/analytics/communities.py:94-116 | members of one community lie in one connected component |
| Communities.EdgeCountsAddUp | backend/app/analytics/communities.py:61-69 | twice the internal plus the external count is the total degree of the community |
| Communities.DensityInRange | backend/app/analytics/communities.py:105 | density lies in [0, 1] |
| BridgeScore.CrossSize | backend/app/analytics/centrality.py:151-152 | the summed products of part sizes count the pairs with ends in different parts |
| BridgeScore.CrossIsSeparated | backend/app/analytics/centrality.py:133-152 | over the parts left by a node these are exactly the pairs with no walk between them once the node is gone |
| BridgeScore.CountAcross | backend/app/analytics/centrality.py:151-152 | the loop computes the summed products |
| BridgeScore.ComputeBridgeScore | backend/app/analytics/centrality.py:120-154 | the score of a cut vertex times the number of node pairs is the number of pairs that its removal leaves separated; every other node scores 0 |
| BridgeScore.TotalPairsCounts | backend/app/analytics/centrality.py:130 | the denominator is the number of unordered pairs of nodes |
| BridgeScore.ScoreRange | backend/app/analytics/centrality.py:123-154 | scores lie in [0, 1) and are positive exactly on the articulation points |
| BridgeScore.CountsDocumentedIffConnected | backend/app/analytics/centrality.py:121-153 | the count agrees with the documented one (joined pairs all of whose walks pass through the node) if and only if the graph is connected |
| BridgeScore.NothingDocumented | backend/app/analytics/centrality.py:120-122 | away from the cut vertices no pair is joined only through the node, so the score 0 is the documented one |
| BridgeScore.DisagreesIffDisconnectedCut | backend/app/analytics/centrality.py:120-154 | over all nodes, the number of pairs the score counts differs from the documented number if and only if the node is a cut vertex of a disconnected graph |
| BridgeScore.IsolatedNodeCounted | backend/app/analytics/centrality.py:121-153 | a concrete disconnected graph on which a pair is counted that no walk ever joined |
| SecondDegree.RingExact | backend/app/analytics/findings.py:507-512 | the expanded neighbourhood of a node holds exactly the nodes at distance two |
| SecondDegree.RingsCountTwice | backend/app/analytics/findings.py:506-514 | over all nodes the expanded neighbourhoods count every pair at distance two twice |
| SecondDegree.SecondHops | backend/app/analytics/findings.py:503-514 | the summed sizes are even, and the reported half is the number of unordered pairs at distance exactly two |
| Hypotheses.CandidatePairs | backend/app/analytics/hypotheses.py:84-91 | gathers, once each and in increasing order, the actor pairs without an edge that share a neighbour |
| Hypotheses.PairIsCandidate | backend/app/analytics/hypotheses.py:84-91 | every gathered pair is an actor pair at distance exactly two, with all its common neighbours |
| Hypotheses.CandidateIsListed | backend/app/analytics/hypotheses.py:84-91 | every actor pair at distance exactly two is gathered |
| Hypotheses.ScoreRange | backend/app/analytics/hypotheses.py:128-131 | a candidate's score lies in (0.15, 1] |
| Hypotheses.ScoresCompare | backend/app/analytics/hypotheses.py:117-131 | drafts alike in community differ by 0.55 of their relative counts, a common community adds 0.30, the maximal count in a common community scores 1, and the maximal count across communities wins exactly against fewer than 5/11 of it within one |
| Hypotheses.TruncationKeepsBest | backend/app/analytics/hypotheses.py:180-181 | sorting and truncation keep at most the limit, in rank order (score, then first actor, then second actor), and every dropped draft is outranked by every kept one |
| Hypotheses.TopIsUnique | backend/app/analytics/hypotheses.py:180-181 | only one list is the ranked best selection of the drafts, ties included |
| Ordering.SortStable | backend/app/analytics/hypotheses.py:115-180 | whatever holds of every two records in input order still holds of every two with equal keys after sorting |
| Hypotheses.DraftsUnique | backend/app/analytics/hypotheses.py:115-131 | the drafts and their order before ranking are determined by the graph and its communities |
| Hypotheses.SameLabelIffTogether | backend/app/analytics/hypotheses.py:73-77 | two nodes carry the same community label if and only if one reported community holds both |
| Hypotheses.GenerateHypotheses | backend/app/analytics/hypotheses.py:51-181 | the result is the ranked best selection of one draft per pair of persons or organizations at distance two, scored 0.55 for relative shared neighbours, 0.30 for a common community of the greedy run and 0.15; ordered by score, first actor, second actor; nothing when the limit is not positive |
| ToolLoop.Session.Turn | backend/app/ai/service.py:898-1072 | one turn either ends the run in an allowed way or adds exactly one tool round to the transcript |
| ToolLoop.Run | backend/app/ai/service.py:895-1072 | the loop ends, for every behaviour of the model, in an answer, a protocol error or an inference failure as specified |
| ToolLoop.OutcomeUnique | backend/app/ai/service.py:895-1072 | the specification leaves no choice: at most one outcome fits a given behaviour |
| ToolLoop.RunIsSafe | backend/app/ai/service.py:895-1072 | with budget b at most b+1 completions and b tool runs, all enabled tools; one event and two messages per tool round; an answer never parses as a tool call; a protocol error only after b+1 completions |
| ToolLoop.NudgedAtMostOnce | backend/app/ai/service.py:924-977 | the final-round notice is appended at most once, exactly when all b rounds proposed tools |
| ToolLoop.TranscriptIsFaithful | backend/app/ai/service.py:951-1020 | every tool round records the model's own reply to the conversation before it, then the first 6000 characters of the tool's payload, or of ERROR with status and error text, or the unknown-tool error, and an event with the tool's success; a tool is run exactly when it is enabled, and only round b carries the final-round notice |
| ToolLoop.ClampHistory | backend/app/ai/service.py:1097-1124 | the result is the longest suffix of the history whose estimate fits max(512, context - answer - 256) |
| ToolLoop.EstimateRoundsUp | backend/app/ai/service.py:1093-1095 | an estimate is the length over four, rounded up |
| ToolLoop.TotalSplits | backend/app/ai/service.py:1118-1119 | the total is the fixed part plus one estimate per message, wherever it stands |

## Left out

- Graphs.Valid: graphs with an edge end that is not a node are outside the model; PageRank and betweenness stop with a missing key on them.
- Rounding of reported floats to six or eight digits, and floating-point error in general.
- The sampled branch of the centrality computation above the node cap: it adds up distances and has no specification to meet.
- Min-max normalisation and rank numbering of metrics, strengths, priorities, network profiles and explanations: only easy range facts.
- Titles, summaries, severities, confidences, relation-type votes and metadata of hypotheses and findings.
- Hypotheses.GenerateHypotheses: scores are compared before rounding to six digits, so drafts that only rounding makes equal are ordered by score, not by first actor.
- The dominant-type statistics attached to communities, and the textual community ids (the position in the list is the id).
- The fixed frame around a tool result in the prompt, other prompt texts, streaming events, source filtering, citation checks and persistence around the tool loop; the parser for tool calls and the tools themselves are arbitrary functions.
- Database, Neo4j, HTTP and inference-server code, scripts, frontends and the importer.
