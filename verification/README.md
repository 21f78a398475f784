# Region builder and membership protocol: a verified model

This project models, in Dafny, the two parts of the locality-preserving control plane and
proves what they promise.

**The region builder** (`gentree/`, with `treeservice.go`). Nodes with levels and pairwise
distances become a locality graph of pivots, bunches and clusters; a distance oracle walks
the pivots; every node grows a family of nested regions (rings) around itself, each with a
tree; and `RemoveLinks` prunes the graph with the help of a search for bridges.

**The membership protocol** (`membershipchainservice/`, `gossipregistrationprotocol/`). A
node registers by announcing a proof down a tree of the previous signers; every server that
hears it calls `addSigner`, guarded by the cycle clock; histories of signer sets are sent
flattened and rebuilt; the Locarno lottery hands out levels; the map of pings is printed
canonically before it is hashed.

## What is proved

* **Distance oracle.** For every assignment of levels below the given number and all
  distances, `approxDistance` finds its node within the rows of `PDist`, and adds two finite
  table entries, if and only if the query does not exhaust the rows: with three levels, a
  query from `u` to `v` does so when `v` is the nearest node of level 2 to `u`, `u` is not in
  the bunch of `v`, and the level-1 pivot of `v` is not in the bunch of `u`; with any number
  of levels by the same alternation, and never with an even number. No query does over a
  metric (distinct nodes may be at distance zero) or where nodes of level two or more are
  their own pivots at level one. Over a metric the answer lies between the distance and
  `2m + 1` times it, `m` being the highest level in use: the factor is 5 for the three levels
  of the live system.
* **Locality.** Chaining bunches, the oracle's walk, exact distances inside a cluster, the
  radii and the skipping of repeated rings: two nodes with `3 d(u,v) <= 16` meet in a region
  of radius at most `max(1, 6 d(u,v))`, and likewise for any top level `m` with `m + 1` for
  3. How far that carries is decided exactly: two nodes share a region within a bound if and
  only if some node has both in its cluster within the largest radius that respects the
  bound; and the promise holds at a distance in all systems of three levels if and only if
  the distance is at most 16/3 or from 5000/3 to 10000/3. Regions are balls of the root's
  cluster, strictly nested; every skipped radius has an earlier tree with the same nodes; a
  root at the top level covers the whole system.
* **The tree of a region.** The traversal, including its ranging over a map while it
  inserts into it, ends and leaves one fully described tree over exactly the allowed nodes.
* **Low-link search.** The test `fup[c] > tin[A]` holds exactly for the tree edges that are
  bridges, and `GetBridges` returns the bridges that separate the root from the node entered
  last. Every order of search returns all bridges within reach if and only if no bridge
  leaves behind, on the root's side, a node other than the root whose removal keeps the rest
  within reach.
* **Pruning.** Every removal keeps the duality of bunches and clusters and all pivots. At the
  end each node is within the bound, or only links to pivots and bridges are left to it; a
  bunch is included in this when the hundred attempts suffice for the links it is to lose,
  two for each of them. The bunch optimisation never goes below the bound, and no round
  removes more links than its node has above it. Whatever bridges are reported, the graph
  stays in one piece if the pivot links alone connect it, which one top-level node is enough
  for (the diameter is then two), and it is all that the kept pivots ensure: the next removal
  can part a graph, in some order of search, exactly when the link is no pivot link, is kept
  in one direction only, and is a bridge that leaves a node behind. `RemoveLinks` is a
  sequence of removals of links that the report on the graph of that moment does not name,
  and such a sequence takes a graph apart only by way of a step like that.
* **Floyd-Warshall.** The in-place triple loop computes shortest walks, and the result is a
  metric even where the pings are not. (The regions are built from the pings themselves, so
  the bounds above ask for pings that form a metric.)
* **Gossip and registration.** Over any interleaving, loss and timeout, replies and the
  root's value are exact; so a registration that returns no error has reached every signer
  asked, for the epoch it announced. The other way round, without loss or timeout the
  protocol ends within two steps for each node, and a registration then succeeds if and only
  if all those asked have accepted. When a registration can begin, when a server accepts a
  signer, and which error comes otherwise, is said by the epoch, the storage, the servers
  known, and the phase and rest of the clock. Signer sets freeze at an exact deadline.
* **Clock.** `Set` and a rescaling put the clock at the first instant of a cycle; waiting
  lands on phase boundaries; and epochs never decrease when a rescaling reads the clock at
  one instant.
* **Lottery, ping string, history.** The lottery's rounded shares add up and its order
  follows the draws, except for three nodes with different largest draws of which the largest
  is at level 0 before. What is printed of a ping reads as the nearest decimal with two
  digits, and two maps give one string exactly when they have the same names and every two
  entries have the same sign and nearest hundredth. A rebuilt history is the original up to
  trailing empty sets.

## How the model is laid out

Nodes carry the name of their index (`node_i` is `i`), because `Setup` orders the nodes
that way. A `map[string]bool` is the set of its true keys. Distances are reals, with
`math.MaxFloat64` as the value `Max`; `ComputeDist` is a matrix that is given. Clock
readings, random draws, square roots, the order in which a Go map is ranged over and the
swaps made by the library sort are parameters or free choices, so every statement holds for
all of them. Imperative code stays imperative: classes for the graph, the tree under
construction, the search record, the clock, the service and the index-value pairs, loops
with invariants elsewhere, each tied to the specification functions beside it.

| file | models |
|---|---|
| Basics.dfy | powers, sums and sizes of sets |
| Space.dfy | levels, distances, and the reference definitions of pivot, bunch and cluster |
| LocalityGraph.dfy | `LocalityNode`, `LocalityNodes`, `CreateLocalityGraph`, the table of `Setup` |
| Walks.dfy | the walk of a query over the pivots, and exactly when it runs out of rows |
| Oracle.dfy | `approxDistance`, `AproximateDistanceOracle` |
| RingTree.dfy | `CreateAndSetChildren` and the traversal of `CreateOnetRings` |
| Rings.dfy | `GenerateRadius`, `Filter`, `CreateOnetRings` |
| Locality.dfy | `genTrees` and the theorems about all regions together |
| LocalityPromise.dfy | exactly when the promise of locality holds |
| Connectivity.dfy, Bridges.dfy | bridges of a graph; `GetBridges`, `recursive` |
| BridgeReports.dfy | exactly when all bridges are returned |
| KeptLinks.dfy | what pruning keeps and what it achieves |
| BunchAttempts.dfy, Pruning.dfy | `RemoveLinks` |
| OnePiece.dfy, Removals.dfy | when pruning keeps the graph in one piece; pruning as a sequence of removals |
| FloydWarshall.dfy | `floydWarshall` |
| CycleClock.dfy | the `Cycle` type |
| SignerStorage.dfy | `addSigner`, `SetGenesisSigners`, the freeze |
| Gossip.dfy, Registration.dfy | `Dispatch` and the protocol; `CreateProofForEpoch` over many servers |
| Lottery.dfy | `SetLevels`, `indexesOfSortedValues`, `Swap` |
| PingString.dfy | `getHashPings` |
| History.dfy | `SendHistory`, `ExecReplyHistory`, `getepochOfEntryMap` |

## Where code and documentation disagree

The model follows the code.

* `GetBridges` is documented as returning all bridges. Every entry of `recursive` clears the
  record, so it returns the bridges that separate the root from the node entered last.
  `BridgeReports.CompleteExactly` says for which graphs every order of search returns all of
  those within reach; `BridgeReports.ReportMissesABridge` is a graph where none does.
* So `RemoveLinks` can remove a bridge: `OnePiece.TwoStarsFallApart` is a graph of two
  top-level nodes and a third that parts in this way.
* A query that has not found its node after three steps logs "shouldn't get here" and reads on.
  `Walks.RunsOutOfThree` says exactly when it gets there, `Walks.AnswerableRunsOutOfNothing`
  that metrics and own pivots exclude it, and `Oracle.RowsRunOut` is an input that does.
* The report promises any two nodes a region of a small multiple of their distance. The code
  uses the radii 1, 2, 4, 8, 16 and 10000 for every root, instead of doubling until one
  covers the cluster. With three levels a region of at most six times the distance, or 1, is
  certain for the distances of `LocalityPromise.PromiseExactly` and for no others:
  `LocalityPromise.FarLineFails` builds six nodes on a line where it is missing.
* The lottery hands out levels in the order of the draws. With three nodes the shares round
  to 1 and 1 of 3, and the largest draw keeps its old level: the order then holds only when
  the two largest draws are equal or that level was not 0 (`Lottery.LevelsFollowDrawsExactly`).
* `CheckPoint` reads the clock up to four times. When a phase ends between its two readings
  of the phase, after at least one whole cycle, a rescaling can raise the epoch by more than
  one, at the end of registration (`CycleClock.CheckPointOvershoots`), or take it back, at
  the end of a cycle (`CycleClock.CheckPointFallsBack`), and in no other case.

## Model

| member | source | states |
|---|---|---|
| Oracle.StretchBound | gentree/Save.go:579-623 | over a metric an answer is finite, never below the distance and at most 2m+1 times it, at most 5 times with three levels |
| Walks.FindsExactly | gentree/Save.go:584-611 | for any levels and distances, the walk from u to v finds its node within k rows exactly when it does not exhaust them: unless v is the level-(k-1) pivot of u without u in its bunch, and each pivot in between, of v and u in turn, is not in the bunch of the other |
| Walks.RunsOutOfThree | gentree/Save.go:599-602 | with the source's three rows: v is u's pivot at level 2, u is not in v's bunch, and v's pivot at level 1 is not in u's |
| Walks.AnswerableRunsOutOfNothing | gentree/Save.go:594-611 | no query exhausts its rows over a metric, nor where nodes of level two or more are their own pivots at level one, nor with an even number of rows |
| Walks.WalkStaysNear | gentree/Save.go:584-611 | over a metric, after i steps without success the walk is at a pivot within i times the distance of its end, and not at the other |
| Oracle.Walk | gentree/Save.go:581-611 | the loop finds the first node of the walk that is in the bunch of the other end, exactly when the query does not exhaust the rows; otherwise it has used them all |
| Oracle.ApproxDistance | gentree/Save.go:579-623 | unless it exhausts the rows, the query ends for every assignment of levels and all distances, after no more steps than the top level in use, adds finite entries, and its via node, the pivot the walk has got to, is in both ends' regions and near both |
| Oracle.RowsRunOut | gentree/Save.go:594-611 | distances that are no metric, with a high node at distance zero from an earlier one, for which a query exhausts its rows |
| Oracle.AproximateDistanceOracle | gentree/Save.go:625-691 | unless some query exhausts its rows, every ordered pair has such an answer, 0 without a via node for a node itself |
| Walks.WalkContinues | gentree/Save.go:584-611 | when w is not in V's bunch the next level is occupied and V's pivot there continues the walk with the ends swapped, never equal to the other end |
| Walks.WalkEnds | gentree/Save.go:589-622 | where the walk stops, the via node lies within the stated multiples of the distance of both ends |
| Oracle.ExactOnCluster | gentree/Save.go:589-622 | the answer from a root to a member of its cluster is the exact distance |
| Locality.ThreeLevelLocality | latex/thesis_template/thesis.tex:307-311 | with three levels, nodes with 3 d(u,v) <= 16 share a region of radius at most max(1, 6 d(u,v)) |
| Locality.LocalityGuarantee | latex/thesis_template/thesis.tex:307-311 | the same for any top level m, up to a reach of 10000, beyond 16 with the last radius |
| LocalityPromise.PromiseExactly | latex/thesis_template/thesis.tex:307-311 | with three levels, a region of radius at most max(1, 6d) is certain at distance d, in every system and for every pair, exactly for 3d up to 16 and from 5000 to 10000 |
| LocalityPromise.SharesExactly | gentree/gentree.go:868-1052 | two nodes share a region within a bound exactly when some node has both in its cluster, or is one of them, within the largest radius that respects the bound |
| LocalityPromise.FarLineFails | gentree/gentree.go:406-427 | six nodes on a line, two of them at any distance beyond a third of a radius, that do not meet within that radius |
| LocalityPromise.WalkLeads | gentree/Save.go:579-623 | the walk over the pivots leads to a node near both ends, from the definitions alone |
| Locality.FarPairsShareLastRadius | gentree/gentree.go:406-427 | nodes more than 32 apart share only regions of radius 10000 |
| Locality.RegionsAreBalls | gentree/gentree.go:868-1052 | each region is the ball of its root's cluster at its radius, regions are strictly nested with increasing radii, and each has a tree over exactly its nodes |
| Locality.RadiusShared | gentree/gentree.go:999-1006 | two nodes of a cluster within a radius share a ring of at most that radius, although its round may have been skipped |
| Locality.TopRootCoversAll | latex/thesis_template/thesis.tex:413-418 | the last region of a root at the top level holds every node, for distances up to 10000 |
| Locality.GenTrees | membershipchainservice/treeservice.go:288-316 | table, graph, oracle and rings in this order leave a graph that meets the reference definitions, an answer for every pair and the rings of every root, unless a query exhausts its rows |
| Rings.CreateOnetRings | gentree/gentree.go:841-1055 | rings are the exact node sets of their radii, strictly nested, each of the six radii is served by a ring with its nodes and no larger radius, and every tree covers its ring |
| Rings.TreeMeans | gentree/gentree.go:934-968 | in a ring's tree every node hangs below the root, has the nodes of the ring it is linked to as children and those in its bunch as parents |
| Rings.RadiusSkipped | gentree/gentree.go:999-1006 | a roster of unchanged length is the same roster, so skipping its radius loses no region |
| Rings.RadiusEmitted | gentree/gentree.go:1008-1048 | an emitted ring is strictly larger than all before it |
| Rings.EmitRings | gentree/gentree.go:866-1052 | the loop over the radii with the length of the last roster |
| Rings.RingFor | gentree/gentree.go:882-968 | one round: exact nodes, none outside the cluster, and the tree over them |
| Rings.GenerateRadius | gentree/gentree.go:406-447 | the loop ends with the powers of two up to 20 followed by the given distance |
| Rings.Filter | gentree/gentree.go:579-687 | without links: the root and the cluster members within the radius |
| Rings.ClusterSuits | gentree/gentree.go:250-263 | duality makes the root a neighbour of each member of its cluster, which lets the traversal end |
| RingTrees.RingTree.Traverse | gentree/gentree.go:934-968 | the traversal ends and the tree holds exactly the allowed nodes, all below the root, each with all its allowed neighbours as children and its allowed bunch as parents |
| RingTrees.RingTree.Pass | gentree/gentree.go:954-968 | one pass over the map of nodes, entries added during the pass visited or not, keeps the finished tree and processes at least one node |
| RingTrees.RingTree.VisitRootChildren | gentree/gentree.go:939-951 | visiting the root's children once each completes the tree |
| RingTrees.RingTree.CreateAndSetChildren | gentree/gentree.go:461-562 | both loops add exactly the allowed cluster and bunch members as children, creating missing tree nodes, and enter the bunch members as parents |
| RingTrees.ChildrenCompose | gentree/gentree.go:461-562 | adding children in two steps is adding them at once, so the order of the maps does not matter |
| RingTrees.MoreCovered | gentree/gentree.go:461-562 | covering one more node of a tree that holds all allowed nodes, visited before or not |
| LocalityGraph.LocalityNodes.CreateLocalityGraph | gentree/gentree.go:191-263 | pivots, bunches, clusters and table are as the reference definitions say, for any levels |
| LocalityGraph.LocalityNodes.AssignPivots | gentree/gentree.go:191-213 | row i of PDist and ADist is the first nearest node of level at least i and its distance, or none and MaxFloat64 |
| LocalityGraph.LocalityNodes.BunchOf | gentree/gentree.go:215-248 | the rounds for one node fill its bunch with exactly the nodes of the reference bunch |
| LocalityGraph.LocalityNodes.BunchRound | gentree/gentree.go:219-246 | one round adds every node it admits and none outside the reference bunch |
| LocalityGraph.LocalityNodes.ClusterOf | gentree/gentree.go:250-263 | the cluster is the converse of the bunches, and the table reaches its final entries row by row |
| LocalityGraph.LocalityNodes.Setup | membershipchainservice/treeservice.go:54-91 | forgets the previous graph; the table is 0 on the diagonal and MaxFloat64 elsewhere |
| LocalityGraph.AdmittedSound | gentree/gentree.go:223-241 | a node admitted by the level and distance test of some round belongs to the bunch as the report defines it |
| LocalityGraph.AdmittedComplete | latex/thesis_template/thesis.tex:374-376 | every node of the report's bunch is admitted by some round |
| LocalityGraph.TableIsExact | gentree/gentree.go:250-263 | with symmetric distances the table holds the exact distance for linked pairs and MaxFloat64 for the others |
| LocalityGraph.TableLastWrite | gentree/gentree.go:250-263 | without symmetry, the same entry both ways, the distance from the last node in order that has the other in its cluster |
| Spaces.PivotInBunch | gentree/gentree.go:191-248 | a pivot other than the node itself is in its bunch |
| Spaces.OwnPivot | gentree/gentree.go:197-212 | a node that has risen above a level from one on is its own pivot there, if high nodes are at level one |
| Spaces.SeparatedIsAnswerable | gentree/gentree.go:197-212 | where distances separate nodes, nodes of level two or more are their own pivots at level one |
| Spaces.TopLevelExists | gentree/Save.go:594-602 | some level is the highest in use, so the oracle's ghost argument can always be given, whatever levels are empty |
| Spaces.TopLevelInEveryBunch | latex/thesis_template/thesis.tex:414-418 | a node of the highest level in use is in every other bunch |
| Bridges.TestIsExact | gentree/Save.go:422-429 | fup[c] > tin[A] exactly when the tree edge from A to c is a bridge |
| Bridges.LowLinkCuts | gentree/Save.go:416-429 | a high low-link: the nodes found below c have no other edge out |
| Bridges.LowLinkConnects | gentree/Save.go:416-429 | a low low-link: another path leads back to A |
| BridgeReports.CompleteExactly | gentree/Save.go:380-406 | every order of search returns all bridges within reach of the root exactly when no bridge leaves behind, on the root's side, another node whose removal keeps the rest within reach |
| BridgeReports.SomeOrderMisses | gentree/Save.go:403-429 | otherwise an order that goes straight to such a bridge records it and loses it again |
| BridgeReports.ReportIsComplete | gentree/Save.go:403-429 | a report that misses a bridge shows a node left behind |
| BridgeReports.BeyondTheBridge | gentree/Save.go:408-421 | the search beyond a bridge enters no node of the root's side |
| BridgeReports.ReportMissesABridge | gentree/Save.go:380-406 | a graph with two bridges of which one goes unreported in every order of search |
| Bridges.GetBridges | gentree/Save.go:381-394 | for some order of search the result is what that order finds: bridges only, and exactly those that separate the root from one node, which is not the root if that has neighbours and without which the root reaches all others |
| Bridges.SearchReports | gentree/Save.go:381-434 | that node is the one with the highest entry time |
| Bridges.SearchIsRight | gentree/Save.go:397-434 | the search of one node, for every order: entry times, low-links as the least back edge, all reachable nodes visited, the record as characterised, and the node entered last |
| Bridges.Dfs.Recursive | gentree/Save.go:397-434 | the updates in place amount to the search function for the given order |
| Connectivity.BridgeSurvives | gentree/Save.go:288-320 | a bridge that is still an edge stays a bridge when other links are removed |
| Connectivity.ConnectedIsPath | gentree/Save.go:397-434 | connection by closed sets is connection by paths |
| Pruning.RemoveLinks | gentree/Save.go:92-338 | every kept property holds at the end and nothing is added; each node is as ClusterOptimisationMeans or BunchOptimisationMeans says for the optimisation type; no more links go than the nodes have above the bound, without the cluster optimisation no bunch is pruned below it; and the links have come about by removals, each of a link that is to no pivot and that a report on the graph of that moment does not name |
| Pruning.Round | gentree/Save.go:114-336 | the round of a node removes at most as many links as it has above the bound, and keeps what earlier rounds achieved |
| KeptLinks.NothingOverTheBound | gentree/Save.go:175-328 | when no node is above the bound, no link is removed |
| KeptLinks.ClusterTotal | gentree/Save.go:217-221 | the pass over a cluster removes one link for each member that leaves it |
| KeptLinks.ClusterOptimisationMeans | gentree/Save.go:175-328 | with it, a node is within the bound, nodes in both its maps counted once, or its cluster holds only nodes it is a pivot of and nodes behind bridges, and its bunch, if few removals are asked of it, only pivots and nodes behind bridges |
| KeptLinks.BunchOptimisationMeans | gentree/Save.go:265-328 | without it, a bunch of which few removals are asked is within the bound or holds only pivots and nodes behind bridges |
| Pruning.Unlink | gentree/Save.go:217-227 | one removal keeps duality, pivots, and a table that forgets exactly the pairs that lost a link |
| Pruning.ClusterPass | gentree/Save.go:175-261 | the level-by-level loop over a cluster ends, removes one node for each link counted down, stops at the bound, or leaves only protected members |
| Pruning.BunchPass | gentree/Save.go:265-328 | the attempts on a bunch touch no other bunch, remove one node for each link counted down, stop at the bound, and leave only needed members when twice the number to remove, or twice the bunch, and the levels come to no more than a hundred; never more than a hundred go |
| Pruning.Attempt | gentree/Save.go:266-326 | an attempt removes one member, or leaves only members in its record that are exempt neither as pivots nor by the reported bridges; having begun like that without removing one, it lowers the priority, or nothing can be removed any more |
| BunchAttempts.FindRemovable | gentree/Save.go:270-304 | the first member that is no pivot, no reported bridge and of the level of priority; none means a record without exempt members and, from such a record, a lower priority, or that every member is needed |
| BunchAttempts.LookAt | gentree/Save.go:271-309 | one member: entered as needed, or the priority lowered at most once, or chosen |
| Pruning.CountEdges | gentree/Save.go:118-128 | the links of a node are counted once, in its unpruned maps |
| KeptLinks.DiameterTwo | gentree/Save.go:175-328 | with one node at the top level, any two nodes are linked or share that node as neighbour after any pruning |
| KeptLinks.StarSurvives | gentree/Save.go:183-214 | at every level, whatever is pruned, a node stays linked in both directions to its pivot, if that is another node |
| OnePiece.OnePieceExactly | gentree/Save.go:183-214 | whatever links pruning may leave, the graph is in one piece, exactly when the pivot links alone connect the nodes |
| OnePiece.StaysInOnePiece | gentree/Save.go:92-338 | so it is after any pruning where they do |
| OnePiece.OneTopNodeConnects | gentree/Save.go:183-214 | pivot links connect the nodes when one node is at the top level |
| OnePiece.RemovalCutsExactly | gentree/Save.go:217-227 | taking a node out of a bunch parts nodes exactly when the link is a bridge and not kept in the other direction |
| OnePiece.FallsApartExactly | gentree/Save.go:271-320 | a graph in one piece can part with a link, in some order of search, exactly when it is no pivot link, is kept in one direction only and is a bridge that leaves a node behind |
| OnePiece.TwoStarsFallApart | gentree/Save.go:271-320 | two top-level nodes and one below them, the root, whose link to the further one is such a bridge |
| Removals.ComesApart | gentree/Save.go:92-338 | removals of links that no report names take a graph apart only by way of a step in which a bridge goes that is kept in one direction only, is no pivot link and leaves a node behind |
| Pruning.UnlinkAndReport | gentree/Save.go:215-233 | a link that the report on the graph does not name goes, and the new report is one that a search of the new graph makes |
| Pruning.CurrentBridges | gentree/Save.go:92-94 | the report is what some order of search of the graph as it stands finds |
| BridgeReports.UnreportedExactly | gentree/Save.go:403-429 | a bridge goes unreported in some order of search exactly when it leaves a node behind |
| KeptLinks.KeptIsUndirected | gentree/Save.go:358-378 | the neighbour graph handed to the bridge search is symmetric after any pruning |
| KeptLinks.FirstStayOptimised | gentree/Save.go:114-338 | what is achieved for earlier nodes survives the removals made for later ones |
| KeptLinks.BothPassesOptimise | gentree/Save.go:175-328 | the links counted down in the two passes bring the maps of the node within its limit, or both passes have left only what they must |
| KeptLinks.NothingPrunedYet | gentree/gentree.go:191-263 | the freshly built graph meets what pruning keeps |
| FloydWarshall.FloydWarshall | membershipchainservice/treeservice.go:331-358 | each entry is the length of some walk and at most that of every walk, missing entries reading 0 |
| FloydWarshall.RoundKeepsOwnEntries | membershipchainservice/treeservice.go:344-356 | round k leaves row and column k alone, which makes relaxing in place sound |
| FloydWarshall.ViaIsLowerBound | membershipchainservice/treeservice.go:344-356 | no walk through the nodes below k is shorter than the value after round k |
| FloydWarshall.ViaAttained | membershipchainservice/treeservice.go:344-356 | the value after round k is the length of a walk |
| FloydWarshall.ShortestIsMetric | membershipchainservice/treeservice.go:331-358 | over symmetric positive pings the result is a metric that separates nodes, as the bounds on the oracle ask of its distances |
| Gossip.GossipExactness | gossipregistrationprotocol/protocol.go:61-89 | in any run every reply under way is the exact count of its subtree, and a value of the size of the tree means every node accepted |
| Gossip.SmoothRunReports | gossipregistrationprotocol/protocol.go:61-89 | a run without loss or timeout has at most two steps for each node; when nothing can happen any more, the root of two or more nodes has reported the number of acceptances, the size of the tree exactly when all have accepted |
| Gossip.CompleteEnds | gossipregistrationprotocol/protocol.go:61-89 | then every node has decided, and a root without children has reported nothing |
| Gossip.ReportArises | gossipregistrationprotocol/protocol.go:74-86 | the root reports when all replies are in, and then the exact total, or when time is up, and only then its own verdict |
| Gossip.CollectReplies | gossipregistrationprotocol/protocol.go:74-80 | with all replies, a node other than the root replies with the count of its subtree, and reports nothing |
| Gossip.ReceiveSends | gossipregistrationprotocol/protocol.go:61-73 | a leaf other than the root replies with its own verdict, another node passes the announcement on and waits |
| Gossip.ExpireSends | gossipregistrationprotocol/protocol.go:84-86 | on timeout no reply is sent, and the root reports its own verdict |
| Gossip.ReportIsExact | gossipregistrationprotocol/protocol.go:71-86 | the root's value is its own verdict or the exact total |
| Gossip.NextKeepsInv | gossipregistrationprotocol/protocol.go:61-89 | receiving, collecting, timing out and losing messages keep exactness |
| Gossip.KidRepliesAddUp | gossipregistrationprotocol/protocol.go:74-80 | exact replies of all children add up to the count of their subtrees |
| Gossip.RootCountsAll | gossipregistrationprotocol/protocol.go:74-83 | the subtree of the root counts every node of the tree once |
| Gossip.Dispatch | gossipregistrationprotocol/protocol.go:61-89 | who replies and who reports, by root, leaf and timeout, and that the value is the node's own bit plus the replies, if they are in |
| Registration.RegistrationComplete | membershipchainservice/service.go:140-229 | in any run, a registration that returns no error has put the caller into its own set and that of every signer it asked, for the epoch it announced |
| Registration.RegistrationSucceeds | membershipchainservice/service.go:140-229 | in any run that loses no message of a registration and lets no time run out in it, whatever happens to others, it has succeeded at its end exactly when all servers asked have accepted |
| Registration.CanBeginExactly | membershipchainservice/service.go:148-175 | a server can begin to register for an epoch exactly when it is in the epoch before, has signers of that epoch stored, and knows all of them |
| Registration.RosterExactly | membershipchainservice/service.go:148-175 | when a roster is gathered, and that it holds those signers and the caller |
| Registration.DeliveryExactly | membershipchainservice/addsignerservice.go:26-54 | a server accepts exactly when its storage reaches the announced epoch, it is not past it, and the clock is in an earlier cycle, during registration, with the margin left |
| Registration.AnnouncedIsAsked | membershipchainservice/service.go:148-216 | the epoch announced, read again from `s.e` after the proof has come, is the epoch asked for exactly when the caller's epoch has not moved since the start |
| Registration.NextKeepsInv | membershipchainservice/addsignerservice.go:12-54 | every step of any number of concurrent registrations keeps an accepting node's server holding the caller |
| Registration.GatherRoster | membershipchainservice/service.go:148-175 | the loop gathers the signers of the epoch before and the caller exactly when the server is in that epoch, has a set for it that is not empty, and knows every signer in it; otherwise the call fails |
| SignerStorage.SignersFrozen | membershipchainservice/addsignerservice.go:41-48 | no calls after the deadline change the set of an epoch |
| SignerStorage.AddSignerExactly | membershipchainservice/addsignerservice.go:26-54 | at q whole cycles and r after the start, a call succeeds exactly with a proof, for an epoch that is not negative, not beyond the storage, not before the server's and after that of the clock, while r leaves the margin before the end of registration; only then does its proof, and nothing else, go in |
| SignerStorage.OpenAfterSet | membershipchainservice/addsignerservice.go:44-46 | in the first cycle after Set the next epoch is open exactly until the margin before the end of registration |
| SignerStorage.RefusedAfterDeadline | membershipchainservice/addsignerservice.go:44-46 | after the deadline the guard refuses, even when the clock passes a phase or cycle boundary between its readings |
| SignerStorage.AcceptedExactly | membershipchainservice/addsignerservice.go:41-48 | at one instant the guard accepts exactly in an earlier cycle, during registration, with the consensus margin left; the deadline itself is accepted |
| SignerStorage.AddSignerEffect | membershipchainservice/addsignerservice.go:25-54 | a call changes at most the entry of its signer in its epoch, and only when it succeeds |
| SignerStorage.GenesisFrozen | membershipchainservice/service.go:111-138 | no call ever changes the set of epoch 0 once the clock is set |
| SignerStorage.Service.AddSigner | membershipchainservice/addsignerservice.go:25-54 | when the call succeeds and which error it returns otherwise, for any three readings; the storage grows exactly for a proof and an epoch just beyond it, even when refused late; a success puts in the proof and changes nothing else |
| SignerStorage.Service.SetGenesisSigners | membershipchainservice/service.go:111-138 | the given servers become epoch 0, all other epochs stay, and the storage is one longer |
| CycleClock.RunKeepsEpoch | membershipchainservice/cycleclock.go:60-79 | over any run of time advances and rescalings the epoch never decreases |
| CycleClock.SetStartsCycle | membershipchainservice/cycleclock.go:66-69 | after Set nothing of the cycle has passed, the whole cycle and the whole of registration are left, the phase is registration if that has a duration, the epoch is the shift, and time runs on from that instant |
| CycleClock.RescaleStartsCycle | membershipchainservice/cycleclock.go:66-79 | after CheckPoint and Set at one instant the clock stands there, whatever its phase was |
| CycleClock.TimeTillNextEpochIs | membershipchainservice/cycleclock.go:52-57 | at one instant, what is left of registration: 0 exactly in the epoch phase, positive exactly in registration |
| CycleClock.TimeTillNextEpochReads | membershipchainservice/cycleclock.go:52-57 | with two readings apart, the phase is the first's and the time left the second's |
| CycleClock.TruncatesTowardZero | membershipchainservice/cycleclock.go:36-62 | quotient and remainder of durations, also for instants before the start |
| CycleClock.RescaleKeepsEpoch | membershipchainservice/cycleclock.go:66-79 | CheckPoint and Set at one instant keep the epoch during registration and raise it by one otherwise |
| CycleClock.WaitForEpoch | membershipchainservice/cycleclock.go:52-57 | waiting from registration ends at the first instant of the epoch phase of the same epoch |
| CycleClock.WaitForCycle | membershipchainservice/cycleclock.go:47-49 | waiting ends at the first instant of the next epoch's cycle, the epoch being constant until then |
| CycleClock.CheckPointOvershoots | membershipchainservice/cycleclock.go:72-79 | for any four readings, exactly when the new shift is more than one above the epoch |
| CycleClock.CheckPointFallsBack | membershipchainservice/cycleclock.go:72-79 | for any four readings, exactly when the new shift is below the epoch |
| CycleClock.RescaleWithinOne | membershipchainservice/cycleclock.go:66-79 | a CheckPoint and a Set, all readings apart, keep the epoch or raise it by one in all other cases |
| CycleClock.FallsBackToZero | membershipchainservice/cycleclock.go:72-79 | from any epoch, readings on the two sides of the end of a cycle start the clock again at epoch 0 |
| CycleClock.OvershootsTwice | membershipchainservice/cycleclock.go:72-79 | from any epoch q, readings on the two sides of the end of registration take the clock to 2q + 1 |
| CycleClock.Cycle.TotalCycleTime | membershipchainservice/cycleclock.go:27-33 | the loop sums the sequence |
| CycleClock.Cycle.GetTimeTillNextEpoch | membershipchainservice/cycleclock.go:52-57 | the reading as a function of fields and two instants |
| CycleClock.Cycle.CheckPoint | membershipchainservice/cycleclock.go:72-79 | the new shift, the second test reading the clock after the first has changed it |
| CycleClock.Cycle.Set | membershipchainservice/cycleclock.go:66-69 | the clock stands at the first instant of a cycle of the given durations, the epoch being the shift, which is kept |
| Lottery.LevelsFollowDrawsExactly | membershipchainservice/locarnotreaties.go:34-47 | whatever the levels before, a larger draw never gets a smaller level exactly when there are not three nodes, or the two largest of the three draws are equal, or the node with the largest was above level 0 |
| Lottery.LevelsFollowDraws | membershipchainservice/locarnotreaties.go:34-47 | the same for four or more nodes, ties and earlier levels allowed |
| Lottery.LevelCounts | membershipchainservice/locarnotreaties.go:36-47 | n - r, r - 1 and 1 nodes at the levels, r being the integer nearest to the root of n |
| Lottery.RoundedCounts | membershipchainservice/locarnotreaties.go:26-42 | the rounded shares, adding up to n from four nodes on and to n - 1 below, so the index never overruns |
| Lottery.SetLevels | membershipchainservice/locarnotreaties.go:17-49 | the level at every position of the sorted order, other nodes unchanged |
| Lottery.IndexesOfSortedValues | membershipchainservice/locarnotreaties.go:51-60 | the indexes are the identity under the swaps of the sort |
| Lottery.SwapsTrack | membershipchainservice/locarnotreaties.go:66-77 | under any paired swaps the indexes stay a permutation and track the values |
| Lottery.IndexValue.Swap | membershipchainservice/locarnotreaties.go:74-77 | both slices exchange the same two elements |
| PingString.SameStringSamePings | membershipchainservice/blscosiservice.go:96-127 | two maps, no name of a row with a colon and no name in a row with a dash, give the same string exactly when they have the same names and print the same to two decimals everywhere |
| PingString.SameStringAlike | membershipchainservice/blscosiservice.go:96-127 | in terms of the numbers: with such names, the same string exactly for the same names and entries of the same sign and nearest hundredth |
| PingString.SameStringNear | membershipchainservice/blscosiservice.go:96-127 | equal strings mean entries less than a hundredth apart |
| PingString.FormatReads | membershipchainservice/blscosiservice.go:117 | what is printed is an optional sign, digits, a point and two digits, and read as a decimal it is within half a hundredth of the number |
| PingString.BelowIsLexicographic | membershipchainservice/blscosiservice.go:105-113 | keys are sorted by their first difference, a proper prefix first |
| PingString.SingleEntry | membershipchainservice/blscosiservice.go:96-124 | the whole string of a single distance |
| PingString.GetHashPings | membershipchainservice/blscosiservice.go:96-124 | for all maps, the string is the canonical one, in whatever order their keys come; SameStringAlike and FormatReads say what it means |
| PingString.TextReadsBack | membershipchainservice/blscosiservice.go:107-122 | names and distances can be read back from the text |
| PingString.RowReadsBack | membershipchainservice/blscosiservice.go:115-119 | a row can be read back, whatever follows it |
| PingString.ListingUnique | membershipchainservice/blscosiservice.go:105-113 | a set of names has one sorted listing |
| PingString.FormatInjective | membershipchainservice/blscosiservice.go:117 | two numbers print the same exactly when their sign and their hundredths agree |
| PingString.DashesCollide | membershipchainservice/blscosiservice.go:115-119 | with dashes in names, any two entries print like a single one |
| PingString.ColonsCollide | membershipchainservice/blscosiservice.go:107-120 | with colons in names, any two rows without entries print like a single one |
| History.HistoryRoundTrip | membershipchainservice/updatehistoryservice.go:148-155 | rebuilding a flattened list gives the original up to trailing empty sets, the last epoch being the last with a signer |
| History.HistoryKeepsEntry | membershipchainservice/getterservice.go:109-117 | a rebuilt history has the same epochs of entry |
| History.SendHistory | membershipchainservice/updatehistoryservice.go:76-86 | the three slices list every entry once per epoch in order, whatever the order of the maps |
| History.ExecReplyHistory | membershipchainservice/updatehistoryservice.go:148-168 | the storage is replaced by the rebuilt sets and the later of the two epochs is passed on |
| History.NothingToSend | membershipchainservice/updatehistoryservice.go:76-86 | the message is empty exactly when no epoch has a signer |
| History.EpochOfEntry | membershipchainservice/getterservice.go:109-117 | the descending loop finds the first epoch of every server that ever signed |

## Left out

- `UpdateDistance`, `dfss`, `CreateOnetLPTree`, `Filter` with links, and `OptimizeGraph` in `genTrees`: unused or off the live path.
- Random coordinates and levels, `ComputeDist` and the measurement of pings: distances and levels are given. A pair missing from the ping map reads 0 there.
- Floating-point rounding: distances, shares and printed numbers are exact reals, and a number halfway between two hundredths prints upward.
- Rosters, tree identifiers, files, logs and the conversion to binary trees; children and parents of a tree node are sets, so their order and the repetitions of a parent are not modelled.
- The initial filling of `dist2` before the oracle: every entry is overwritten.
- Pruning.BunchPass: does not say whether a bunch reaches the bound when from forty-nine to a hundred members are to go and it has as many, because the pass gives up after 100 attempts, of which some remove nothing.
- Pruning.RemoveLinks: levels are below the number of pivot rows, as `CreateLocalityGraph` leaves them.
- The read past the end of a slice with which a query ends that has exhausted its rows: `Oracle.Walk` says exactly when it happens.
- The exact reach of the promise of locality for numbers of levels other than the source's three.
- Which bounds make `RemoveLinks` take a given graph apart: `OnePiece.FallsApartExactly` and `Removals.ComesApart` speak of the removals, not of which of them are asked for.
- Lottery.SetLevels: no nodes at all, where the source divides by zero and converts NaN to an integer; the number of levels is the source's three.
- Lottery.IndexesOfSortedValues: the library sort is any sequence of swaps that leaves the values in order; the draws come from a generator that is not modelled.
- PingString.SameStringSamePings: names of rows with colons and names in rows with dashes; ColonsCollide and DashesCollide show why.
- History.ExecReplyHistory: the last index must be the largest and there must be one, otherwise the source fails; a rebuilt epoch without entries is an empty set here and a nil map there; the merged maps of servers and names are left out.
- History.EpochOfEntry: the last step that replaces identities by names.
- SignerStorage.Service.SetGenesisSigners: the clock, the maps of servers and the counts of interactions that it also sets.
- Registration.RegistrationComplete: the collective signature, waiting and the final timeout are left out; handlers are atomic steps and histories are not replaced.
- `Start` and `Done` of the gossip protocol, and the channels of the network library: a message is delivered at most once and the replies arrive together. A tree of one node reports no value, as its reply has no parent to go to.
- CycleClock.RunKeepsEpoch: runs in which the durations change without `CheckPoint` and `Set`, or in which these read the clock at different instants (see RescaleWithinOne).
- Liveness of the mutexes: several error paths return while they hold a lock.
- The agreement on the next signer set and `getRosterForEpoch`, which ignores its argument: nothing is claimed about them.
- Monotonicity of the epoch through `EpochChan`: queued values may be out of order.
