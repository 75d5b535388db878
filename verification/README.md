# ProNoC: verified models

Dafny models of the algorithms inside the ProNoC network-on-chip tool set, with proofs of what each of them is for.
Every file verifies with Dafny 4.11; `dafny verify dfyconfig.toml` checks the whole project.

| component | files |
|---|---|
| Minimum agony: ranking a directed multigraph so that the sum of max(0, rank(from) - rank(to) + 1) is least | `AgonyTheory`, `AgonyGraph`, `AgonySearch`, `AgonyLedger`, `AgonyWalk`, `AgonyKahn`, `AgonyRelabel`, `Agony`, `Lists` |
| Fuzzy string comparison: linear-space difference of two strings (Myers, section 4.2 of "An O(ND) Difference Algorithm and its Variations") | `EditGrid`, `EditMeaning`, `EditSearch`, `EditCut`, `FuzzyCompare` |
| Breaking the cycles of a directed graph, by depth-first search or component by component | `CycleGraph`, `DfsBreaker`, `SccPieces`, `CutStrategy`, `CutMeaning`, `CutHazard`, `SccBreaker` |
| SynFull: coherence transactions over a network that delivers in any order | `SynfullNet`, `SynfullRoutes`, `Synfull` |
| Netrace: a trace player in which packets wait for the packets they depend on | `NetQueue`, `NetQueueBank`, `DependencyTable`, `NetraceWorld`, `NetraceRefs`, `NetraceLog`, `NetraceState`, `NetraceTiming`, `NetraceSchedule`, `Netrace`, `Options` |
| Intel HEX writer and reader (Hexadecimal Object File Format Specification, revision A, 1988, sections 2, 3, 5 and 8) | `HexFormat`, `HexReader`, `HexWriter`, `HexRoundTrip`, `HexStandard`, `HexPrograms` |
| Topologies: the fat tree, and lines, rings, meshes, tori, fmeshes and 3-D meshes | `Bits`, `Radix`, `FatTreeCode`, `FatTree`, `FatTreeRoutes`, `MeshCode`, `MeshLinks`, `MeshDistance`, `Wiring` |
| The simulator's worker threads, under every interleaving | `ThreadBlocks`, `Vthread` |

## Main results

| what is proved | where |
|---|---|
| Minimum agony: optimal for every multigraph, and still optimal as written | `Agony.Optimiser.Solve`, `Certificate`, `Relief`, `WriteAgony` |
| The midpoint search is minimal; the recursion counts a real common subsequence, least within the expense bound | `FuzzyCompare.Comparer.Diag`, `EditCut.EditsReal`, `EditCut.EditsMinimal` |
| The edit limit never changes a verdict, heuristic or not | `FuzzyCompare.Fstrcmp` |
| Depth-first cycle breaking: acyclic, and no removal in vain | `DfsBreaker.Search.RemoveBackEdges` |
| Component-wise cycle breaking: acyclic, each removed edge the worst of some cycle by its scores, and exactly when it can fail | `SccBreaker.BreakCycles`, `CutMeaning.ChosenSensible`, `CutHazard.CanFailExactly` |
| SynFull: conservation, bounded messages, no look-up of an erased entry, every answer to the right node, under any delivery order | `SynfullNet.ReactInv`, `ErasedExactlyWhenQuiet`, `MessageBound`, `SynfullRoutes.ReactRouted`, `ReactAnswers`, `Synfull.Generator.Run` |
| Netrace: the loop ends, everything read is ejected, in causal order and delayed by shortest ways over the grid; counts are exact; the earliest packet is at the head | `Netrace.Simulator.Run`, `NetraceSchedule.TimingIsLatency`, `NetraceRefs.FreeCounted`, `NetraceState.HeadsEarliest` |
| Intel HEX: round trip, the exact condition for several start addresses, and the texts letter by letter as in the standard | `HexRoundTrip.RoundTripOne`, `RoundTripGuard`, `HexStandard.ReadText`, `HexPrograms.BinToHex` |
| Fat tree: butterfly links, routes, shortest distances in the table | `FatTree.UpPortsOnce`, `FatTreeRoutes.DescentReaches`, `FatTreeRoutes.DistanceIsShortest` |
| Meshes: symmetric tables, ports used once, exact distances in the table | `MeshLinks.TableSymmetric`, `PortsPartitioned`, `MeshDistance.GetMahDistance`, `MeshCode.AddressRoundTrip` |
| Threads: no overlap, every node reset and evaluated, every row copied, every router updated once per call, no deadlock | `Vthread.AllDone`, `NeverStuck`, `StepNearer` |

## How it is built

Each component has the same build. A mathematical layer on plain values says what the result means (`AgonyTheory`,
`EditMeaning`, `CycleGraph`, `SynfullNet`, `NetraceWorld`, `HexRoundTrip`, `FatTreeRoutes`). Above it are classes whose methods follow the loops of the source and
are proved against functions or invariants on those values.

**Agony.** `Optimiser` carries the fields of the source's class: ranks, differences, parents, the two edge graphs, the slack buckets
and the counters. The optimality proof is primal-dual. A balanced edge set bounds the cost of every ranking from below
(`WeakDuality`), the primal counter exceeds the dual by exactly the recorded slack (`Certificate`), and each relief
lowers total slack by at least the slack it was called for (`Relief`), so that `MinAgony` ends without slack and its ranking is optimal. `m_dual` and
`m_primal` are taken as zero on entry, as the source intends although nothing sets them. The exit
`u == s` of the search (graph.cpp, line 234) is never taken, because the search ends before the start node is popped.

**Fuzzy comparison.** Distances are defined on the edit grid without reference to the search. The rows of both searches are proved to hold exactly
the furthest points reachable with their number of edits, which gives minimality of the midpoint.
`EditCut` says where a box is cut without mentioning the vectors, heuristic cut included, and proves that there is exactly one such point;
the counts of the whole recursion are therefore a function of the strings, and `Fstrcmp` is compared with it. The branch for a cut
of cost one (fstrcmp.c, lines 535-551) is proved impossible, as the comment in the source suspects.

**Cycle breaking.** Visiting orders and random choices are nondeterministic, scores and votes arbitrary numbers. The component routine of
networkx is a parameter specified as the classes of mutual reachability. The worklist programs do not succeed on all inputs.
`pick_from_dict` (helper_funs.py, lines 35-63) starts its searches at -10000 and 10000, so that with all values of a piece on one side of
both bounds one of its lists stays empty and the draw from it fails; the loop over edges starts at -1 and picks `None` if all votes are
below. `CutHazard.Hazard` says which graphs lead there, `CanFailExactly` that some run fails exactly on these, and `BreakCycles` that
every run does unless a tie is drawn in its favour. Failure is a result of these methods, and no input is excluded. Which edges go is said
by `CutMeaning.Justified` on the scores alone: a removed edge closes a cycle of which it is the worst, so with node scores it never climbs.

**SynFull.** The state is what the global maps hold; ghost fields count messages per transaction. For a read or write,
acknowledgements received, invalidations outstanding and acknowledgements outstanding always add up to the invalidations sent, and exactly one
of request, data and unblock is outstanding until the unblock arrives. `SynfullRoutes.Fits` says between which nodes each message runs and of
what type and size it is, and `Answers` what a delivery is answered with and when, with the numbers of the protocol spelled out.

**Netrace.** The trace is finite, with increasing ids, cycles in order and dependencies on later packets only, which is what the trace
viewer checks or measures. Each packet goes through five stages, and each queue holds exactly the packets of its stage and
node. The queues are real doubly linked lists; since `queue_pop_front` does not reset the back link of the new head, a queue that has been
popped must not be given to `queue_remove` before it has been empty again, and the program never does so. The latency is measured by
shortest ways between neighbours in the rows and columns of the grid (`NetraceTiming`), not by its formula.

**Intel HEX.** One start address followed by contiguous bytes always survives the round trip. With several start addresses it does not:
`ihex_write_at_address` clears a pending overflow flag when the upper halves of the old and new address agree (kk_ihex_write.c,
lines 169-173), although that upper half has not been written yet. `ForgottenOverflow` gives an input, and `RoundTripGuard` the condition under
which everything comes back, as an equivalence: no seek clears a pending flag. `RoundTripExactly` covers empty regions as well. A round trip says nothing about the format itself, so `HexStandard` compares
the texts written, and what each kind of line does to the reader, with literal texts. The two fields packed into the reader's `flags` are separate fields here.

**Topologies.** In the fat tree the channel constant of the link arithmetic cancels, whatever its value; 32-bit wrap-around is modelled, and the
link numbers are required to fit. With a single level no row is produced, and the lone router is never told its address (`AllLabelled`).
Distances are compared with shortest ways through the rows of the generated tables (`Wiring`). On rings and tori the distance function
ignores the links around the ends; `MeshDistance.GetMahDistance` states exactly when it is still the shortest way.

**Threads.** Every read or write of a flag and every action on a node is one step of an interleaving; a waiting worker reads its three flags one
after another. What a call has to do is listed by node and kind (`ThreadBlocks.Due`), apart from the work lists of the threads. Besides the absence of overlap it is proved that no state is stuck and that every step that changes something decreases
a rank, a worker's reading a flag in vain excepted, so that calls can fail to return only if the scheduler lets threads spin for ever.
With one thread the source does not call the threaded function at all but does the same work in a plain loop; for that setting the
theorems are about the threaded function, and the loop is not modelled.

## Model

| member | source | states |
|---|---|---|
| Agony.Optimiser.Solve | mpsoc/remove_cycle/agony/agony.cpp:24-29 | for every multigraph, self-loops and parallel edges included, the program ends with primal = dual = cost, and no other ranking of the nodes whatever has a smaller cost |
| Agony.Optimiser.MinAgony | mpsoc/remove_cycle/agony/graph.cpp:169-190 | the relief loop terminates from every valid state and ends with an optimal ranking and primal = dual = cost |
| Agony.Optimiser.Certificate | mpsoc/remove_cycle/agony/graph.cpp:157-166 | in every state between reliefs the primal counter is dual plus recorded slack and equals the cost of the current ranking, and the dual bounds the cost of every ranking from below |
| Agony.Optimiser.Relief | mpsoc/remove_cycle/agony/graph.cpp:193-283 | one relief lowers total slack by at least the slack of its edge, never raises the slack of an Eulerian edge, never lowers a rank, and keeps every invariant, the DAG strictly rank-increasing among them |
| Agony.Optimiser.LongestSlack | mpsoc/remove_cycle/agony/graph.cpp:217-276 | the bucket search pops every node at most once, by non-increasing rise, and ends when no queued rise beats the best offer to the start node |
| Agony.Optimiser.PopTop | mpsoc/remove_cycle/agony/graph.cpp:219-234 | a pop takes a node not popped before and never the start node, and gives it the rank it was offered |
| Agony.Optimiser.ScanOut | mpsoc/remove_cycle/agony/graph.cpp:236-255 | after the scan every DAG edge out of the popped node is settled: its head has risen or been offered a rise |
| Agony.Optimiser.ScanIn | mpsoc/remove_cycle/agony/graph.cpp:257-274 | after the scan every Eulerian edge into the popped node is settled |
| Agony.Optimiser.MakeOffer | mpsoc/remove_cycle/agony/graph.cpp:241-273 | an offer replaces a smaller one, moves the node to the higher bucket, and an offer to the start node raises the bound instead |
| Agony.Optimiser.ShiftRank | mpsoc/remove_cycle/agony/graph.cpp:319-326 | the popped nodes sink back by the bound, all others keep their rank |
| Agony.Optimiser.RaiseRanks | mpsoc/remove_cycle/agony/graph.cpp:193-280 | the ranks found by the search are installed with no slack increased, and what slack the edge keeps comes with a tree path that can be flipped |
| Agony.Optimiser.UpdateRelief | mpsoc/remove_cycle/agony/graph.cpp:285-307 | rescanning only the edges out of touched nodes leaves bucket t-1 holding exactly the Eulerian edges of slack t, and the counters exact |
| Agony.Optimiser.TakeRanks | mpsoc/remove_cycle/agony/graph.cpp:288-292 | every touched node takes its new rank and leaves the search with difference zero |
| Agony.Optimiser.Rescan | mpsoc/remove_cycle/agony/graph.cpp:294-306 | the recorded slack, bucket and primal counter are brought up to date for all marked edges out of one node |
| Agony.Optimiser.ExtractCycle | mpsoc/remove_cycle/agony/graph.cpp:328-366 | flipping the cycle keeps the partition of the edges and the balance of every node; each edge that enters the Eulerian part has slack 0, and total slack falls by the slack of the closing edge |
| Agony.Optimiser.FlipEdge | mpsoc/remove_cycle/agony/graph.cpp:338-355 | an edge of the cycle moves to the other part, and no slack is gained |
| Agony.Optimiser.UnmarkEdge | mpsoc/remove_cycle/agony/graph.cpp:339-347 | an edge that climbs moves from the Eulerian part to the DAG, with graphs, bucket and both counters in step |
| Agony.Optimiser.MarkEdge | mpsoc/remove_cycle/agony/graph.cpp:348-355 | a DAG edge climbing by exactly one moves to the Eulerian part, where it has no slack |
| Agony.Optimiser.AddSlack | mpsoc/remove_cycle/agony/graph.cpp:376-384 | the edge enters the bucket of its slack, the primal counter grows by it |
| Agony.Optimiser.DeleteSlack | mpsoc/remove_cycle/agony/graph.cpp:368-374 | the edge leaves its bucket, the primal counter falls by its recorded slack |
| Agony.Optimiser.CycleDfs | mpsoc/remove_cycle/agony/graph.cpp:54-108 | the marking walk terminates on every multigraph, marks an edge set balanced at every node, and leaves an order in which every unmarked edge leads to an earlier node |
| Agony.Optimiser.WalkFrom | mpsoc/remove_cycle/agony/graph.cpp:66-106 | a walk from one seed ends with the seed dead and marks every cycle it closes |
| Agony.Optimiser.CloseCycle | mpsoc/remove_cycle/agony/graph.cpp:89-104 | the edges of a closed cycle are marked and removed, and the walk resumes at the node where the cycle began |
| Agony.Optimiser.MarkCycle | mpsoc/remove_cycle/agony/graph.cpp:90-96 | exactly the path edges back to the repeated node and the closing edge are marked and unbound |
| Agony.Optimiser.StepBack | mpsoc/remove_cycle/agony/graph.cpp:74-78 | a node without edges dies, and the walk goes back to the node before it |
| Agony.Optimiser.InitAgony | mpsoc/remove_cycle/agony/graph.cpp:110-127 | the two graphs become an exact partition of the edges by the marks; dual and primal become the number of marked edges |
| Agony.Optimiser.InitRank | mpsoc/remove_cycle/agony/graph.cpp:129-167 | from a balanced marking whose rest is acyclic, all invariants of the optimiser are established |
| Agony.Optimiser.RankDag | mpsoc/remove_cycle/agony/graph.cpp:132-155 | every node is reached, and every unmarked edge climbs, with ranks below the number of nodes |
| Agony.Optimiser.FindSources | mpsoc/remove_cycle/agony/graph.cpp:134-141 | exactly the nodes without unmarked in-edges are queued |
| Agony.Optimiser.PushSuccessors | mpsoc/remove_cycle/agony/graph.cpp:147-154 | processing a popped node pushes its successors above it and queues those with no other predecessor left |
| Agony.Optimiser.FillSlacks | mpsoc/remove_cycle/agony/graph.cpp:157-166 | all marked edges are in the bucket of their slack, and no bucket above the maximum is occupied |
| Agony.Optimiser.FillOne | mpsoc/remove_cycle/agony/graph.cpp:157-166 | one marked edge enters the bucket of its slack, below the maximum |
| Agony.Optimiser.ComputeCost | mpsoc/remove_cycle/agony/graph.cpp:38-51 | the loop computes the sum over all edges of the penalty of that edge |
| Agony.Optimiser.WriteAgony | mpsoc/remove_cycle/agony/read.cpp:48-65 | the ranks written are the dense renumbering of the ranking, cost no more, and an optimal ranking stays optimal |
| AgonyTheory.WeakDuality | mpsoc/remove_cycle/agony/graph.cpp:116-126 | no ranking whatever costs less than the number of edges of a balanced edge set |
| AgonyTheory.DualityGap | mpsoc/remove_cycle/agony/graph.cpp:157-166 | with every unmarked edge climbing, cost = number of marked edges + total slack |
| AgonyTheory.ZeroSlackOptimal | mpsoc/remove_cycle/agony/graph.cpp:169-190 | a ranking under which the marked edges have no slack is optimal |
| AgonyTheory.Telescope | mpsoc/remove_cycle/agony/graph.h:136-137 | around a balanced edge set every ranking climbs by zero in total |
| AgonyTheory.SkewStep | mpsoc/remove_cycle/agony/graph.cpp:90-96 | marking or unmarking one edge moves the imbalance from one of its ends to the other |
| AgonyGraph.Graph.Bind | mpsoc/remove_cycle/agony/graph.h:41-50 | the edge joins the ends of its two lists, nothing else changes |
| AgonyGraph.Graph.Unbind | mpsoc/remove_cycle/agony/graph.h:53-60 | the edge leaves both lists, nothing else changes |
| AgonyGraph.Graph.UnbindNode | mpsoc/remove_cycle/agony/graph.h:63-67 | exactly the edges leaving or entering the node are unbound |
| AgonyGraph.Graph.Copy | mpsoc/remove_cycle/agony/graph.cpp:26-36 | the graph becomes a copy of the fully bound input graph, whatever it was before |
| AgonySearch.PopInv | mpsoc/remove_cycle/agony/graph.cpp:225-232 | taking a node from the top bucket keeps the search invariant and readies it for the scan |
| AgonySearch.PopFalling | mpsoc/remove_cycle/agony/graph.cpp:217-232 | the node popped next rises no further than any popped before it |
| AgonySearch.PopFacts | mpsoc/remove_cycle/agony/graph.cpp:225-234 | the node popped next is unpopped, waits at the current level, and is never the start node |
| AgonySearch.ScanStep | mpsoc/remove_cycle/agony/graph.cpp:236-274 | scanning one edge keeps the scan invariant, whether or not it leads to an offer |
| AgonySearch.LowerInv | mpsoc/remove_cycle/agony/graph.cpp:219 | skipping an empty top bucket keeps the search invariant |
| AgonySearch.DoneRanks | mpsoc/remove_cycle/agony/graph.cpp:278-280 | no node sinks, and only popped nodes move |
| AgonySearch.DoneEdges | mpsoc/remove_cycle/agony/graph.cpp:217-280 | after the search every unmarked edge still climbs, and no marked edge has gained slack |
| AgonySearch.DonePath | mpsoc/remove_cycle/agony/graph.cpp:281 | when the edge keeps slack, the tree path from its head back to its tail can be flipped |
| AgonySearch.PathEdgesDistinct | mpsoc/remove_cycle/agony/graph.cpp:335-356 | no edge serves two nodes of the tree path |
| AgonySearch.PathStep | mpsoc/remove_cycle/agony/graph.cpp:335-356 | each step of the walk along the parents follows a tight tree edge |
| AgonyLedger.RaisedSlacks | mpsoc/remove_cycle/agony/graph.cpp:294-306 | if only touched nodes rise and no marked edge gains slack, marked edges out of untouched nodes keep theirs exactly |
| AgonyLedger.LedgerUpdate | mpsoc/remove_cycle/agony/graph.cpp:301-304 | replacing a recorded slack moves the edge to its new bucket and keeps the books |
| AgonyLedger.LedgerMark | mpsoc/remove_cycle/agony/graph.cpp:348-355 | a newly marked edge is entered in the books |
| AgonyLedger.LedgerUnmark | mpsoc/remove_cycle/agony/graph.cpp:339-347 | an unmarked edge is struck off the books |
| AgonyLedger.TopEdge | mpsoc/remove_cycle/agony/graph.cpp:182-187 | the first edge of an occupied bucket is marked and has the slack of that bucket |
| AgonyLedger.EmptyTop | mpsoc/remove_cycle/agony/graph.cpp:182 | an empty top bucket may be skipped |
| AgonyLedger.NoSlack | mpsoc/remove_cycle/agony/graph.cpp:182-183 | with no bucket left, no marked edge has slack |
| AgonyWalk.ExtendInv | mpsoc/remove_cycle/agony/graph.cpp:84-88 | stepping to a fresh node keeps the walk invariant |
| AgonyWalk.DieInv | mpsoc/remove_cycle/agony/graph.cpp:74-78 | a node whose edges are used up dies, and later nodes of the order come before it |
| AgonyWalk.UnwindClose | mpsoc/remove_cycle/agony/graph.cpp:90-96 | marking the closing edge rebalances the marks |
| AgonyWalk.ResumeInv | mpsoc/remove_cycle/agony/graph.cpp:98-103 | the walk resumes at the repeated node with its invariant restored |
| AgonyWalk.AllDead | mpsoc/remove_cycle/agony/graph.cpp:65-107 | when all nodes are dead the order of death lists sinks first |
| AgonyKahn.PopSource | mpsoc/remove_cycle/agony/graph.cpp:143-145 | taking the front source keeps the books of the ranking pass |
| AgonyKahn.ProcessBase | mpsoc/remove_cycle/agony/graph.cpp:149-154 | processing one out-edge lowers exactly the pending count of its head |
| AgonyKahn.AllPopped | mpsoc/remove_cycle/agony/graph.cpp:143-155 | with no source left, an acyclic edge set has been processed completely |
| AgonyKahn.KahnDone | mpsoc/remove_cycle/agony/graph.cpp:143-155 | then every unmarked edge climbs |
| AgonyRelabel.DenseGap | mpsoc/remove_cycle/agony/read.cpp:53-59 | renumbering keeps the order of ranks and never widens a gap |
| AgonyRelabel.DenseCost | mpsoc/remove_cycle/agony/read.cpp:53-59 | the written numbers cost no more under any graph |
| AgonyRelabel.NumberInOrder | mpsoc/remove_cycle/agony/read.cpp:57-59 | the walk over the sorted map gives each rank the number of distinct smaller ranks |
| FuzzyCompare.Comparer.Diag | mpsoc/Integration_test/synthetic_sim/src/perl_lib/String/fstrcmp.c:156-459 | the cut is the one `EditCut.CutAt` describes without any search: on an optimal path if minimal is set or the distance is at most twice the expense bound, otherwise the better of the two best points reached; the cost returned is the distance in the first case and twice the bound less one in the second, so never below two |
| FuzzyCompare.Comparer.CompareSeq | mpsoc/Integration_test/synthetic_sim/src/perl_lib/String/fstrcmp.c:483-559 | for every box the recursion terminates, and the counts grow by exactly what the comparison without limit counts as long as the limit is not exceeded, and never by more |
| FuzzyCompare.Comparer.CutAndCompare | mpsoc/Integration_test/synthetic_sim/src/perl_lib/String/fstrcmp.c:530-558 | the counts of the two halves of the cut are the counts of the whole; the branch for a cost of one is never taken |
| FuzzyCompare.Comparer.CountRest | mpsoc/Integration_test/synthetic_sim/src/perl_lib/String/fstrcmp.c:512-527 | what is left when one side is empty is counted on the other |
| FuzzyCompare.Comparer.ForwardRow | mpsoc/Integration_test/synthetic_sim/src/perl_lib/String/fstrcmp.c:201-233 | one row of the top-down search holds the furthest point reached with its edits on every diagonal, and meets the other search exactly at an overlap |
| FuzzyCompare.Comparer.BackwardRow | mpsoc/Integration_test/synthetic_sim/src/perl_lib/String/fstrcmp.c:243-274 | the same for the bottom-up search |
| FuzzyCompare.Comparer.BackwardEntry | mpsoc/Integration_test/synthetic_sim/src/perl_lib/String/fstrcmp.c:245-266 | the entry of one diagonal is the furthest point upwards |
| FuzzyCompare.Comparer.SlideDown | mpsoc/Integration_test/synthetic_sim/src/perl_lib/String/fstrcmp.c:217-222 | the slide ends at the first mismatch or border |
| FuzzyCompare.Comparer.SlideUp | mpsoc/Integration_test/synthetic_sim/src/perl_lib/String/fstrcmp.c:258-263 | the slide upwards ends at the first mismatch or border |
| FuzzyCompare.Comparer.WidenForward | mpsoc/Integration_test/synthetic_sim/src/perl_lib/String/fstrcmp.c:193-200 | the row grows by one diagonal each side, or shrinks at the border, with sentinels outside it |
| FuzzyCompare.Comparer.WidenBackward | mpsoc/Integration_test/synthetic_sim/src/perl_lib/String/fstrcmp.c:235-242 | the same for the backward row |
| FuzzyCompare.Comparer.Halfway | mpsoc/Integration_test/synthetic_sim/src/perl_lib/String/fstrcmp.c:386-457 | the expense cut-off takes the better of the furthest point from above and the furthest from below |
| FuzzyCompare.Comparer.BestForward | mpsoc/Integration_test/synthetic_sim/src/perl_lib/String/fstrcmp.c:399-419 | of all points of the box the search from above has reached the point chosen is the one with the greatest x + y, and of those the one with the greatest x |
| FuzzyCompare.Comparer.BestBackward | mpsoc/Integration_test/synthetic_sim/src/perl_lib/String/fstrcmp.c:420-440 | of all points the search from below has reached the point chosen has the least x + y, and of those the greatest x |
| FuzzyCompare.Comparer.StepForward | mpsoc/Integration_test/synthetic_sim/src/perl_lib/String/fstrcmp.c:192-233 | one more edit from the top: either the searches meet at the lowest midpoint of optimal paths on the highest diagonal that has one, or the distance exceeds the edits spent |
| FuzzyCompare.Comparer.StepBackward | mpsoc/Integration_test/synthetic_sim/src/perl_lib/String/fstrcmp.c:234-274 | one more edit from the bottom: they meet at the uppermost midpoint on the highest diagonal, or the distance is larger |
| FuzzyCompare.Comparer.Trim | mpsoc/Integration_test/synthetic_sim/src/perl_lib/String/fstrcmp.c:497-509 | the two loops drop exactly the common head and then the common tail |
| FuzzyCompare.Fstrcmp | mpsoc/Integration_test/synthetic_sim/src/perl_lib/String/fstrcmp.c:579-638 | 1 for two empty strings, 0 if one is empty; for all strings, heuristic or not, the edit limit never changes the verdict "at least minimum", nor the number when the verdict is positive; such a number is the similarity of a real common subsequence; within the expense bound the verdict is that of the true similarity |
| FuzzyCompare.CompareWhole | mpsoc/Integration_test/synthetic_sim/src/perl_lib/String/fstrcmp.c:604-635 | for strings that are not empty, the verdict and a positive number are those of the comparison without limit |
| FuzzyCompare.SameVerdict | mpsoc/Integration_test/synthetic_sim/src/perl_lib/String/fstrcmp.c:611-635 | counting edits up to the limit gives the verdict of counting on |
| FuzzyCompare.Verdict | mpsoc/Integration_test/synthetic_sim/src/perl_lib/String/fstrcmp.c:483-638 | such a number stands for a real common subsequence, is at most the true similarity, and within the expense bound its verdict is the true one |
| FuzzyCompare.UnlimitedReal | mpsoc/Integration_test/synthetic_sim/src/perl_lib/String/fstrcmp.c:483-559 | the similarity computed without limit is that of a real common subsequence |
| FuzzyCompare.UnlimitedTrue | mpsoc/Integration_test/synthetic_sim/src/perl_lib/String/fstrcmp.c:483-559 | it is never above the true similarity, and equals it within the expense bound |
| FuzzyCompare.CutOffBelow | mpsoc/Integration_test/synthetic_sim/src/perl_lib/String/fstrcmp.c:494-495 | whoever exceeds the edit limit derived from minimum has a similarity below minimum |
| FuzzyCompare.ExpenseBound | mpsoc/Integration_test/synthetic_sim/src/perl_lib/String/fstrcmp.c:602-608 | the loop computes the expense bound from the number n of diagonals: the power of two e with n < e * e <= 4 n, but at least 256 |
| FuzzyCompare.ExpenseRoot | mpsoc/Integration_test/synthetic_sim/src/perl_lib/String/fstrcmp.c:602-608 | the expense bound is about the square root of the number of diagonals |
| EditCut.CutExists | mpsoc/Integration_test/synthetic_sim/src/perl_lib/String/fstrcmp.c:156-459 | every trimmed box has a cut as described |
| EditCut.CutUnique | mpsoc/Integration_test/synthetic_sim/src/perl_lib/String/fstrcmp.c:156-459 | and only one, so the search and its two vectors can be forgotten |
| EditCut.CutProper | mpsoc/Integration_test/synthetic_sim/src/perl_lib/String/fstrcmp.c:156-459 | the cut lies in the box, makes both parts smaller, and a finished search cuts an optimal path |
| EditCut.AbandonedFurthest | mpsoc/Integration_test/synthetic_sim/src/perl_lib/String/fstrcmp.c:395-457 | an abandoned search cuts where one of the searches has come furthest, and neither has come further by x + y; in a tie the point from below is taken, and the half behind it is the one not searched minimally |
| EditCut.EditsReal | mpsoc/Integration_test/synthetic_sim/src/perl_lib/String/fstrcmp.c:494-557 | even where the search is abandoned the counts are those of a real common subsequence |
| EditCut.EditsMinimal | mpsoc/Integration_test/synthetic_sim/src/perl_lib/String/fstrcmp.c:494-557 | where no search is abandoned they are minimal |
| EditCut.EditsCut | mpsoc/Integration_test/synthetic_sim/src/perl_lib/String/fstrcmp.c:553-557 | cutting a box where the search cuts it adds up the counts of the parts |
| EditCut.BareKeeps | mpsoc/Integration_test/synthetic_sim/src/perl_lib/String/fstrcmp.c:497-509 | dropping common head and tail keeps the distance, and loses no common subsequence |
| EditCut.MetForwardFirst | mpsoc/Integration_test/synthetic_sim/src/perl_lib/String/fstrcmp.c:203-232 | the first overlap found in a forward row is the lowest midpoint on the highest diagonal that has one |
| EditCut.MetBackwardFirst | mpsoc/Integration_test/synthetic_sim/src/perl_lib/String/fstrcmp.c:245-273 | the first overlap found in a backward row is the uppermost midpoint on the highest diagonal that has one |
| EditCut.ClampedFurthest | mpsoc/Integration_test/synthetic_sim/src/perl_lib/String/fstrcmp.c:406-415 | the point taken on one diagonal is the furthest of the box reached there |
| EditCut.LeadsFwdStep | mpsoc/Integration_test/synthetic_sim/src/perl_lib/String/fstrcmp.c:415-419 | comparing the best point with that of the next diagonal keeps it the best |
| EditMeaning.DistIsLcs | mpsoc/Integration_test/synthetic_sim/src/perl_lib/String/fstrcmp.c:110-137 | the edit distance counts exactly the characters outside a longest common subsequence |
| EditMeaning.EditedAtLeastDist | mpsoc/Integration_test/synthetic_sim/src/perl_lib/String/fstrcmp.c:483-559 | the counts of any common subsequence are at least the distance |
| EditMeaning.EditedJoin | mpsoc/Integration_test/synthetic_sim/src/perl_lib/String/fstrcmp.c:483-559 | common subsequences of the two halves of a cut make one of the whole |
| EditMeaning.TrimFront | mpsoc/Integration_test/synthetic_sim/src/perl_lib/String/fstrcmp.c:497-502 | a common first character belongs to an optimal alignment |
| EditMeaning.TrimBack | mpsoc/Integration_test/synthetic_sim/src/perl_lib/String/fstrcmp.c:504-509 | a common last character belongs to an optimal alignment |
| EditGrid.Through | mpsoc/Integration_test/synthetic_sim/src/perl_lib/String/fstrcmp.c:226-232 | triangle inequality through any point of the box |
| EditGrid.SplitPoint | mpsoc/Integration_test/synthetic_sim/src/perl_lib/String/fstrcmp.c:226-232 | for every split of the distance some point of an optimal path realises it |
| EditGrid.Halves | mpsoc/Integration_test/synthetic_sim/src/perl_lib/String/fstrcmp.c:553-557 | cutting a box at a point gives halves with the forward and backward distance of that point |
| EditGrid.MirrorDist | mpsoc/Integration_test/synthetic_sim/src/perl_lib/String/fstrcmp.c:234-274 | both directions measure the same distance |
| EditGrid.Drift | mpsoc/Integration_test/synthetic_sim/src/perl_lib/String/fstrcmp.c:192-233 | the distance of a point is at least its change of diagonal, and of the same parity |
| EditSearch.FurthestStep | mpsoc/Integration_test/synthetic_sim/src/perl_lib/String/fstrcmp.c:209-222 | one step on one diagonal: the better neighbour, then the slide, is the furthest point |
| EditSearch.Meet | mpsoc/Integration_test/synthetic_sim/src/perl_lib/String/fstrcmp.c:226-232 | overlapping entries mark the midpoint of an optimal path, with costs adding up to the distance |
| EditSearch.RowsOverlap | mpsoc/Integration_test/synthetic_sim/src/perl_lib/String/fstrcmp.c:201-274 | when the two costs add up to the distance, the rows overlap on some diagonal |
| EditSearch.RowCovers | mpsoc/Integration_test/synthetic_sim/src/perl_lib/String/fstrcmp.c:193-225 | the row for c edits misses no point that c edits reach |
| EditSearch.MetForward | mpsoc/Integration_test/synthetic_sim/src/perl_lib/String/fstrcmp.c:226-232 | an odd search that meets in the forward row has found the distance |
| EditSearch.NotMetForward | mpsoc/Integration_test/synthetic_sim/src/perl_lib/String/fstrcmp.c:226-232 | a forward row without overlap shows the distance to be larger |
| EditSearch.MetBackward | mpsoc/Integration_test/synthetic_sim/src/perl_lib/String/fstrcmp.c:267-273 | an even search that meets in the backward row has found the distance |
| EditSearch.NotMetBackward | mpsoc/Integration_test/synthetic_sim/src/perl_lib/String/fstrcmp.c:267-273 | a backward row without overlap shows the distance to be larger |
| EditSearch.TrimmedDist | mpsoc/Integration_test/synthetic_sim/src/perl_lib/String/fstrcmp.c:144-148 | substrings that differ at both ends are at least two edits apart |
| EditSearch.ClampedGood | mpsoc/Integration_test/synthetic_sim/src/perl_lib/String/fstrcmp.c:406-434 | the clamped point of the cut-off lies in the box and off its corners |
| DfsBreaker.Search.RemoveBackEdges | mpsoc/remove_cycle/remove_cycle_edges_by_dfs.py:32-42 | for every visiting order the edges kept are acyclic, and putting back any one removed edge closes a cycle of kept edges |
| DfsBreaker.Search.Visit | mpsoc/remove_cycle/remove_cycle_edges_by_dfs.py:9-20 | a visit finishes its node and keeps the three-colour invariant |
| DfsBreaker.Search.ScanChildren | mpsoc/remove_cycle/remove_cycle_edges_by_dfs.py:12-18 | every edge out of the node has been looked at, in any order |
| DfsBreaker.Search.ScanChild | mpsoc/remove_cycle/remove_cycle_edges_by_dfs.py:14-18 | one edge: a visit, a removal, or nothing, by the colour of its head |
| DfsBreaker.BackInv | mpsoc/remove_cycle/remove_cycle_edges_by_dfs.py:17-18 | an edge to a grey node is removed, and the grey path shows the cycle it would close |
| DfsBreaker.SkipInv | mpsoc/remove_cycle/remove_cycle_edges_by_dfs.py:14-18 | an edge to a finished node is kept and leads to an earlier place of the order |
| DfsBreaker.EnterInv | mpsoc/remove_cycle/remove_cycle_edges_by_dfs.py:15-16 | entering a white child extends the grey path |
| DfsBreaker.LeaveInv | mpsoc/remove_cycle/remove_cycle_edges_by_dfs.py:20 | a node with all edges looked at is finished |
| DfsBreaker.FinishedGood | mpsoc/remove_cycle/remove_cycle_edges_by_dfs.py:38-42 | a finished search leaves no cycle and no removal in vain |
| CycleGraph.DescendsAcyclic | mpsoc/remove_cycle/remove_cycle_edges_by_dfs.py:38-50 | edges that all lead to earlier nodes of an order make no cycle |
| CycleGraph.ClosingEdge | mpsoc/remove_cycle/s_c_c.py:11-17 | an edge lies on a cycle exactly if a closed walk starts with it |
| SccBreaker.BreakCycles | mpsoc/remove_cycle/remove_cycle_edges_by_hierarchy_greedy.py:89-101 | for every graph, scores and strategy: on success the graph without the returned edges is acyclic, every returned edge lies on a cycle of the input, and is a self-loop or the worst of some cycle of the graph by the scores alone: none of the cycle drops further in score (and the edge does not climb), none has more votes, or no node of the cycle ranks above its tail, below its head, or is more lopsided than its chosen end; it fails only if a node on a cycle has no score or the graph has a hazard, always in the first case, and always in the second unless a tie between nodes is drawn in its favour |
| SccBreaker.BreakByDegrees | mpsoc/remove_cycle/remove_cycle_edges_by_minimum_feedback_arc_set_greedy.py:58-80 | the degree ratios of the graph without self-loops are computed first, so no score is ever missing; each removed edge is justified by these ratios |
| CutMeaning.ChosenSensible | mpsoc/remove_cycle/remove_cycle_edges_by_hierarchy_BF.py:11-27 | what a strategy may choose in a strongly connected piece, said on the scores alone: the edge that drops furthest, and never one that climbs; an edge of most votes; all edges out of a node no other outranks, or into one that outranks no other; all edges on one side of a node whose ratio no other exceeds |
| CutMeaning.HeaviestDrops | mpsoc/remove_cycle/remove_cycle_edges_by_hierarchy_greedy.py:9-54 | the edge of greatest agony in a strongly connected piece does not climb, since with no edge dropping all scores would be equal |
| CutMeaning.CutJustified | mpsoc/remove_cycle/remove_cycle_edges_by_hierarchy_BF.py:11-27 | an edge so chosen closes a cycle of the original graph of which it is the worst |
| CutMeaning.NeverClimbs | mpsoc/remove_cycle/remove_cycle_edges_by_hierarchy_greedy.py:43-65 | with node scores no removed edge leads from a lower to a higher score |
| CutMeaning.NoDrop | mpsoc/remove_cycle/remove_cycle_edges_by_hierarchy_greedy.py:9-54 | where no edge drops nobody reached scores less |
| CutMeaning.LighterSideCut | mpsoc/remove_cycle/remove_cycle_edges_by_minimum_feedback_arc_set_greedy.py:34-50 | what is cut at the most lopsided node are its out-edges if it has no more of them than in-edges in the whole graph, else its in-edges |
| CutMeaning.NodeDegree | mpsoc/remove_cycle/remove_cycle_edges_by_minimum_feedback_arc_set_greedy.py:14-28 | the ratio times the smaller degree is the larger one, zero if a side is empty, and the flag says whether in-degree is at least out-degree |
| CutMeaning.NodesDegreeDict | mpsoc/remove_cycle/remove_cycle_edges_by_minimum_feedback_arc_set_greedy.py:8-30 | every given node gets the ratio of its degrees |
| CutHazard.CanFailExactly | mpsoc/remove_cycle/remove_cycle_edges_by_hierarchy_BF.py:8-48 | some run of the worklist comes to a piece in which nothing can be picked exactly if the graph has a hazard: a cycle of edges all voted below -1, or a component, left after removing the highest ranking nodes, all above 10000 or all below -10000 |
| CutHazard.TrapCanFail | mpsoc/remove_cycle/remove_cycle_edges_by_hierarchy_BF.py:8-48 | from any worklist that contains the hazard some run fails |
| CutHazard.FailHazard | mpsoc/remove_cycle/remove_cycle_edges_by_hierarchy_BF.py:8-48 | a run that fails shows a hazard |
| CutHazard.SparingChoice | mpsoc/remove_cycle/remove_cycle_edges_by_hierarchy_BF.py:14-27 | a pickable piece that contains the hazard offers a choice that leaves it whole, and without ties every choice does |
| CutHazard.StepLevel | mpsoc/remove_cycle/remove_cycle_edges_by_hierarchy_BF.py:41-46 | the pieces of a node-wise run are the components of the graph without its highest ranking nodes |
| CutHazard.NoHazard | mpsoc/remove_cycle/helper_funs.py:35-63 | there is no hazard if every cycle has a node scored at least -10000 and a node scored at most 10000 |
| CutHazard.LowCycleHazard | mpsoc/remove_cycle/helper_funs.py:35-63 | a cycle whose nodes all rank below -10000 is a hazard, whatever else there is |
| CutHazard.ScoredPieces | mpsoc/remove_cycle/remove_cycle_edges_by_hierarchy_greedy.py:67-74 | all nodes of the big components have scores exactly if all nodes on cycles have |
| SccBreaker.BothTooHigh | mpsoc/remove_cycle/helper_funs.py:35-63 | two nodes on a cycle scored 20000 and 20001: every run fails, with an empty list of lowest scores |
| SccBreaker.OneHighScore | mpsoc/remove_cycle/helper_funs.py:35-63 | two nodes on a cycle scored 20000 and 0: no run fails |
| SccBreaker.CutAll | mpsoc/remove_cycle/remove_cycle_edges_by_hierarchy_greedy.py:43-65 | the worklist loop terminates; all that it removes lay on cycles and was the worst of one by the scores, and no cycle is left, unless it fails at a hazard |
| CutStrategy.PickEdge | mpsoc/remove_cycle/remove_cycle_edges_by_hierarchy_voting.py:11-17 | the running maximum ends at an edge of greatest weight, and finds none exactly if all weights are below -1 |
| CutStrategy.PickFromDict | mpsoc/remove_cycle/helper_funs.py:35-63 | the keys returned have the greatest and the least value; none are found exactly if all values are below -10000 or all above 10000 |
| CutStrategy.Choose | mpsoc/remove_cycle/remove_cycle_edges_by_hierarchy_BF.py:11-27 | each strategy cuts a non-empty set of edges of the piece, a heaviest edge or the out- or in-edges of the chosen node (by `CutMeaning.ChosenSensible`, the edge that drops furthest, and so on), and fails exactly if nothing can be picked |
| SccBreaker.FilterBigScc | mpsoc/remove_cycle/s_c_c.py:4-17 | the pieces are the components of two or more nodes of the graph without the cut edges |
| SccPieces.StepInv | mpsoc/remove_cycle/remove_cycle_edges_by_minimum_feedback_arc_set_greedy.py:50-56 | cutting one piece and replacing it by its components keeps every remaining cycle inside one piece |
| SccPieces.CycleInBigSubgraph | mpsoc/remove_cycle/s_c_c.py:11-17 | every cycle lies in a component of at least two nodes |
| SccPieces.PieceEdgeOnCycle | mpsoc/remove_cycle/s_c_c.py:11-17 | every edge of a strongly connected piece lies on a cycle |
| SccPieces.EdgesAround | mpsoc/remove_cycle/remove_cycle_edges_by_hierarchy_BF.py:20-27 | in a strongly connected piece of two or more nodes edges lead out of and into every node, so each cut removes something |
| SccPieces.TotalBigSubgraphs | mpsoc/remove_cycle/remove_cycle_edges_by_hierarchy_BF.py:44-48 | the pieces have at most the edges of the graph together: the termination measure |
| SynfullNet.ReactInv | mpsoc/src_c/synfull/traffic-generator/src/TrafficGenerator.cpp:278-391 | every delivery, in any order and with any random draws, keeps the protocol invariant, and finds the entry of its transaction |
| SynfullNet.ErasedExactlyWhenQuiet | mpsoc/src_c/synfull/traffic-generator/src/TrafficGenerator.cpp:388-390 | the entry of a read or write exists exactly while something bearing its address is queued or in the network |
| SynfullNet.DeliveredHasEntry | mpsoc/src_c/synfull/traffic-generator/src/TrafficGenerator.cpp:292 | a delivered packet always finds its transaction |
| SynfullNet.NotCompleted | mpsoc/src_c/synfull/traffic-generator/src/TrafficGenerator.cpp:388-390 | only the last acknowledgement or the unblock completes a transaction; an answer never does |
| SynfullNet.MessageBound | mpsoc/src_c/synfull/traffic-generator/src/TrafficGenerator.cpp:313-338 | a read or write sends at most four messages and two per invalidation |
| SynfullNet.InvalidationsInv | mpsoc/src_c/synfull/traffic-generator/src/TrafficGenerator.cpp:324-338 | queueing the invalidations of a forwarded write keeps the invariant and counts each of them once |
| SynfullNet.ServedInv | mpsoc/src_c/synfull/traffic-generator/src/TrafficGenerator.cpp:297-349 | an initiating request answered from memory or forwarded keeps the invariant |
| SynfullNet.AnswerInv | mpsoc/src_c/synfull/traffic-generator/src/TrafficGenerator.cpp:350-381 | a packet replaced by its answer keeps the invariant: the token moves on, an invalidation becomes an acknowledgement |
| SynfullNet.AbsorbInv | mpsoc/src_c/synfull/traffic-generator/src/TrafficGenerator.cpp:382-390 | an acknowledgement or unblock that completes its transaction leaves nothing behind; otherwise the books still balance |
| SynfullNet.TokenUnique | mpsoc/src_c/synfull/traffic-generator/src/TrafficGenerator.cpp:297-363 | when the outstanding request or data is delivered, no other initiating request of the transaction exists |
| SynfullNet.ReactPast | mpsoc/src_c/synfull/traffic-generator/src/TrafficGenerator.cpp:310-381 | every answer is queued for a later cycle |
| SynfullNet.ReactPackets | mpsoc/src_c/synfull/traffic-generator/src/TrafficGenerator.cpp:279-287 | exactly the delivered packet leaves the network |
| SynfullNet.SendInv | mpsoc/src_c/synfull/traffic-generator/src/TrafficGenerator.cpp:123-135 | sending a queued packet, new transaction or not, keeps the invariant |
| SynfullNet.InjectInv | mpsoc/src_c/synfull/traffic-generator/src/TrafficGenerator.cpp:267-276 | sending everything queued for a cycle and dropping the slot keeps the invariant |
| SynfullNet.LaunchedPackets | mpsoc/src_c/synfull/traffic-generator/src/TrafficGenerator.cpp:267-276 | a cycle's packets get consecutive ids in queue order and keep their contents, a new transaction taking its id as address |
| SynfullNet.InitiateInv | mpsoc/src_c/synfull/traffic-generator/src/TrafficGenerator.cpp:201-254 | queueing a new request keeps the invariant |
| SynfullRoutes.ReactRouted | mpsoc/src_c/synfull/traffic-generator/src/TrafficGenerator.cpp:278-391 | in every reachable state, of all packets queued or in the network: requests that start a transaction go from its requester to its home node, forwarded requests and invalidations come from the home node, data and acknowledgements go to the requester, the unblock from the requester to the home node; delivery in any order keeps this |
| SynfullRoutes.ReactAnswers | mpsoc/src_c/synfull/traffic-generator/src/TrafficGenerator.cpp:278-391 | a delivery queues exactly the answers `Answers` lists, address by address and in order: data from memory after 80 cycles, the forwarded request with one invalidation per drawn node of a write, data, acknowledgement, writeback acknowledgement or unblock in the next cycle; its own packet leaves, its own entry changes, and goes when all invalidations are acknowledged and data and unblock have arrived |
| SynfullRoutes.InjectRouted | mpsoc/src_c/synfull/traffic-generator/src/TrafficGenerator.cpp:267-276 | sending everything queued for a cycle keeps all routes; a packet without address starts a transaction between its own ends |
| SynfullRoutes.SendRouted | mpsoc/src_c/synfull/traffic-generator/src/TrafficGenerator.cpp:123-135 | sending one packet keeps all routes |
| SynfullRoutes.ServedForward | mpsoc/src_c/synfull/traffic-generator/src/TrafficGenerator.cpp:303-338 | a forwarded request goes to the drawn node, and a write is followed by the invalidations, each counted |
| SynfullRoutes.ServedMemory | mpsoc/src_c/synfull/traffic-generator/src/TrafficGenerator.cpp:340-347 | a request served from memory is answered to its sender 80 cycles later |
| SynfullRoutes.InvalidationsQueued | mpsoc/src_c/synfull/traffic-generator/src/TrafficGenerator.cpp:324-338 | one invalidation to each drawn node, in order, joins the queue, and nothing else in it changes |
| SynfullRoutes.InvalidationsRouted | mpsoc/src_c/synfull/traffic-generator/src/TrafficGenerator.cpp:324-338 | invalidations keep all routes and the ends of the transaction |
| SynfullRoutes.AnswerRouted | mpsoc/src_c/synfull/traffic-generator/src/TrafficGenerator.cpp:350-381 | an answer that fits its transaction keeps all routes |
| SynfullRoutes.EnqueueAllConcat | mpsoc/src_c/synfull/traffic-generator/src/PacketQueue.cpp:28-30 | queueing two lists one after the other is queueing their concatenation |
| Synfull.Generator.React | mpsoc/src_c/synfull/traffic-generator/src/TrafficGenerator.cpp:278-391 | an unknown id changes nothing; a known one takes exactly its packet out of the network, queues exactly the answers the protocol asks for (`SynfullRoutes.Answers`: who to, type, size and delay), updates the entry of its transaction alone and erases it exactly when complete; every packet in the system still runs between the nodes of its transaction, and nothing is queued into the past |
| Synfull.Generator.Handle | mpsoc/src_c/synfull/traffic-generator/src/TrafficGenerator.cpp:285-390 | the branches of the reaction compute the reaction function, of which `SynfullRoutes.ReactAnswers` says what it does |
| Synfull.Generator.Serve | mpsoc/src_c/synfull/traffic-generator/src/TrafficGenerator.cpp:297-349 | the early-returning branch: memory answer after 80 cycles, or forward and invalidations in the next |
| Synfull.Generator.Invalidate | mpsoc/src_c/synfull/traffic-generator/src/TrafficGenerator.cpp:332-337 | one invalidation per chosen node, each counted |
| Synfull.Generator.Inject | mpsoc/src_c/synfull/traffic-generator/src/TrafficGenerator.cpp:267-276 | exactly the packets queued for this cycle are sent, and nothing stays queued for it or earlier |
| Synfull.Generator.SendPacket | mpsoc/src_c/synfull/traffic-generator/src/TrafficGenerator.cpp:123-135 | the packet gets the next id, and without address starts a transaction |
| Synfull.Generator.Put | mpsoc/src_c/synfull/traffic-generator/src/PacketQueue.cpp:28-30 | the packet is appended to the list of its time |
| Synfull.Generator.QueuePacket | mpsoc/src_c/synfull/traffic-generator/src/TrafficGenerator.cpp:185-199 | the packet described by the arguments is appended to the list of its time |
| Synfull.Generator.InjectUniformly | mpsoc/src_c/synfull/traffic-generator/src/TrafficGenerator.cpp:207-217 | exactly the requested number of initiating requests of one type and size is queued, from even to odd nodes, and nothing else |
| Synfull.Generator.InitiateOne | mpsoc/src_c/synfull/traffic-generator/src/TrafficGenerator.cpp:201-217 | one new request of the type and size from an even to an odd node, an even number of cycles ahead, joins the queue |
| Synfull.Generator.InitiateMessages | mpsoc/src_c/synfull/traffic-generator/src/TrafficGenerator.cpp:257-265 | writes, reads, clean and dirty writebacks are queued in the drawn numbers, in this order, the dirty ones alone in long packets, and nothing else changes |
| Synfull.Generator.Eject | mpsoc/src_c/synfull/traffic-generator/src/TrafficGenerator.cpp:395-415 | deliveries in any order remove exactly the delivered packets; it stops only at an unknown id |
| Synfull.Generator.Run | mpsoc/src_c/synfull/traffic-generator/src/TrafficGenerator.cpp:447-500 | every run, whatever is drawn and delivered, keeps conservation of messages and their routes in every cycle |
| Netrace.Simulator.Run | mpsoc/src_c/netrace-1.0/main.c:171-302 | the cycle loop exits on every well-formed trace; then all queues are empty, packets read equal packets ejected, each was injected and ejected exactly once, injected at its source not before its cycle nor less than eight cycles after the ejection of the packets it had to wait for, ejected at its destination, after every packet naming it had been ejected and at the earliest one latency after its injection, where the latency is that of a shortest way over the grid; short of the packet limit these are at least all packets up to the last cycle of the trace |
| Netrace.Simulator.Step | mpsoc/src_c/netrace-1.0/main.c:178-301 | one cycle; a cycle that moves nothing has found every queue empty or leaves something due later |
| Netrace.Simulator.Move | mpsoc/src_c/netrace-1.0/main.c:230-297 | injection, ejection and waking never add work, and if they find all queues empty all queues are empty |
| Netrace.Simulator.PlaceAll | mpsoc/src_c/netrace-1.0/main.c:183-228 | all packets of this cycle are placed, and no packet is ever read too late |
| Netrace.Simulator.PlaceNext | mpsoc/src_c/netrace-1.0/main.c:202-220 | the packet goes to the injection queue if its dependencies are cleared, else to the waiting queue, and the next one is read |
| Netrace.Simulator.Enqueue | mpsoc/src_c/netrace-1.0/main.c:209-215 | the packet is pushed at its source node with its time as priority |
| Netrace.Simulator.InjectNode | mpsoc/src_c/netrace-1.0/main.c:231-252 | if the head is due exactly it goes into the network, by the one injection step; otherwise nothing changes |
| Netrace.Simulator.InjectAll | mpsoc/src_c/netrace-1.0/main.c:230-253 | over all nodes; if nothing moved no head was due |
| Netrace.Simulator.Launch | mpsoc/src_c/netrace-1.0/main.c:242-244 | the head leaves the injection queue and is due at its destination exactly after its latency, which `NetraceSchedule.TimingIsLatency` identifies |
| Netrace.Simulator.EjectNode | mpsoc/src_c/netrace-1.0/main.c:258-273 | if the head has arrived exactly it is ejected and freed, by the one ejection step; otherwise nothing changes |
| Netrace.Simulator.EjectAll | mpsoc/src_c/netrace-1.0/main.c:257-274 | over all nodes; if nothing moved no head had arrived |
| Netrace.Simulator.Free | mpsoc/src_c/netrace-1.0/main.c:268-271 | the packet is counted, its dependents lose a reference each, and it is gone |
| Netrace.Simulator.WakeNode | mpsoc/src_c/netrace-1.0/main.c:278-296 | after the scan of a waiting queue, during which entries are removed, no packet left in it is cleared |
| Netrace.Simulator.WakeAll | mpsoc/src_c/netrace-1.0/main.c:276-297 | afterwards no waiting packet has all its predecessors ejected |
| Netrace.Simulator.WakeOne | mpsoc/src_c/netrace-1.0/main.c:281-294 | one entry is woken exactly if its dependencies are cleared |
| Netrace.Simulator.Wake | mpsoc/src_c/netrace-1.0/main.c:285-293 | the packet moves from the waiting to the injection queue, due after the L2 latency |
| Netrace.Simulator.ReadPacket | mpsoc/src_c/netrace-1.0/netrace.c:214-284 | the packet's own node names it, and each dependency entry adds one reference |
| Netrace.Simulator.DependenciesCleared | mpsoc/src_c/netrace-1.0/netrace.c:380-392 | cleared when there is no node or its count is zero |
| Netrace.Simulator.ClearDependenciesFreePacket | mpsoc/src_c/netrace-1.0/netrace.c:394-436 | each dependency loses one reference and the packet's node goes; neither error branch is taken |
| Netrace.StillDue | mpsoc/src_c/netrace-1.0/main.c:178-302 | no packet is ever stuck: with nothing due now, something is due later or everything is empty |
| Netrace.QuietDone | mpsoc/src_c/netrace-1.0/main.c:178-302 | with all queues empty, the packets injected, the packets ejected and the packets placed are the same |
| Netrace.StalledBlocked | mpsoc/src_c/netrace-1.0/main.c:276-297 | a waiting queue whose entries are all uncleared holds only packets with an unejected predecessor |
| NetraceSchedule.TimingIsLatency | mpsoc/src_c/netrace-1.0/main.c:322-330 | the latency is the router latency times the number of steps of a shortest way between nodes next to each other in rows and columns, and times one if source and destination are equal, exactly |
| NetraceTiming.HopsShortest | mpsoc/src_c/netrace-1.0/main.c:323-327 | the sum of the two coordinate distances is the length of a shortest way over the grid |
| NetraceTiming.NoneShorter | mpsoc/src_c/netrace-1.0/main.c:323-327 | no way over the grid is shorter than that |
| NetraceTiming.WayExists | mpsoc/src_c/netrace-1.0/main.c:323-327 | a way of that length exists that stays among the nodes, even if the last row is not full |
| NetraceSchedule.FlightsDue | mpsoc/src_c/netrace-1.0/main.c:242-244 | in every state of a run a packet in the network is due exactly one latency after its injection |
| NetraceSchedule.TimelyDelayed | mpsoc/src_c/netrace-1.0/main.c:242-273 | every ejection comes at least one latency, measured by shortest ways, after the injection |
| NetraceSchedule.PlaceScheduled | mpsoc/src_c/netrace-1.0/main.c:202-220 | a packet placed is not due before its cycle |
| NetraceSchedule.InjectScheduled | mpsoc/src_c/netrace-1.0/main.c:231-252 | packets enter at their source, not before their cycle and not within eight cycles of the ejection of a packet they waited for |
| NetraceSchedule.EjectScheduled | mpsoc/src_c/netrace-1.0/main.c:258-273 | packets leave at their destination; nothing already released is delayed by it |
| NetraceSchedule.WakeScheduled | mpsoc/src_c/netrace-1.0/main.c:278-296 | a woken packet is due eight cycles later, which is late enough for all it waited for |
| NetraceSchedule.NotNamed | mpsoc/src_c/netrace-1.0/main.c:278-296 | no packet in flight is waited for by one that has been released |
| NetraceWorld.OldestFree | mpsoc/src_c/netrace-1.0/main.c:178-302 | the oldest packet that is placed and not freed is never blocked |
| NetraceWorld.NoneStuck | mpsoc/src_c/netrace-1.0/main.c:178-302 | if no waiting packet may go and nothing is on its way, every placed packet has been freed |
| NetraceWorld.PlaceInv | mpsoc/src_c/netrace-1.0/main.c:202-220 | placing keeps each packet in exactly the queue of its stage |
| NetraceWorld.InjectInv | mpsoc/src_c/netrace-1.0/main.c:231-252 | injection keeps that, and that no packet leaves before its predecessors are freed |
| NetraceWorld.EjectInv | mpsoc/src_c/netrace-1.0/main.c:258-273 | ejection keeps it |
| NetraceWorld.WakeInv | mpsoc/src_c/netrace-1.0/main.c:278-296 | waking keeps it |
| NetraceRefs.ClearedReleased | mpsoc/src_c/netrace-1.0/netrace.c:380-392 | the cleared test answers exactly whether every packet naming this one has been freed |
| NetraceRefs.ReadCounted | mpsoc/src_c/netrace-1.0/netrace.c:249-278 | after a read, every count is the number of dependency entries naming the id among packets read and not freed |
| NetraceRefs.FreeCounted | mpsoc/src_c/netrace-1.0/netrace.c:394-436 | freeing a released packet keeps that and meets neither error branch |
| NetraceRefs.ReferCount | mpsoc/src_c/netrace-1.0/netrace.c:269-276 | the references added are the occurrences in the list |
| NetraceRefs.UnreferCount | mpsoc/src_c/netrace-1.0/netrace.c:403-428 | the references taken off are the occurrences in the list, none below zero |
| NetraceLog.InjectLog | mpsoc/src_c/netrace-1.0/main.c:231-252 | an injection extends the log causally |
| NetraceLog.EjectLog | mpsoc/src_c/netrace-1.0/main.c:258-273 | an ejection extends the log no sooner than the latency after the injection |
| NetraceState.HeadsEarliest | mpsoc/src_c/netrace-1.0/main.c:233-261 | in every state of a run, the earliest packet is at the head of its queue: the head is not due exactly if nothing in the queue is |
| NetraceState.PlaceGood | mpsoc/src_c/netrace-1.0/main.c:202-220 | placing keeps the whole invariant, the order of every queue included, and leaves less to do |
| NetraceState.InjectGood | mpsoc/src_c/netrace-1.0/main.c:231-252 | injection keeps the whole invariant and leaves less to do |
| NetraceState.EjectGood | mpsoc/src_c/netrace-1.0/main.c:258-273 | ejection keeps the whole invariant and leaves less to do |
| NetraceState.WakeGood | mpsoc/src_c/netrace-1.0/main.c:278-296 | waking keeps the whole invariant and leaves less to do |
| DependencyTable.Dependencies.Get | mpsoc/src_c/netrace-1.0/netrace.c:366-378 | the search of the chain finds the node of the id, or there is none in the table |
| DependencyTable.Dependencies.Add | mpsoc/src_c/netrace-1.0/netrace.c:286-307 | the map the table stands for gains the id with count zero |
| DependencyTable.Dependencies.Update | mpsoc/src_c/netrace-1.0/netrace.c:255-275 | a write through a node pointer changes exactly that entry of the map |
| DependencyTable.Dependencies.Remove | mpsoc/src_c/netrace-1.0/netrace.c:337-364 | the map loses the id and the packet of its node is returned; an absent id changes nothing |
| DependencyTable.AddTable | mpsoc/src_c/netrace-1.0/netrace.c:286-307 | a node at the end of its chain is a new key of the map |
| DependencyTable.RemoveTable | mpsoc/src_c/netrace-1.0/netrace.c:345-357 | unlinking a node removes exactly its key |
| DependencyTable.UpdateTable | mpsoc/src_c/netrace-1.0/netrace.c:366-378 | changing a node changes exactly its key |
| NetQueue.Queue.Push | mpsoc/src_c/netrace-1.0/queue.c:86-128 | the contents of the linked list become those with the entry before the first of no smaller priority; links stay consistent |
| NetQueue.Queue.PopFront | mpsoc/src_c/netrace-1.0/queue.c:138-150 | the first element is returned and leaves, none if the queue is empty; the new head keeps a meaningless back link |
| NetQueue.Queue.Remove | mpsoc/src_c/netrace-1.0/queue.c:152-180 | the first entry with the element leaves a queue that has not been popped |
| NetQueue.Queue.Link | mpsoc/src_c/netrace-1.0/queue.c:109-122 | the node is linked at its place in all three cases |
| NetQueue.Queue.Unlink | mpsoc/src_c/netrace-1.0/queue.c:156-172 | the node is unlinked at head, tail or between |
| NetQueue.Queue.PeekFront | mpsoc/src_c/netrace-1.0/queue.c:130-136 | the first entry is returned, none if the queue is empty |
| NetQueue.Queue.Empty | mpsoc/src_c/netrace-1.0/queue.c:51-53 | true exactly when there are no entries |
| NetQueue.PushSorted | mpsoc/src_c/netrace-1.0/queue.c:107-122 | pushing keeps the order of priorities and adds exactly the entry |
| NetQueue.RemoveSorted | mpsoc/src_c/netrace-1.0/queue.c:154-178 | removing keeps the order and takes out one entry |
| NetQueue.HeadEarliest | mpsoc/src_c/netrace-1.0/main.c:233-236 | in a queue in order of priority the head is not due exactly if nothing in it is |
| NetQueueBank.Bank.Push | mpsoc/src_c/netrace-1.0/main.c:158-169 | a push on one node's queue leaves all others as they are |
| NetQueueBank.Bank.PopFront | mpsoc/src_c/netrace-1.0/main.c:158-169 | a pop on one node's queue leaves all others as they are |
| NetQueueBank.Bank.Remove | mpsoc/src_c/netrace-1.0/main.c:280-287 | a removal leaves the other queues and the nodes behind the removed one as they are, so the scan can go on |
| HexRoundTrip.RoundTripOne | mpsoc/src_c/ihex2bin/kk_ihex_write.c:108-239 | one start address and contiguous bytes that fit 32 bits are read back at exactly those addresses with no checksum error, across 64 KiB boundaries, for every line length, first announcement forced or not |
| HexRoundTrip.RoundTripExactly | mpsoc/src_c/ihex2bin/kk_ihex_write.c:164-176 | for any regions each started by its own seek, what is read back is what was written if and only if no region is written while the upper half of its address is unannounced |
| HexRoundTrip.RoundTripGuard | mpsoc/src_c/ihex2bin/kk_ihex_write.c:169-173 | without empty regions, what is read back is what was written if and only if no seek clears a pending overflow flag |
| HexRoundTrip.NoneForgottenAnnounced | mpsoc/src_c/ihex2bin/kk_ihex_write.c:169-173 | every upper half is announced in time exactly if no seek clears a pending overflow flag |
| HexRoundTrip.BufferSharp | mpsoc/src_c/ihex2bin/kk_ihex_write.c:131-140 | once the buffer has left, a pending overflow flag always stands for an upper half that has not been announced |
| HexRoundTrip.ForgottenOverflow | mpsoc/src_c/ihex2bin/kk_ihex_write.c:169-173 | one byte at 0xFFFF, then a seek to 0x10000 and one byte: the second byte is read back elsewhere |
| HexRoundTrip.RoundTripFrom | mpsoc/src_c/ihex2bin/kk_ihex_write.c:108-239 | the equivalence from any state of the writer the reader has followed |
| HexRoundTrip.Misplaced | mpsoc/src_c/ihex2bin/kk_ihex_write.c:169-173 | the first line of a region with an unannounced upper half is stored at another address |
| HexRoundTrip.FlushRead | mpsoc/src_c/ihex2bin/kk_ihex_write.c:108-161 | what a flush adds for the reader: the buffered bytes, at the address the announced upper half and the line give |
| HexRoundTrip.FlushTarget | mpsoc/src_c/ihex2bin/kk_ihex_write.c:131-140 | the overflow flag is set exactly when the next line needs an announcement |
| HexPrograms.BinToHex | mpsoc/src_c/ihex2bin/bin2ihex.c:108-120 | a program writing its input in chunks of any size produces, letter by letter, the standard text: for every 32 bytes a line of type 00, before it a line of type 04 whenever the upper half of the address is not the one announced last, each with the byte that brings its sum to zero, and at the end ":00000001FF"; and this text reads back as its input |
| HexPrograms.HexToBin | mpsoc/src_c/ihex2bin/kk_ihex_read.c:170-178 | reading in pieces of any size hands over the records of the whole text; what each line does is said by `HexStandard.ReadText` and `StoredText` |
| HexStandard.ReadText | mpsoc/src_c/ihex2bin/kk_ihex_read.c:60-168 | any line of a colon, hexadecimal digits for length, address, type and data, and a last byte, right or wrong, is handed over once with exactly these contents, flagged exactly if its bytes do not sum to zero; a right one of type 04 sets the upper half of the address to its two bytes, one of type 02 the segment, and nothing else does |
| HexStandard.StoredText | mpsoc/src_c/ihex2bin/kk_ihex.h:164 | the bytes of a right line of type 00 are stored from linear address plus sixteen times segment on, in 32 bits; those of a wrong one are not |
| HexStandard.ReadDigits | mpsoc/src_c/ihex2bin/kk_ihex_read.c:100-121 | digits count in upper and lower case; any other character but the colon is skipped |
| HexStandard.RegionText | mpsoc/src_c/ihex2bin/kk_ihex_write.c:108-239 | the whole text of a region, for every line length, is the standard one |
| HexStandard.BodyText | mpsoc/src_c/ihex2bin/kk_ihex_write.c:108-233 | the lines of contiguous bytes, each announced exactly when the upper half of its address is not the one announced last |
| HexStandard.FlushText | mpsoc/src_c/ihex2bin/kk_ihex_write.c:108-161 | what a flush writes: one line of type 00 for the low half of the address, after one of type 04 if an overflow is pending |
| HexStandard.AnnouncementText | mpsoc/src_c/ihex2bin/kk_ihex_write.c:88-104 | the announcement of an upper half is ":02000004", its four digits and the byte that brings the sum to zero |
| HexStandard.DataText | mpsoc/src_c/ihex2bin/kk_ihex_write.c:124-160 | a data line carries type 00 |
| HexStandard.EndText | mpsoc/src_c/ihex2bin/kk_ihex_write.c:68-86 | the end of the file is ":00000001FF" |
| HexReader.ReadLine | mpsoc/src_c/ihex2bin/kk_ihex_read.c:60-168 | reading any record line, with right or wrong last byte, hands it over once, with a mismatch exactly if the byte is wrong |
| HexReader.ReadRecord | mpsoc/src_c/ihex2bin/kk_ihex_read.c:92-168 | reading a written record hands over its type, address and bytes once, with a matching checksum, and ends between records; an extended address takes effect |
| HexReader.ReadCharValid | mpsoc/src_c/ihex2bin/kk_ihex_read.c:92-168 | no character, in any state, leads out of the buffer |
| HexReader.ReadHeader | mpsoc/src_c/ihex2bin/kk_ihex_read.c:122-152 | the four header bytes set length, address and type, whatever was read before |
| HexReader.ReadData | mpsoc/src_c/ihex2bin/kk_ihex_read.c:153-159 | data bytes fill the buffer in order |
| HexReader.ReadHexByte | mpsoc/src_c/ihex2bin/kk_ihex_read.c:100-121 | two digits make one byte, whatever the scratch cell held |
| HexReader.EventsGrow | mpsoc/src_c/ihex2bin/kk_ihex_read.c:60-90 | records handed over stay handed over |
| HexReader.Reader.ReadByte | mpsoc/src_c/ihex2bin/kk_ihex_read.c:92-168 | the state machine on its array computes the value-level step |
| HexReader.Reader.Accept | mpsoc/src_c/ihex2bin/kk_ihex_read.c:122-164 | the switch on a complete byte computes the value-level step |
| HexReader.Reader.Finish | mpsoc/src_c/ihex2bin/kk_ihex_read.c:60-90 | the record is checked and handed over, and an accepted extended address takes effect, as `HexStandard.ReadText` says for literal lines |
| HexReader.Reader.ReadBytes | mpsoc/src_c/ihex2bin/kk_ihex_read.c:170-178 | the characters are read one after another |
| HexWriter.PutSplit | mpsoc/src_c/ihex2bin/kk_ihex_write.c:206-233 | the state, and so the text, depends on the bytes alone, not on how they are split over calls |
| HexWriter.PutLine | mpsoc/src_c/ihex2bin/kk_ihex_write.c:206-212 | bytes beyond the line length leave as records of exactly that length |
| HexWriter.FlushFirst | mpsoc/src_c/ihex2bin/kk_ihex_write.c:219-232 | flushing a full line early makes no difference once more bytes come |
| HexWriter.Writer.WriteData | mpsoc/src_c/ihex2bin/kk_ihex_write.c:108-161 | the buffered bytes leave as one record, after an extended address record if the flag is set (the two lines of `HexStandard.FlushText`), and the flag is set again when the address overflows |
| HexWriter.Writer.WriteExtendedAddress | mpsoc/src_c/ihex2bin/kk_ihex_write.c:88-104 | the text of the extended address record, checksum included |
| HexWriter.Writer.DataLine | mpsoc/src_c/ihex2bin/kk_ihex_write.c:124-160 | the text of the data record, which fits the write buffer |
| HexWriter.Writer.WriteAtAddress | mpsoc/src_c/ihex2bin/kk_ihex_write.c:163-176 | pending bytes leave, and the flag becomes whether the upper halves differ |
| HexWriter.Writer.WriteByte | mpsoc/src_c/ihex2bin/kk_ihex_write.c:206-212 | one byte is buffered, a full line leaving first |
| HexWriter.Writer.WriteBytes | mpsoc/src_c/ihex2bin/kk_ihex_write.c:214-233 | copying line by line equals writing the bytes one by one |
| HexWriter.Writer.EndWrite | mpsoc/src_c/ihex2bin/kk_ihex_write.c:235-239 | the rest and the end of file record follow |
| HexFormat.RecordFits | mpsoc/src_c/ihex2bin/kk_ihex_write.c:110-160 | every record fits the write buffer with its terminator |
| HexFormat.ChecksumCancels | mpsoc/src_c/ihex2bin/kk_ihex_write.c:156-157 | a checksum is the one byte that brings the sum to zero |
| FatTree.RowMeaning | mpsoc/src_verilator/topology/fattree.h:90-118 | the link arithmetic, whatever its channel constant, joins a down port to the router below whose position has one digit exchanged with the port, and names both routers by kind and number |
| FatTree.UpPortsOnce | mpsoc/src_verilator/topology/fattree.h:103-118 | every up port is the lower end of exactly one down port: each level is a bijection |
| FatTree.PortsOnce | mpsoc/src_verilator/topology/fattree.h:112-118 | no two rows share a down port or an up port |
| FatTree.TableIsFatTree | mpsoc/src_verilator/topology/fattree.h:90-137 | the table holds a row for every down port of every router but those of the lowest level, and nothing else |
| FatTree.RowLeadsDown | mpsoc/src_verilator/topology/fattree.h:112-118 | the router numbers of a row are those of the two routers |
| FatTree.IdInjective | mpsoc/src_verilator/topology/fattree.h:112-113 | different routers have different numbers |
| FatTree.Topology.TopologyInit | mpsoc/src_verilator/topology/fattree.h:75-154 | the loops produce the rows in order, attach every endpoint, and tell the routers of each row their own addresses and numbers |
| FatTree.Topology.ConnectPort | mpsoc/src_verilator/topology/fattree.h:104-134 | one row, the address of its upper router, and on the lowest level that of its lower router |
| FatTree.AllLabelled | mpsoc/src_verilator/topology/fattree.h:119-132 | after the loops every router has been told its own address and number, provided there is more than one level |
| FatTree.EndpointAddress | mpsoc/src_verilator/topology/fattree.h:142-148 | the address an endpoint carries is that of the router it is attached to |
| FatTree.AddressParts | mpsoc/src_verilator/topology/fattree.h:119-122 | a router's address splits into its level, counted from the lowest, and the code of its position, from which the position is decoded; the width is the least positive one that holds a digit |
| FatTree.Topology.ConnectLevel | mpsoc/src_verilator/topology/fattree.h:98-135 | the rows of one level, position by position and port by port |
| FatTree.Topology.AttachEndpoints | mpsoc/src_verilator/topology/fattree.h:138-149 | endpoint e goes to router e/K of the lowest level, port e mod K, with that router's address |
| FatTree.Power | mpsoc/src_verilator/topology/topology_top.h:54-61 | the loop computes the power |
| FatTreeCode.CodecRoundTrip | mpsoc/src_verilator/topology/fattree.h:30-65 | decoding inverts encoding on all positions of the given number of digits |
| FatTreeCode.FieldIsDigit | mpsoc/src_verilator/topology/fattree.h:30-44 | field i of a code, of the least number of bits that holds a digit, is digit i of the position |
| FatTreeCode.AddrEncode | mpsoc/src_verilator/topology/fattree.h:30-44 | the loop of shifts and ors computes the digits in bit fields |
| FatTreeCode.AddrDecode | mpsoc/src_verilator/topology/fattree.h:46-65 | the loop of masks and products computes the value of the fields |
| FatTreeCode.FieldWidth | mpsoc/src_verilator/topology/fattree.h:33-34 | the width is the least that holds a digit |
| FatTreeRoutes.DescentReaches | mpsoc/src_verilator/topology/fattree.h:90-137 | descending by the destination's digits reaches its router exactly from routers that agree with it on the higher digits, so from every top router |
| FatTreeRoutes.DistanceIsShortest | mpsoc/src_verilator/topology/fattree.h:185-200 | between different endpoints the distance function is the number of routers on a shortest way through the generated table, and zero from an endpoint to itself |
| FatTreeRoutes.WiresAdjacent | mpsoc/src_verilator/topology/fattree.h:90-137 | the table wires exactly the routers of which one leads down to the other |
| FatTreeRoutes.GetMahDistance | mpsoc/src_verilator/topology/fattree.h:185-200 | the loop finds the highest differing digit, and with it the length of a shortest way through the generated table |
| FatTreeRoutes.UpDownPath | mpsoc/src_verilator/topology/fattree.h:185-200 | the way straight up and down by digits is a path of that many routers |
| FatTreeRoutes.PathAtLeast | mpsoc/src_verilator/topology/fattree.h:185-200 | a path on which a digit changes has climbed to the level of that digit and come down again |
| FatTreeRoutes.LeafAttached | mpsoc/src_verilator/topology/fattree.h:138-149 | the table attaches an endpoint to the router of its digits but the lowest, by that router's kind-wise number, at the port of its lowest digit |
| MeshLinks.TableSymmetric | mpsoc/src_verilator/topology/mesh.h:252-266 | for every line, ring, mesh, torus, fmesh and 3-D mesh the link table contains each row's reverse, and no port twice |
| MeshLinks.EndPortsOnce | mpsoc/src_verilator/topology/mesh.h:207-250 | no two endpoints share a router port, and no endpoint sits on the port of a link |
| MeshLinks.ThereAndBack | mpsoc/src_verilator/topology/mesh.h:252-266 | the neighbour's opposite link leads back |
| MeshLinks.LinkNumbers | mpsoc/src_verilator/topology/mesh.h:252-266 | the links by number: east (port 1) leads to the west port (3, or 2 in one dimension) of the router numbered one higher, south (4) to the north port (2) of the router a row on, up (5) to the down port (6) of the router a floor on |
| MeshLinks.BackNumbers | mpsoc/src_verilator/topology/mesh.h:252-266 | and west, north and down the same way back |
| MeshLinks.EndNumbers | mpsoc/src_verilator/topology/mesh.h:240-250 | endpoints are numbered router by router, the first at port 0, the others behind the ports of the links |
| MeshLinks.EdgeNumbers | mpsoc/src_verilator/topology/mesh.h:73-101 | the edge endpoints of an fmesh follow: north, south, west, east |
| MeshLinks.EndKind | mpsoc/src_verilator/topology/mesh.h:244-250 | an endpoint is given back by its router and port |
| MeshLinks.PortsPartitioned | mpsoc/src_verilator/topology/mesh.h:207-267 | every router port towards a direction is used exactly once: by a link, by an edge endpoint, or by the ground |
| MeshLinks.RouterAddressPacked | mpsoc/src_verilator/topology/mesh.h:236-238 | the address of a router is that of its local endpoint 0 |
| MeshLinks.Topology.TopologyInit | mpsoc/src_verilator/topology/mesh.h:220-273 | the loops produce the table in order of router numbers, attach every endpoint once, ground the border ports, and give every router its address and every endpoint that of its router |
| MeshLinks.Topology.ConnectRouter | mpsoc/src_verilator/topology/mesh.h:236-266 | the address, endpoints, links and grounded ports of one router |
| MeshLinks.Topology.ConnectLinks | mpsoc/src_verilator/topology/mesh.h:252-266 | the directions of one router in order |
| MeshLinks.Topology.Connect | mpsoc/src_verilator/topology/mesh.h:207-218 | one direction: a link, or at the border a wrapped link, an edge endpoint with its router's address, or the ground |
| MeshLinks.Topology.AttachLocals | mpsoc/src_verilator/topology/mesh.h:244-250 | the local endpoints of one router, with its address |
| MeshCode.AddressRoundTrip | mpsoc/src_verilator/topology/mesh.h:178-192 | decoding inverts encoding on every endpoint, the edge endpoints of an fmesh included |
| MeshCode.PackRoundTrip | mpsoc/src_verilator/topology/mesh.h:116-145 | packing and unpacking coordinates and local port lose nothing |
| MeshCode.PackFields | mpsoc/src_verilator/topology/mesh.h:116-129 | the bits of an address: x lowest, above it y in two and z in three dimensions, the local port on top, each field as narrow as its range allows but of one bit at least |
| MeshCode.RouterRoundTrip | mpsoc/src_verilator/topology/mesh.h:47-48 | coordinates determine the router number and are given back by it |
| MeshDistance.GetMahDistance | mpsoc/src_verilator/topology/mesh.h:276-292 | the result counts the links of a shortest way through the generated table on every line and mesh; on a ring or torus exactly when the routers are at most half way round apart in each direction |
| MeshDistance.HopsAreShortest | mpsoc/src_verilator/topology/mesh.h:252-266 | a way of that many links through the generated table exists and none is shorter |
| MeshDistance.WiresAdjacent | mpsoc/src_verilator/topology/mesh.h:252-266 | the table wires exactly the routers that are next to each other |
| MeshDistance.ApartIsHops | mpsoc/src_verilator/topology/mesh.h:276-292 | the coordinate distance is the least number of links exactly without wrapping links or at most half way round |
| MeshDistance.RingOfThree | mpsoc/src_verilator/topology/mesh.h:276-292 | on a ring of three the table links the first and the last router, which are at distance two |
| Vthread.AllDone | mpsoc/src_verilator/simulator.cpp:866-906 | when the main thread is through, in every interleaving, each call of the evaluation has reset and evaluated every endpoint and every router, each call of the copy has copied every row of the link table and attached every endpoint, each call of the update has updated every router, each exactly once and nothing else; calls have followed one another without overlap; and within a call the reset of a node came before its evaluation |
| Vthread.NoOverlap | mpsoc/src_verilator/simulator.cpp:747-825 | all threads at work are in the phase the main thread has called |
| Vthread.ActInv | mpsoc/src_verilator/simulator.cpp:747-906 | every atomic step of every thread keeps the invariant |
| Vthread.NeverStuck | mpsoc/src_verilator/simulator.cpp:866-906 | until the main thread is through some thread can do more than spin |
| Vthread.StepNearer | mpsoc/src_verilator/simulator.cpp:866-906 | every step that changes anything, other than a worker's reading a flag in vain, brings the calls nearer to their end |
| Vthread.SpinHarmless | mpsoc/src_verilator/simulator.cpp:752 | reading a flag in vain changes nothing but the reader's place in its loop |
| Vthread.CallDone | mpsoc/src_verilator/simulator.cpp:872 | when all flags have fallen every task of the call has been done |
| Vthread.ActionNew | mpsoc/src_verilator/simulator.cpp:752-795 | no action is done twice in a call |
| Vthread.ResetDone | mpsoc/src_verilator/simulator.cpp:753-793 | when a thread comes to the evaluation of a node, its reset is already in the log |
| Vthread.Run | mpsoc/src_verilator/simulator.cpp:826-836 | the invariant holds after any sequence of turns |
| ThreadBlocks.ItemsPartition | mpsoc/src_verilator/simulator.cpp:841-854 | for any number of threads the work lists of a phase cover each of its tasks, listed by node and kind (`Due`), exactly once, and nothing else |
| ThreadBlocks.ResetEarlier | mpsoc/src_verilator/simulator.cpp:753-793 | in the work list of a thread the reset of a node comes before its evaluation |
| ThreadBlocks.BlockIff | mpsoc/src_verilator/simulator.cpp:846-847 | every node is in the block of exactly one thread |
| ThreadBlocks.RowsIff | mpsoc/src_verilator/simulator.cpp:797-804 | every row of the link table is copied by exactly the thread of its upper router |

## Left out

- FuzzyCompare.Comparer.Diag: the search for large snakes, compiled only with MINUS_H_FLAG, is not modelled.
- SccBreaker.BreakCycles: the order of the returned edges and their repetition before `set()` are not modelled; edges are a set.
- HexRoundTrip.RoundTripExactly: segmented addressing is not written, so the round trips have segment zero; `HexStandard.ReadText` and `StoredText` cover segments in what is read.
- HexPrograms.HexToBin: address offsets, underflow and the padding of the output file in ihex2bin.c are not modelled; the bytes are stored at their linear addresses.
- HexPrograms.BinToHex: for the default line length of 32 and a text that fits the 32-bit address space; writing past its end is not modelled.
- HexWriter.Writer.SetOutputLineLength: only called with an empty buffer, as the header of the library demands.
- Netrace.Simulator.Run: self-throttling, region seeking and the mode that ignores dependencies are not modelled.
- DependencyTable.Dependencies.Add: a chain is a sequence of nodes, so the pointers between its nodes are not modelled.
- Synfull.Generator.Run: the Markov chains and the steady-state exit are not modelled; a run ends with its script.
- Synfull.Generator.InitiateMessages: the spatial distributions are arbitrary draws.
- Synfull.Generator.Invalidate: the repeated drawing until enough distinct nodes are found is replaced by its result.
- SynfullNet.MessageBound: stated for reads and writes; writebacks never complete in the source, and their entries stay.
- Vthread.AllDone: what evaluating a router or endpoint does is opaque; the flat mode with a single model and the unthreaded loops for one thread are not modelled.
- Agony.Optimiser.Solve: ranks and counters are unbounded integers, the input graph is an immutable value, and the intrusive lists are duplicate-free sequences.
- The binary tree generator (tree.h): its address codec and distance function are those of the fat tree on a simpler table.
- The star and custom topologies, the Verilated models, flit contents, latency statistics and plots.
- ProNoC_Tgen.cpp: the same protocol with a queue that discards packets.
- JTAG programs, UART terminal and processor support code: they drive hardware that is not visible.
- Score computations (PageRank, TrueSkill) and quality measures: scores are arbitrary numbers.
- File, pipe and socket I/O, argument parsing, printing and allocation failures.
