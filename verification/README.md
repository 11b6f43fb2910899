# Verified model of the topology graph engine and four stateful services

This project models, in Dafny, the in-memory service graph of the topology module and the
algorithms that run on it, together with four small stateful services of the same repository:
the alert record buffer, the intent router, the circuit breaker and the impact precompute queue.

`topology/` holds the graph engine:

- `Domain`, `Walks`: identifiers, nodes and edges; walks, step counts, distances and simple
  paths in a finite relation, the vocabulary of every specification.
- `Graph`: the mutable graph with its node and edge tables and its two adjacency indexes.
- `Impact`: depth-bounded breadth-first search and impact analysis.
- `AllPaths`, `PathOrder`: exhaustive depth-first search for simple paths, and when the first
  path it meets is one of least latency, or with the fewest edges.
- `HopSearch`: breadth-first search with parent pointers, and the restricted search that finds
  spur paths.
- `WeightedSearch`, `AStar`: Dijkstra with lazy deletion and A* with a closed set, over one
  shared invariant.
- `AStarLimits`: for which heuristics A* finds lightest paths on every graph.
- `Rebuilds`: graphs rebuilt from records without irregularities, on which inputs are shown.
- `Totals`: the reported weight of a path when several edges join the same two services.
- `Deviations`, `KPaths`: every run that the k-paths search can take and what all of them promise;
  the search itself, proved to take one of these runs.
- `KPathsLimits`, `KPathsRepeats`: for which weights it finds the lightest paths, and for which
  requests it never repeats a path.
- `Cycles`, `Clusters`, `CriticalPath`, `Agreement`: cycle detection, weak components, the
  critical path, and the agreement of the searches with each other.

`Sequences` holds notions that several modules share. `services/` holds `AlertBuffer` (a step
system over lock and channel operations), `Tokens` and `IntentRouter`, `CircuitBreaker`, and
`PrecomputeQueue`.

How the model reads the code:

- Identifiers only have equality. A hop of a path is its identifier; the names that the code
  copies into hops are not kept. Weights, scores and rates are exact real numbers.
- The order in which a Go map is enumerated is unknown: the methods that enumerate return some
  order, and every result holds for all of them.
- The container/heap slice is a multiset of entries from which a pop takes some entry of least
  cost, so results hold for every way of breaking ties.
- Reading an absent key of the distance map gives zero, as in Go. With non-negative weights this
  is why the weighted searches never enter a node that is not in the graph, and why their results
  speak of the arcs between present nodes (`PresentArcs`). The breadth-first and depth-first
  searches follow the adjacency index instead, which may name absent nodes; results say which
  arcs they use. Where the two are compared, every edge must start at a present node
  (`SourcesPresent`); edges to absent targets, which discovery does produce, are allowed. For the
  k-paths search, where an absent source matters, the exact condition is stated
  (`PresentIsLightest`).
- Removed edges are kept as strings "source->target" in the code and as pairs here; the strings
  determine the pairs.
- Long loops and loop bodies are separate methods with a functional contract; the steps are the same.
- In the k-paths search the tests for an empty previous path and for empty results are never
  true and are dropped. That an accepted path sharing a root always has a next node, so that the
  next index is in range, is checked in `RemovedArcs`.

Where the code and its comments disagree the model follows the code:

- The comment on `ShortestPath` promises the path of least latency; the code presents the first
  path that the depth-first search meets. On a rebuilt triangle that is the slower and longer one
  (`FirstIsNotShortest`). Whatever paths are measured by, the first one measures least for every
  order of the edge records exactly when all bounded simple paths measure the same
  (`AlwaysLeastIff`); so it has the least latency exactly when all of them have the same
  (`AlwaysFastestIff`), and the fewest edges exactly when all are equally long
  (`AlwaysShortestIff`). Asking for no more hops than the distance is enough for the fewest edges
  (`ShortestWithinDistance`) but not for the least latency (`HopBoundNotEnough`).
- `FindKShortestPaths` is described as Yen's algorithm, but its spur search counts edges, ignores
  weights, and may pass through absent nodes, which the search for the first path does not. When
  edges that join the same two services weigh the same and more edges never make a path lighter,
  the results are the lightest paths in order of weight if and only if no stored path is lighter
  than a lightest one through present nodes (`InOrderIff`). Under the default weights that is so if
  and only if the distance through present nodes is the distance over all stored edges
  (`DefaultOrderlyIff`), as it is when every edge starts at a present node
  (`SourcesPresentLightest`) and is not where an absent node offers a shorter way
  (`ShortcutOutOfOrder`). Over all rebuilds from distinct records between present nodes, with
  weights from a given set, the results are the lightest paths exactly when the set holds no two
  different non-negative weights (`LightestIff`): for any two there is such a graph on which the
  search must leave out a lighter path (`HeavierPathReturned`).
- A* accepts any heuristic and never reopens a closed node. Every answer on every such rebuild is a
  lightest path if and only if the heuristic is constant, as the default one is (`TrustworthyIff`);
  one that drops by more than an edge weighs misleads it on three nodes (`MisledAnswer`).
- A new candidate is compared with accepted paths only, not with the heap, so a path can be
  returned twice: with four or more paths requested it must happen on one graph (`RepeatForced`),
  and with up to three it never does (`RepeatsIff`).
- `Route` is described as falling back from exact to substring matching; when the intent has no
  token the substring phase never runs and even a pool whose keyword is the intent is passed over
  (`RoutePassesOverHit`). It answers like a plain scan exactly for the intents with a character
  that is neither space nor separator (`RoutesLikeScanIff`).
- Adding a pool under an id in use, which registering a provider allows, leaves stale entries in
  the keyword index unless the new pool has all keywords of the old one (`AddKeepsMatchesIff`,
  and over whole runs `AlwaysExactIff`).
- Starting a stopped alert buffer again and stopping it again closes a closed channel
  (`RestartCrashes`, `CrashNeedsRestart`).

## Model

| member | source | states |
|---|---|---|
| Graph.InMemoryGraph.Rebuild | internal/topology/application/topology_service.go:955-976 | a rebuild replaces all tables and both indexes by those of the given records: every id has an entry and every entry is the last record with its id; the graph invariant is kept |
| Graph.NodeTableLast | internal/topology/application/topology_service.go:964-966 | a node record is the one stored under its id exactly when it is the last record with that id |
| Graph.EdgeTableLast | internal/topology/application/topology_service.go:968-969 | the same for edge records |
| Graph.InMemoryGraph.GetNode | internal/topology/application/topology_service.go:997-1001 | a node is returned exactly when its id is in the graph |
| Graph.InMemoryGraph.GetAllNodes | internal/topology/application/topology_service.go:1003-1012 | every node once, in an unknown order |
| Graph.InMemoryGraph.GetAllEdges | internal/topology/application/topology_service.go:1014-1023 | exactly the stored edges, each once, in an unknown order |
| Graph.InMemoryGraph.GetEdge | internal/topology/application/topology_service.go:1132-1141 | some stored edge joining the two services, none exactly when no stored edge does |
| Graph.IndexesCountRecords | internal/topology/application/topology_service.go:968-972 | each index lists a pair once per record that joins it |
| Graph.ForwardInOrder | internal/topology/application/topology_service.go:968-971 | the downstream list of a service under two record lists in a row is the one under the first followed by the one under the second |
| Graph.BackwardInOrder | internal/topology/application/topology_service.go:968-972 | so is the upstream list |
| Graph.ForwardOne | internal/topology/application/topology_service.go:968-971 | one record lists its target under its source and nothing else |
| Graph.RebuiltTransposed | internal/topology/application/topology_service.go:968-972 | after every rebuild the reverse index is the exact transpose of the forward one, with multiplicities |
| Graph.TransposedArcs | internal/topology/application/topology_service.go:1025-1047 | the upstream relation is the downstream relation reversed |
| Graph.UniqueIdsAgree | internal/topology/application/topology_service.go:968-972 | with unique edge ids the edge table and the adjacency index describe the same arcs |
| Impact.Bfs | internal/topology/application/graph_analyzer.go:118-147 | visited holds exactly the ids within maxDepth hops, each with its hop distance, and the search ends despite duplicate queue entries |
| Impact.Frontier | internal/topology/application/graph_analyzer.go:124-146 | at every turn whatever is closer than the whole queue has been visited |
| Impact.VisitHead | internal/topology/application/graph_analyzer.go:124-146 | visiting an id and queueing its unvisited neighbours keeps the search invariant |
| Impact.ListImpacted | internal/topology/application/graph_analyzer.go:66-82 | one entry per other present node in bounds, at its distance of at least one, and the reported depth is the maximum |
| Impact.AnalyzeImpact | internal/topology/application/graph_analyzer.go:43-108 | both directions complete and exact; any two listed impacts compare as depth, status and traffic demand; the two error cases |
| Impact.EntriesCompare | internal/topology/application/graph_analyzer.go:149-171 | for any two entries of any two analyses: alike in status and traffic, impact times depth agree, so the nearer one is higher; at one depth and traffic an unhealthy service has twice and one in warning one and a half times the impact of a healthy one; rates above 100 and above 1000 count 1.2 and 1.5 times; a healthy quiet neighbour has 1 |
| Impact.DepthCompares | internal/topology/application/graph_analyzer.go:150-150 | entries alike in status and traffic: impact times depth agree and the nearer one is strictly higher |
| Impact.ImpactDuality | internal/topology/application/graph_analyzer.go:63-103 | v is d hops downstream of u exactly when u is d hops upstream of v |
| Impact.ListedDistance | internal/topology/application/graph_analyzer.go:66-103 | being listed at depth d is being another present node at distance d within the bound |
| Walks.DistanceReverses | internal/topology/application/graph_analyzer.go:110-116 | hop distances are the same in the reversed graph |
| AllPaths.PathSearch.DfsPaths | internal/topology/application/graph_analyzer.go:215-255 | every call restores visited and currentPath and appends its paths in order |
| AllPaths.FindAllPaths | internal/topology/application/graph_analyzer.go:205-213 | the collected list of the whole search |
| AllPaths.AllPathsExact | internal/topology/application/graph_analyzer.go:205-255 | the list holds exactly the simple paths through present nodes of at most maxHops edges |
| AllPaths.AllPathsOnce | internal/topology/application/graph_analyzer.go:205-255 | each path once when no adjacency list repeats an entry |
| AllPaths.AllPathsInOrder | internal/topology/application/graph_analyzer.go:244-252 | of two paths the one that follows the earlier entry of the adjacency list where they part comes first |
| AllPaths.DistinctRecordsDistinctNeighbors | internal/topology/application/topology_service.go:968-972 | records that join distinct pairs give adjacency lists without repeats |
| AllPaths.FindPath | internal/topology/application/graph_analyzer.go:174-203 | all bounded simple paths in the order of the adjacency lists, or not found exactly when there is none; the path presented as shortest is the first found |
| PathOrder.FirstIsNotShortest | internal/topology/application/graph_analyzer.go:198-200 | on a graph rebuilt from three records the path presented as the one of least latency has more latency and more edges than another |
| PathOrder.AlwaysFastestIff | internal/topology/application/graph_analyzer.go:174-203 | with distinct edge ids the presented path has the least latency for every order of the edge records if and only if all bounded simple paths have the same latency |
| PathOrder.AlwaysShortestIff | internal/topology/application/graph_analyzer.go:174-203 | it has the fewest edges for every order of the edge records if and only if all bounded simple paths are equally long |
| PathOrder.AlwaysLeastIff | internal/topology/application/graph_analyzer.go:174-203 | the same for every way of measuring paths |
| PathOrder.HopBoundNotEnough | internal/topology/application/graph_analyzer.go:198-200 | on a graph rebuilt from four records a bound equal to the distance does not give the least latency |
| PathOrder.SomeOrderFinds | internal/topology/application/graph_analyzer.go:205-255 | every bounded simple path is the first one found for some order of the edge records |
| PathOrder.ShortestWithinDistance | internal/topology/application/graph_analyzer.go:174-203 | asking for no more hops than the distance makes the first path a shortest one |
| HopSearch.FindShortestPath | internal/topology/application/graph_analyzer.go:257-322 | the present nodes of a simple path with the fewest edges, exactly these and in order, or not found exactly when the target is unreachable; the walk along the parents ends |
| HopSearch.SearchHops | internal/topology/application/graph_analyzer.go:269-291 | the target is found exactly when reachable, at its distance, with a parent tree |
| HopSearch.NothingDropped | internal/topology/application/graph_analyzer.go:297-321 | when edges start at present nodes no node is dropped from the answer |
| HopSearch.PresentJoins | internal/topology/application/graph_analyzer.go:297-321 | leaving out the absent services goes part by part, so what remains keeps its order |
| HopSearch.PresentMembers | internal/topology/application/graph_analyzer.go:297-321 | each present service remains as often as it was there, no absent one does |
| HopSearch.FindSpurPath | internal/topology/application/graph_analyzer.go:1248-1329 | a simple path with the fewest edges among those that avoid the removed edges and nodes, or not found exactly when there is none |
| HopSearch.FinishHead | internal/topology/application/graph_analyzer.go:274-291 | expanding the head of the queue keeps the tree invariant |
| WeightedSearch.FindShortestPathWeighted | internal/topology/application/graph_analyzer.go:622-685 | a simple path of least weight among all walks for any non-negative weights and parallel edges; not found exactly when unreachable; terminates |
| WeightedSearch.PopOptimal | internal/topology/application/graph_analyzer.go:651-663 | a cheapest entry whose end is not closed carries the least weight of any walk there |
| WeightedSearch.RelaxKeeps | internal/topology/application/graph_analyzer.go:665-681 | following one edge keeps scores, entries and final distances consistent, and never lowers a final one |
| WeightedSearch.FinishClosing | internal/topology/application/graph_analyzer.go:664-681 | after the scan of all edges the invariant holds with the node closed |
| WeightedSearch.UnitCost | internal/topology/application/graph_analyzer.go:631-635 | with default weights the weight of a path is its number of edges |
| WeightedSearch.CostJoins | internal/topology/application/graph_analyzer.go:665-681 | the weights of two walks, one going on from the end of the other, add up |
| WeightedSearch.HeapPop | internal/topology/application/graph_analyzer.go:598-620 | a pop removes some entry of least cost |
| AStar.FindShortestPathAStar | internal/topology/application/graph_analyzer.go:1047-1106 | the answer is one of a run, a simple path for any heuristic, not found exactly when unreachable; of least weight for every consistent heuristic although closed nodes are never reopened |
| AStar.AnswersLightest | internal/topology/application/graph_analyzer.go:1047-1106 | every run with a consistent heuristic answers with a lightest path |
| AStarLimits.MisledAnswer | internal/topology/application/graph_analyzer.go:1047-1106 | where the heuristic drops by more than an edge weighs, every run on a rebuilt triangle answers with the heavier path |
| AStarLimits.TrustworthyIff | internal/topology/application/graph_analyzer.go:1047-1123 | every answer on every regular request is a lightest path if and only if the heuristic is constant |
| AStar.DefaultHeuristicValue | internal/topology/application/graph_analyzer.go:1108-1123 | the least positive weight below one, or one |
| AStar.ConstantConsistent | internal/topology/application/graph_analyzer.go:1120-1122 | the default heuristic, being constant, is consistent for all non-negative weights although it is not zero at the target |
| KPaths.FindKShortestPaths | internal/topology/application/graph_analyzer.go:789-881 | the answer is the outcome of a run: simple paths only, the first a lightest one, at most max(1, k), none missing when fewer than k come back, no repeats for k up to 3; for hop-monotone weights with agreeing parallel edges, in order of weight with no missing path lighter if and only if no stored path is lighter than a lightest one through present nodes, and under the default weights if and only if the distances over stored edges and through present nodes agree; totals sum one stored edge per step, and are the exact weights when parallel edges agree |
| KPaths.SpurAt | internal/topology/application/graph_analyzer.go:819-869 | one spur search gives a path with the fewest edges among those that leave the accepted ones at that index, priced by one stored edge per step and never a duplicate of an accepted path, or shows that there is none |
| KPaths.RemovedArcs | internal/topology/application/graph_analyzer.go:822-838 | the removed edges are exactly the next edges of accepted paths sharing the root; the next index is always in range |
| KPaths.SpurRound | internal/topology/application/graph_analyzer.go:819-869 | the spur searches from every index of the last path make up one round of a run |
| Deviations.RoundCovers | internal/topology/application/graph_analyzer.go:819-869 | after a round every path not accepted has a candidate in the heap that leaves no earlier and has no more edges |
| Deviations.TraceCovers | internal/topology/application/graph_analyzer.go:814-880 | every run keeps that cover and accepts simple paths only, each a deviation with the fewest edges |
| Deviations.Escapes | internal/topology/application/graph_analyzer.go:814-877 | a path that is not accepted leaves the accepted ones at some index |
| Deviations.PopKeepsCover | internal/topology/application/graph_analyzer.go:871-877 | accepting a candidate uncovers only deviations from that candidate |
| Deviations.EmptyHeapComplete | internal/topology/application/graph_analyzer.go:871-873 | an empty heap means that every simple path has been accepted |
| Deviations.PopKeepsLight | internal/topology/application/graph_analyzer.go:875-877 | with hop-monotone weights the popped candidate is no heavier than any path not yet accepted |
| Deviations.UniformHopMonotone | internal/topology/application/graph_analyzer.go:798-800 | equal weights are hop-monotone |
| Deviations.DefaultOrderlyIff | internal/topology/application/graph_analyzer.go:798-800 | under the default weights a problem with a first path is orderly if and only if the distance through present nodes is the distance over all stored edges |
| Deviations.SourcesPresentLightest | internal/topology/application/graph_analyzer.go:802-869 | when every edge starts at a present node no stored path to a present target is lighter than a lightest one through present nodes |
| Deviations.MissingNotLighter | internal/topology/application/graph_analyzer.go:788-881 | every outcome of the search on an orderly problem is in order of weight, and no missing path is lighter than a returned one |
| Deviations.InOrderIff | internal/topology/application/graph_analyzer.go:788-881 | for hop-monotone weights with agreeing parallel edges an outcome is in order of weight if and only if no stored path is lighter than a lightest one through present nodes |
| KPathsLimits.ShortcutOutOfOrder | internal/topology/application/graph_analyzer.go:802-869 | on a graph rebuilt from five records, two of them through an absent node, no outcome under the default weights is in order of weight |
| Deviations.OutcomePromises | internal/topology/application/graph_analyzer.go:788-881 | every outcome, for any non-negative weights, holds simple paths from a lightest one on and misses none when it is short |
| Deviations.ThreeDistinct | internal/topology/application/graph_analyzer.go:859-877 | up to three results never repeat |
| Deviations.OutcomeExists | internal/topology/application/graph_analyzer.go:814-880 | every request with a first path has an outcome |
| KPaths.PathWeight | internal/topology/application/graph_analyzer.go:1214-1225 | the total is the sum of the weights of one stored edge for each step, a missing edge counting one |
| Totals.TotalBounds | internal/topology/application/graph_analyzer.go:1214-1225 | such a total is never less than the weight of the path, and equal to it when parallel edges agree |
| Totals.CostIsTotal | internal/topology/application/graph_analyzer.go:1214-1225 | the bound is tight |
| KPathsLimits.HeavierPathReturned | internal/topology/application/graph_analyzer.go:1259-1295 | on a rebuilt graph with a direct edge and two detours of n and n + 1 edges, weighing any two different weights with n large enough, the search asked for two paths must return the heavier detour and leave out the lighter one |
| KPathsLimits.LightestIff | internal/topology/application/graph_analyzer.go:798-880 | on all rebuilds from distinct records between present nodes with weights from a set, the search finds the lightest paths if and only if the set holds no two different non-negative weights |
| KPathsRepeats.RepeatForced | internal/topology/application/graph_analyzer.go:859-868 | on eight given arcs with default weights, whatever the records behind them, the search asked for four paths or more must return one of the three paths twice |
| KPathsRepeats.RepeatsIff | internal/topology/application/graph_analyzer.go:859-877 | the search never repeats a path on any regular request if and only if it is asked for at most three |
| Cycles.DetectCycles | internal/topology/application/graph_analyzer.go:432-445 | every reported list is a cycle reachable from a listed node; cutting each where it closes leaves no such cycle; the report is empty exactly when there is none; as many reported cycles close by going from u to v as v is listed under u, or none, so no two close alike when no list repeats an entry |
| Cycles.CycleSearch.FollowPath | internal/topology/application/graph_analyzer.go:463-473 | exactly one cycle is appended, the part of the path from the entry on |
| Cycles.CycleSearch.FollowArc | internal/topology/application/graph_analyzer.go:459-475 | following one entry closes one cycle at it when it is on the path and none otherwise, and leaves the counts of everything visited earlier alone |
| Cycles.ClosedHere | internal/topology/application/graph_analyzer.go:463-473 | one more cycle closes by going from the end of the path to the entry, and no count of any other pair changes |
| Cycles.ListedOnceReportedOnce | internal/topology/application/graph_analyzer.go:432-445 | when no adjacency list repeats an entry no two reported cycles close with the same arc |
| Cycles.CycleSearch.DfsCycle | internal/topology/application/graph_analyzer.go:447-479 | a call restores the path, keeps path and recursion stack equal as sets, and finishes its node |
| Cycles.Leave | internal/topology/application/graph_analyzer.go:477-478 | apart from the closing arcs of reported cycles the finishing order stays a reversed topological order |
| Cycles.OrderedNoCycle | internal/topology/application/graph_analyzer.go:447-479 | such an order excludes every cycle through a finished node |
| Cycles.ReportIsExact | internal/topology/application/graph_analyzer.go:432-445 | both directions of the exactness of the report, and the cut |
| Clusters.FindConnectedComponent | internal/topology/application/graph_analyzer.go:562-591 | each id connected to the start once and nothing else; visited stays a union of whole components |
| Clusters.FindClusters | internal/topology/application/graph_analyzer.go:542-560 | pairwise disjoint weak components of listed nodes with more than one member; a listed node is in one exactly when it is connected to something else |
| Clusters.AddComponent | internal/topology/application/graph_analyzer.go:550-557 | adding a component keeps the clusters disjoint and exact |
| CriticalPath.SortByImpact | internal/topology/application/graph_analyzer.go:988-994 | the array is sorted in place as the insertion sort function says |
| CriticalPath.SortedDescending | internal/topology/application/graph_analyzer.go:988-994 | descending by impact and a permutation |
| CriticalPath.SortedStable | internal/topology/application/graph_analyzer.go:988-994 | entries of equal impact keep their order |
| CriticalPath.BestPath | internal/topology/application/graph_analyzer.go:956-971 | a path to one target whose effective weights have the largest sum, with that sum, or nothing exactly when there is no bounded path |
| CriticalPath.ScoreJoins | internal/topology/application/graph_analyzer.go:958-964 | the scores of the parts of a path add up |
| CriticalPath.ScoreOfOne | internal/topology/application/graph_analyzer.go:959-963 | a present service scores its set weight, or that of its importance, an absent one nothing |
| CriticalPath.ScoreIsSum | internal/topology/application/graph_analyzer.go:958-964 | the score is the sum of the effective weights along the path |
| CriticalPath.FindCriticalPath | internal/topology/application/graph_analyzer.go:935-980 | the answer goes to the first node in impact order with a bounded path; its score is the sum of the effective weights along it and no bounded path there has a larger sum; no service with a bounded path has more impact than its target; it fails exactly when nothing is in reach |
| CriticalPath.AnswerTops | internal/topology/application/graph_analyzer.go:951-977 | the target of the answer is listed with an impact that no listed service with a bounded path exceeds |
| CriticalPath.ReachIsDistance | internal/topology/application/graph_analyzer.go:956-977 | when edges start at present nodes a present service is in reach exactly when its downstream distance is within maxDepth |
| Domain.ServiceNode.EffectiveWeight | internal/topology/domain/models.go:471-476 | the effective weight is always positive: the set weight when that is positive, else that of the importance |
| Domain.ImportanceOrder | internal/topology/domain/models.go:99-110 | critical 1, important 0.75, normal 0.5, edge 0.25, each above the next; unset counts as normal |
| Agreement.DistancesAgree | internal/topology/application/graph_analyzer.go:257-322 | hop search, default-weight Dijkstra and bounded search measure the same distance |
| Agreement.UnreachableAgree | internal/topology/application/graph_analyzer.go:622-685 | they find a target unreachable together |
| Agreement.DijkstraMeetsAStar | internal/topology/application/graph_analyzer.go:1047-1106 | Dijkstra and A* with a consistent heuristic fail together with the same error and otherwise answer with paths of equal weight |
| Agreement.ExhaustiveAgrees | internal/topology/application/graph_analyzer.go:205-255 | the exhaustive search finds a path exactly when the bound is at least the distance, and then the shortest one too |
| AlertBuffer.AlertRecordBuffer.AddLocked | internal/alerting/infrastructure/alert_buffer.go:88-92 | the record is appended, and the adder goes on to send exactly when the buffer then holds at least bufferSize records, as in the step system |
| AlertBuffer.AlertRecordBuffer.Signal | internal/alerting/infrastructure/alert_buffer.go:94-99 | the non-blocking send leaves one token in the channel |
| AlertBuffer.AlertRecordBuffer.SwapLocked | internal/alerting/infrastructure/alert_buffer.go:126-134 | the locked part of a flush takes the whole buffer and leaves it empty, or returns when it is empty |
| AlertBuffer.AlertRecordBuffer.StartLocked | internal/alerting/infrastructure/alert_buffer.go:63-70 | the buffer is running afterwards, and a loop is spawned exactly when it was not |
| AlertBuffer.AlertRecordBuffer.StopLocked | internal/alerting/infrastructure/alert_buffer.go:75-82 | the buffer is not running afterwards, and the call goes on to close exactly when it was |
| AlertBuffer.AlertRecordBuffer.CloseStopChannel | internal/alerting/infrastructure/alert_buffer.go:84-84 | closing panics exactly when the channel is closed already |
| AlertBuffer.AlertRecordBuffer.Receive | internal/alerting/infrastructure/alert_buffer.go:166-167 | the loop takes the token |
| AlertBuffer.StepInv | internal/alerting/infrastructure/alert_buffer.go:63-170 | every step of every goroutine keeps the whole invariant |
| AlertBuffer.SendsWhenFull | internal/alerting/infrastructure/alert_buffer.go:91-99 | a goroutine goes on to send a token exactly when it has added a record and the buffer then held at least bufferSize |
| AlertBuffer.StepKeepsLoops | internal/alerting/infrastructure/alert_buffer.go:156-170 | the flush loop runs from its spawn until it sees the channel closed; no flush and no failed write ends it |
| AlertBuffer.NothingLost | internal/alerting/infrastructure/alert_buffer.go:88-134 | in every interleaving the batches in swap order and then the buffer are exactly the records that the run adds, in order |
| AlertBuffer.WrittenAndOfferedOnce | internal/alerting/infrastructure/alert_buffer.go:136-154 | no batch is written twice and no record offered twice; a batch has failed exactly when its write did; only records of failed batches are offered and none without a queue; once no goroutine holds a batch all are written and, with a queue, every record of every failed batch was offered |
| AlertBuffer.StepFates | internal/alerting/infrastructure/alert_buffer.go:136-146 | every step keeps it that a failed batch is retried when there is a queue and dropped when there is none |
| AlertBuffer.StepStaysAwake | internal/alerting/infrastructure/alert_buffer.go:94-99 | a full buffer always has a token, an adder about to send one, or a flusher that has not swapped |
| AlertBuffer.FullBufferIsSwapped | internal/alerting/infrastructure/alert_buffer.go:156-170 | while the loop waits a full buffer is at most three steps from being swapped out, without the ticker |
| AlertBuffer.StopDrained | internal/alerting/infrastructure/alert_buffer.go:75-86 | when a stop has returned no record added before it is in the buffer, and a stop that closed the channel does return once no flush of its own is open |
| AlertBuffer.CrashNeedsRestart | internal/alerting/infrastructure/alert_buffer.go:63-86 | the process panics exactly on the second close, which takes two effective starts and stops; once no stop is about to close, exactly when two stops took effect |
| AlertBuffer.RestartCrashes | internal/alerting/infrastructure/alert_buffer.go:63-86 | start, stop, start, stop does panic |
| Tokens.Tokenize | internal/agent/infrastructure/eino/pool.go:162-179 | the tokens are those of fourteen passes of splitting, trimming and dropping empty parts, and those of a single cut at every separator |
| Tokens.PassesAreOne | internal/agent/infrastructure/eino/pool.go:162-179 | for any separators the passes together find exactly the trimmed non-empty parts, in order, that a single cut at all of them leaves |
| Tokens.SplitJoins | internal/agent/infrastructure/eino/pool.go:168-168 | the parts hold no separator and joined by it give the string back |
| Tokens.TrimIs | internal/agent/infrastructure/eino/pool.go:170-170 | trimming cuts off white space on both sides and leaves none at either end |
| Tokens.TokensAreSubstrings | internal/agent/infrastructure/eino/pool.go:162-179 | every token is a non-empty substring of the text without separators |
| Tokens.TokensExist | internal/agent/infrastructure/eino/pool.go:162-179 | there are tokens exactly when some character is neither space nor separator |
| IntentRouter.IntentRouter.AddPool | internal/agent/infrastructure/eino/pool.go:52-61 | the new pool table and index |
| IntentRouter.IntentRouter.RemovePool | internal/agent/infrastructure/eino/pool.go:64-89 | the new pool table and index, unchanged for an unknown id |
| IntentRouter.IntentRouter.Route | internal/agent/infrastructure/eino/pool.go:94-158 | for the intent with every character in lower case: a pool of greatest priority among those indexed under a token or with a keyword in it, else the fallback |
| IntentRouter.LowerIs | internal/agent/infrastructure/eino/pool.go:98-98 | lower-casing replaces every character by its lower case |
| IntentRouter.RouteIgnoresCase | internal/agent/infrastructure/eino/pool.go:94-158 | intents that agree letter by letter in lower case have the same possible answers |
| IntentRouter.HitIffOccurs | internal/agent/infrastructure/eino/pool.go:132-132 | a pool is hit exactly when one of its keywords occurs in the intent up to letter case |
| IntentRouter.KeywordIffLowered | internal/agent/infrastructure/eino/pool.go:57-60 | a pool has a keyword exactly when it is one of its own in lower case |
| IntentRouter.KeywordsIgnoreCase | internal/agent/infrastructure/eino/pool.go:57-60 | keywords that agree letter by letter in lower case are indexed alike and hit by the same intents |
| IntentRouter.RouteRefinesScan | internal/agent/infrastructure/eino/pool.go:94-158 | with an exact index and an intent that is more than spaces and separators, the possible answers are those of a plain scan |
| IntentRouter.RoutePassesOverHit | internal/agent/infrastructure/eino/pool.go:108-142 | any other intent goes to the fallback, even past a pool whose keyword it is |
| IntentRouter.RoutesLikeScanIff | internal/agent/infrastructure/eino/pool.go:94-158 | an intent is routed like a plain scan on every table whose index was kept exact if and only if it has a character that is neither space nor separator |
| IntentRouter.IndexAddsNothing | internal/agent/infrastructure/eino/pool.go:108-124 | the indexed phase adds no pool that the scan would not find |
| IntentRouter.AddThenRemove | internal/agent/infrastructure/eino/pool.go:52-89 | removing a just-added fresh pool restores the index exactly |
| IntentRouter.AddedOncePerKeyword | internal/agent/infrastructure/eino/pool.go:57-60 | an add appends the id under each keyword as often as the pool lists it and changes no other list |
| IntentRouter.AddKeepsMatchesIff | internal/agent/infrastructure/eino/pool.go:52-61 | adding keeps the index exact if and only if the id is fresh or no keyword of the replaced pool is dropped |
| IntentRouter.RemoveKeepsMatches | internal/agent/infrastructure/eino/pool.go:64-89 | removing keeps the index exact |
| IntentRouter.RunMatches | internal/agent/infrastructure/eino/pool.go:319-350 | over any run of adds and removes that drops no keyword, fresh adds among them, the index lists exactly the keywords of the pools |
| IntentRouter.AlwaysExactIff | internal/agent/infrastructure/eino/pool.go:52-89 | the index is exact throughout a run if and only if no add drops a keyword of the pool it replaces, which fresh ids never do |
| CircuitBreaker.CircuitBreaker.Execute | internal/topology/infrastructure/resilience/retry.go:160-188 | the new state, the reported changes and the outcome of one call |
| CircuitBreaker.CircuitBreaker.State | internal/topology/infrastructure/resilience/retry.go:196-201 | what callers are shown reads half-open exactly when the next call would be admitted on trial, and is the stored state otherwise |
| CircuitBreaker.RunFollowsStreak | internal/topology/infrastructure/resilience/retry.go:160-194 | between calls the breaker is open exactly when the failures since the last success reach the limit, half-open never survives, and the changes are a connected walk never going from open to closed |
| CircuitBreaker.RunReports | internal/topology/infrastructure/resilience/retry.go:160-194 | the changes that a run reports are those its calls call for, told from the failures before each: nothing when refused, the trial and its outcome when tripped, else only the failure that reaches the limit |
| CircuitBreaker.FailedTrialReports | internal/topology/infrastructure/resilience/retry.go:163-179 | with a limit of at most one a failure, the timeout and another failure report closed to open, open to half-open, half-open to open |
| CircuitBreaker.BlocksWhatIsRefused | internal/topology/infrastructure/resilience/retry.go:162-169 | a call is blocked exactly when the streak has reached the limit and its last failure is within the timeout |
| CircuitBreaker.OpensAtLimit | internal/topology/infrastructure/resilience/retry.go:172-178 | the number of failures in a row that opens the breaker, for every limit |
| CircuitBreaker.SuccessCloses | internal/topology/infrastructure/resilience/retry.go:183-187 | an admitted success closes the breaker and forgets the failures |
| PrecomputeQueue.ImpactPrecomputeQueue.Push | internal/topology/application/impact_cache.go:446-458 | the job goes before the first job of lower priority |
| PrecomputeQueue.ImpactPrecomputeQueue.Pop | internal/topology/application/impact_cache.go:460-471 | the first job is taken, none from an empty queue |
| PrecomputeQueue.RunIsStable | internal/topology/application/impact_cache.go:446-471 | after any run the queue is in order of priority and within a priority in order of arrival |
| PrecomputeQueue.PopsOldestBest | internal/topology/application/impact_cache.go:460-471 | a pop returns the oldest waiting job of greatest priority |
| PrecomputeQueue.RunConserves | internal/topology/application/impact_cache.go:446-471 | the queue holds exactly what was pushed and not popped |
| PrecomputeQueue.LengthCounts | internal/topology/application/impact_cache.go:473-477 | after any run the length is the number of pushes minus that of successful pops |

## Left out

- WeightedSearch.FindShortestPathWeighted: negative weights are not modelled. The map `prev`, written and never read, is dropped.
- AStar.FindShortestPathAStar: negative weights are not modelled.
- KPaths.FindKShortestPaths: negative weights are not modelled. For one graph with weights that are not hop-monotone no exact condition is given; `LightestIff` is exact over all regular graphs with weights from a set.
- KPaths.PathWeight: average latency and maximum error rate of a path are not modelled.
- Graph.InMemoryGraph.Rebuild: the version counter is unbounded, the update time and the network tables are not modelled.
- The read-write lock of the graph: a search is modelled on a graph that does not change while it runs; a rebuild between its reads is not modelled.
- `AnalyzeImpactWeighted`, whose reported depths are those of the last enumerated nodes, and the traversals in the topology service that share a visited map across depths.
- `FindAnomalies` thresholds, orphans, centrality and bottlenecks: single formulas on top of the searches.
- Impact and topology caches, discovery and merging, persistence, HTTP and telemetry.
- AlertBuffer: the ticker is a step that may happen at any time; the content of a record, the error value of a failed write and the outcome of an offer to the queue are not modelled.
- IntentRouter: lower-casing is a per-character parameter; the pools' tools, permissions and the registry around the router are not modelled.
- CircuitBreaker: concurrent calls are not modelled (the code has no lock); retry loops, delays and the bulkhead are left out.
