/** The searches agree with each other: adjacency index or edge table, bounded or
    not, weighted by default or counted in hops. */
module Agreement {
  import opened Domain
  import opened Walks
  import opened Graph
  import opened WeightedSearch
  import AStar
  import AllPaths
  import HopSearch
  import Impact

  /** When the tables agree and edges start at present nodes, scanning the edge table
      between present nodes and following the adjacency index see the same walks to
      any present node. */
  lemma SameWalks(g: Topology, p: seq<Uuid>, s: Uuid, t: Uuid)
    requires IndexedSourcesPresent(g) && Agreeing(g) && t in g.nodes
    ensures WalkFromTo(PresentArcs(g), p, s, t) <==> WalkFromTo(Arcs(g.adj), p, s, t)
  {
    if WalkFromTo(Arcs(g.adj), p, s, t) {
      WalkInside(Arcs(g.adj), g.nodes.Keys, p, s, t);
    }
  }

  /** The parent-pointer path, the default-weight Dijkstra path and the bounded
      search all measure the same distance. */
  lemma {:induction false} DistancesAgree(g: Topology, s: Uuid, t: Uuid, maxDepth: int, visited: map<Uuid, nat>,
                                          hops: seq<Uuid>, lightest: seq<Uuid>)
    requires IndexedSourcesPresent(g) && Agreeing(g) && t in g.nodes
    requires Impact.BoundedDistances(Arcs(g.adj), s, maxDepth, visited)
    requires HopSearch.ShortestPath(Arcs(g.adj), hops, s, t)
    requires LightestPath(PresentArcs(g), ArcWeights(g.edges, OrUnit(None)), lightest, s, t)
    ensures |hops| == |lightest|
    ensures Cost(ArcWeights(g.edges, OrUnit(None)), lightest) == (|hops| - 1) as real
    ensures t in visited <==> |hops| - 1 <= maxDepth
    ensures t in visited ==> visited[t] == |hops| - 1
  {
    hide Cost, ArcWeights, PresentArcs, Agreeing, Arcs;
    var E := Arcs(g.adj);
    SameWalks(g, lightest, s, t);
    SameWalks(g, hops, s, t);
    UnitCost(g.edges, hops);
    UnitCost(g.edges, lightest);
    WalkSteps(E, lightest, s, t);
    if t in visited {
      assert HopDistance(E, s, t, visited[t]);
      DistanceUnique(E, s, t, visited[t], |hops| - 1);
    }
  }

  /** All three find the target unreachable together. */
  lemma UnreachableAgree(g: Topology, s: Uuid, t: Uuid, maxDepth: int, visited: map<Uuid, nat>)
    requires IndexedSourcesPresent(g) && Agreeing(g) && t in g.nodes
    requires Impact.BoundedDistances(Arcs(g.adj), s, maxDepth, visited)
    requires !Reachable(PresentArcs(g), s, t)
    ensures !Reachable(Arcs(g.adj), s, t) && t !in visited
  {
    hide PresentArcs, Agreeing, Arcs;
    forall n: nat ensures !Steps(Arcs(g.adj), s, t, n) {
      if Steps(Arcs(g.adj), s, t, n) {
        var p := StepsWalk(Arcs(g.adj), s, t, n);
        SameWalks(g, p, s, t);
        WalkSteps(PresentArcs(g), p, s, t);
      }
    }
    VisitedReachable(Arcs(g.adj), s, maxDepth, visited, t);
  }

  lemma VisitedReachable(E: set<Arc>, s: Uuid, maxDepth: int, visited: map<Uuid, nat>, v: Uuid)
    requires Impact.BoundedDistances(E, s, maxDepth, visited)
    ensures v in visited ==> Reachable(E, s, v)
  {
    if v in visited {
      assert HopDistance(E, s, v, visited[v]);
    }
  }

  /** Dijkstra and A* with a consistent heuristic fail together, with the same error,
      and otherwise answer with paths of the same weight. */
  method DijkstraMeetsAStar(graph: InMemoryGraph?, source: Uuid, target: Uuid, weightFunc: Option<WeightFunc>,
                            heuristic: Heuristic)
    returns (dijkstra: Result<seq<Uuid>>, astar: Result<seq<Uuid>>)
    requires graph != null ==> graph.Valid() && NonNegative(graph.edges, OrUnit(weightFunc))
    requires graph != null ==> Consistent(graph.View(), OrUnit(weightFunc), heuristic)
    ensures dijkstra.Err? || astar.Err? ==> dijkstra == astar
    ensures dijkstra.Ok? ==>
              && graph != null && astar.Ok?
              && Cost(ArcWeights(graph.edges, OrUnit(weightFunc)), dijkstra.value)
                 == Cost(ArcWeights(graph.edges, OrUnit(weightFunc)), astar.value)
  {
    hide LightestPath, Reachable, SimplePath, Consistent, NonNegative, Cost;
    dijkstra := FindShortestPathWeighted(graph, source, target, weightFunc);
    astar := AStar.FindShortestPathAStar(graph, source, target, weightFunc, heuristic);
    if dijkstra.Ok? {
      SameWeight(PresentArcs(graph.View()), ArcWeights(graph.edges, OrUnit(weightFunc)),
                 dijkstra.value, astar.value, source, target);
    }
  }

  lemma SameWeight(E: set<Arc>, W: map<Arc, real>, p: seq<Uuid>, q: seq<Uuid>, s: Uuid, t: Uuid)
    requires LightestPath(E, W, p, s, t) && LightestPath(E, W, q, s, t)
    ensures Cost(W, p) == Cost(W, q)
  {
  }

  /** The exhaustive search with a bound of at least the distance contains the
      parent-pointer path; with a smaller bound it finds nothing. */
  lemma ExhaustiveAgrees(g: Topology, s: Uuid, t: Uuid, maxHops: int, hops: seq<Uuid>)
    requires IndexedSourcesPresent(g) && t in g.nodes && HopSearch.ShortestPath(Arcs(g.adj), hops, s, t)
    ensures hops in AllPaths.PathsThrough(g, [], s, t, maxHops) <==> |hops| - 1 <= maxHops
    ensures AllPaths.PathsThrough(g, [], s, t, maxHops) == [] <==> |hops| - 1 > maxHops
  {
    hide AllPaths.PathsThrough;
    var paths := AllPaths.PathsThrough(g, [], s, t, maxHops);
    WalkInside(Arcs(g.adj), g.nodes.Keys, hops, s, t);
    AllPaths.AllPathsExact(g, s, t, maxHops, hops);
    if paths != [] {
      assert paths[0] in paths;
      AllPaths.AllPathsExact(g, s, t, maxHops, paths[0]);
      WalkSteps(Arcs(g.adj), paths[0], s, t);
    }
  }
}
