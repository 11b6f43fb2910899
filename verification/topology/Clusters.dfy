/** Clusters: the weakly connected components with more than one member. */
module Clusters {
  import opened Domain
  import opened Sequences
  import opened Walks
  import opened Graph

  /** The arcs of the graph in both directions. */
  ghost function Undirected(g: Topology): set<Arc> {
    Arcs(g.adj) + Arcs(g.rev)
  }

  ghost predicate Symmetric(U: set<Arc>) {
    forall a :: a in U ==> Arc(a.dst, a.src) in U
  }

  lemma UndirectedSymmetric(g: Topology)
    requires Transposed(g)
    ensures Symmetric(Undirected(g))
  {
    TransposedArcs(g);
    forall a | a in Undirected(g) ensures Arc(a.dst, a.src) in Undirected(g) {
      if a in Arcs(g.adj) {
        assert Arc(a.dst, a.src) in Reverse(Arcs(g.adj));
      }
    }
  }

  lemma ReachableBack(U: set<Arc>, u: Uuid, v: Uuid)
    requires Symmetric(U) && Reachable(U, u, v)
    ensures Reachable(U, v, u)
  {
    var n: nat :| Steps(U, u, v, n);
    StepsReverse(U, u, v, n);
    StepsMonotone(Reverse(U), U, v, u, n);
  }

  lemma ReachableOn(U: set<Arc>, u: Uuid, v: Uuid, w: Uuid)
    requires Reachable(U, u, v) && Reachable(U, v, w)
    ensures Reachable(U, u, w)
  {
    var m: nat :| Steps(U, u, v, m);
    var n: nat :| Steps(U, v, w, n);
    StepsCompose(U, u, v, w, m, n);
  }

  lemma ReachableArc(U: set<Arc>, s: Uuid, u: Uuid, v: Uuid)
    requires Reachable(U, s, u) && Arc(u, v) in U
    ensures Reachable(U, s, v)
  {
    var n: nat :| Steps(U, s, u, n);
    assert Steps(U, s, v, n + 1);
  }

  lemma ReachableSelf(U: set<Arc>, s: Uuid)
    ensures Reachable(U, s, s)
  {
    assert Steps(U, s, s, 0);
  }

  /** `visited` is a union of whole components. */
  ghost predicate WholeComponents(U: set<Arc>, visited: set<Uuid>) {
    forall a :: a in U && a.src in visited ==> a.dst in visited
  }

  lemma ClosedReach(U: set<Arc>, visited: set<Uuid>, s: Uuid, v: Uuid)
    requires WholeComponents(U, visited) && s in visited && Reachable(U, s, v)
    ensures v in visited
  {
    var n: nat :| Steps(U, s, v, n);
    ClosedKeepsReachable(U, visited, s, v, n);
  }

  /** `c` lists, once each, exactly what is connected to `s`. */
  ghost predicate IsComponent(U: set<Arc>, s: Uuid, c: seq<Uuid>) {
    Distinct(c) && forall v :: v in c <==> Reachable(U, s, v)
  }

  // ---- One component ----

  ghost predicate GrowInv(U: set<Arc>, s: Uuid, before: set<Uuid>, visited: set<Uuid>, component: seq<Uuid>,
                          queue: seq<Uuid>)
  {
    && Distinct(component)
    && (forall v :: v in component ==> v !in before && Reachable(U, s, v))
    && (forall v :: v in queue ==> Reachable(U, s, v))
    && (forall v :: v in visited <==> v in before || v in component)
    && (s in visited || s in queue)
    && (forall u, v :: u in component && Arc(u, v) in U ==> v in visited || v in queue)
  }

  /** The unvisited entries of a neighbour list, in order. */
  ghost function Unvisited(visited: set<Uuid>, nexts: seq<Uuid>): (r: seq<Uuid>)
    ensures forall v :: v in r <==> v in nexts && v !in visited
  {
    if nexts == [] then []
    else Unvisited(visited, nexts[..|nexts| - 1])
         + if nexts[|nexts| - 1] in visited then [] else [nexts[|nexts| - 1]]
  }

  method EnqueueUnvisited(queue: seq<Uuid>, visited: set<Uuid>, nexts: seq<Uuid>) returns (longer: seq<Uuid>)
    ensures longer == queue + Unvisited(visited, nexts)
  {
    longer := queue;
    for i := 0 to |nexts|
      invariant longer == queue + Unvisited(visited, nexts[..i])
    {
      assert nexts[..i + 1][..i] == nexts[..i];
      if nexts[i] !in visited {
        longer := longer + [nexts[i]];
      }
    }
    assert nexts[..|nexts|] == nexts;
  }

  lemma SkipVisited(U: set<Arc>, s: Uuid, before: set<Uuid>, visited: set<Uuid>, component: seq<Uuid>, queue: seq<Uuid>)
    requires GrowInv(U, s, before, visited, component, queue) && queue != [] && queue[0] in visited
    ensures GrowInv(U, s, before, visited, component, queue[1..])
  {
    hide Reachable;
    assert forall v :: v in queue <==> v == queue[0] || v in queue[1..];
  }

  lemma VisitNext(U: set<Arc>, s: Uuid, before: set<Uuid>, visited: set<Uuid>, component: seq<Uuid>, queue: seq<Uuid>,
                  more: seq<Uuid>)
    requires GrowInv(U, s, before, visited, component, queue) && queue != [] && queue[0] !in visited
    requires forall v :: v in more <==> Arc(queue[0], v) in U && v !in visited + {queue[0]}
    ensures GrowInv(U, s, before, visited + {queue[0]}, component + [queue[0]], queue[1..] + more)
  {
    hide Reachable;
    assert forall v :: v in queue <==> v == queue[0] || v in queue[1..];
    forall v | v in more ensures Reachable(U, s, v) {
      ReachableArc(U, s, queue[0], v);
    }
    assert forall i :: 0 <= i < |component| ==> component[i] in component;
  }

  lemma GrownWhole(U: set<Arc>, s: Uuid, before: set<Uuid>, visited: set<Uuid>, component: seq<Uuid>)
    requires Symmetric(U) && WholeComponents(U, before) && s !in before
    requires GrowInv(U, s, before, visited, component, [])
    ensures IsComponent(U, s, component) && WholeComponents(U, visited)
  {
    hide Reachable;
    forall v | Reachable(U, s, v) ensures v in component {
      ClosedReach(U, visited, s, v);
      if v in before {
        ReachableBack(U, s, v);
        ClosedReach(U, before, v, s);
      }
    }
  }

  method FindConnectedComponent(graph: InMemoryGraph, start: Uuid, before: set<Uuid>)
    returns (component: seq<Uuid>, visited: set<Uuid>)
    requires graph.Valid() && start !in before
    requires WholeComponents(Undirected(graph.View()), before)
    ensures IsComponent(Undirected(graph.View()), start, component)
    ensures WholeComponents(Undirected(graph.View()), visited)
    ensures forall v :: v in visited <==> v in before || v in component
  {
    hide Reachable, Unvisited, GrowInv, Undirected;
    ghost var U := Undirected(graph.View());
    component, visited := [], before;
    var queue := [start];
    StartGrowing(U, start, before);
    while |queue| > 0
      invariant GrowInv(U, start, before, visited, component, queue)
      decreases ({start} + set a | a in U :: a.dst) - visited, |queue|
    {
      var current := queue[0];
      if current in visited {
        SkipVisited(U, start, before, visited, component, queue);
        queue := queue[1..];
        continue;
      }
      QueueInside(U, start, before, visited, component, queue);
      assert current in ({start} + set a | a in U :: a.dst) - visited;
      var downstream, upstream := graph.GetDownstreamIDs(current), graph.GetUpstreamIDs(current);
      ghost var more := Unvisited(visited + {current}, downstream) + Unvisited(visited + {current}, upstream);
      UndirectedNeighbors(graph.View(), current);
      VisitNext(U, start, before, visited, component, queue, more);
      visited := visited + {current};
      component := component + [current];
      var longer := EnqueueUnvisited(queue[1..], visited, downstream);
      assert queue[1..] + more == longer + Unvisited(visited, upstream);
      queue := EnqueueUnvisited(longer, visited, upstream);
    }
    UndirectedSymmetric(graph.View());
    GrownWhole(U, start, before, visited, component);
    GrownVisited(U, start, before, visited, component);
  }

  lemma StartGrowing(U: set<Arc>, s: Uuid, before: set<Uuid>)
    ensures GrowInv(U, s, before, before, [], [s])
  {
    ReachableSelf(U, s);
  }

  lemma GrownVisited(U: set<Arc>, s: Uuid, before: set<Uuid>, visited: set<Uuid>, component: seq<Uuid>)
    requires GrowInv(U, s, before, visited, component, [])
    ensures forall v :: v in visited <==> v in before || v in component
  {
  }

  lemma UndirectedNeighbors(g: Topology, u: Uuid)
    ensures forall v :: Arc(u, v) in Undirected(g) <==> v in Neighbors(g.adj, u) || v in Neighbors(g.rev, u)
  {
    NeighborArcs(g.adj, u);
    NeighborArcs(g.rev, u);
  }

  lemma QueueInside(U: set<Arc>, s: Uuid, before: set<Uuid>, visited: set<Uuid>, component: seq<Uuid>, queue: seq<Uuid>)
    requires GrowInv(U, s, before, visited, component, queue) && queue != []
    ensures queue[0] in {s} + set a | a in U :: a.dst
  {
    assert queue[0] in queue;
    var n: nat :| Steps(U, s, queue[0], n);
    if n > 0 {
      var u :| Steps(U, s, u, n - 1) && Arc(u, queue[0]) in U;
    }
  }

  // ---- All clusters ----

  /** `c` is the component of some listed node and has more than one member. */
  ghost predicate IsCluster(g: Topology, c: seq<Uuid>) {
    |c| > 1 && exists n :: n in g.nodes && IsComponent(Undirected(g), n, c)
  }

  ghost predicate InSome(clusters: seq<seq<Uuid>>, v: Uuid) {
    exists i :: 0 <= i < |clusters| && v in clusters[i]
  }

  ghost predicate Disjoint(clusters: seq<seq<Uuid>>) {
    forall i, j, v :: 0 <= i < j < |clusters| && v in clusters[i] ==> v !in clusters[j]
  }

  /** The clusters are pairwise disjoint components of listed nodes, and a listed
      node is in one of them exactly when something else is connected to it. */
  ghost predicate ExactClusters(g: Topology, clusters: seq<seq<Uuid>>) {
    && (forall i :: 0 <= i < |clusters| ==> IsCluster(g, clusters[i]))
    && Disjoint(clusters)
    && (forall n :: n in g.nodes ==> (InSome(clusters, n) <==> Connected(Undirected(g), n)))
  }

  ghost predicate Connected(U: set<Arc>, n: Uuid) {
    exists v :: v != n && Reachable(U, n, v)
  }

  /** What holds after some of the listed nodes have been handled. */
  ghost predicate ClusterInv(g: Topology, visited: set<Uuid>, clusters: seq<seq<Uuid>>) {
    && WholeComponents(Undirected(g), visited)
    && (forall i :: 0 <= i < |clusters| ==> IsCluster(g, clusters[i]))
    && (forall v :: InSome(clusters, v) ==> v in visited)
    && Disjoint(clusters)
    && (forall v :: v in visited ==> (InSome(clusters, v) <==> Connected(Undirected(g), v)))
  }

  lemma ComponentMembers(U: set<Arc>, s: Uuid, c: seq<Uuid>, v: Uuid)
    requires Symmetric(U) && IsComponent(U, s, c) && v in c
    ensures |c| > 1 <==> Connected(U, v)
  {
    hide Reachable;
    ReachableBack(U, s, v);
    if |c| > 1 {
      var x := if c[0] == v then c[1] else c[0];
      assert x in c && x != v;
      ReachableOn(U, v, s, x);
    }
    if Connected(U, v) {
      var x :| x != v && Reachable(U, v, x);
      ReachableOn(U, s, v, x);
      assert x in c;
    }
  }

  lemma InSomeSnoc(clusters: seq<seq<Uuid>>, c: seq<Uuid>, v: Uuid)
    ensures InSome(clusters + [c], v) <==> InSome(clusters, v) || v in c
  {
    var longer := clusters + [c];
    assert longer[|clusters|] == c;
    if InSome(clusters, v) {
      var i :| 0 <= i < |clusters| && v in clusters[i];
      assert v in longer[i];
    }
  }

  lemma AddComponent(g: Topology, before: set<Uuid>, visited: set<Uuid>, clusters: seq<seq<Uuid>>, s: Uuid,
                     c: seq<Uuid>)
    requires Transposed(g) && s in g.nodes && s !in before
    requires ClusterInv(g, before, clusters) && IsComponent(Undirected(g), s, c)
    requires WholeComponents(Undirected(g), visited) && forall v :: v in visited <==> v in before || v in c
    ensures ClusterInv(g, visited, if |c| > 1 then clusters + [c] else clusters)
  {
    hide Reachable, Undirected, Connected, InSome, IsComponent;
    var U := Undirected(g);
    UndirectedSymmetric(g);
    forall v | v in c ensures v !in before && (|c| > 1 <==> Connected(U, v)) {
      ComponentMembers(U, s, c, v);
      ComponentApart(U, before, s, c, v);
    }
    var now := if |c| > 1 then clusters + [c] else clusters;
    forall v ensures InSome(now, v) <==> InSome(clusters, v) || (|c| > 1 && v in c) {
      InSomeSnoc(clusters, c, v);
    }
    if |c| > 1 {
      assert IsCluster(g, c);
      DisjointSnoc(clusters, c);
    }
  }

  lemma ComponentApart(U: set<Arc>, before: set<Uuid>, s: Uuid, c: seq<Uuid>, v: Uuid)
    requires Symmetric(U) && WholeComponents(U, before) && s !in before && IsComponent(U, s, c) && v in c
    ensures v !in before
  {
    ReachableBack(U, s, v);
    if v in before {
      ClosedReach(U, before, v, s);
    }
  }

  lemma DisjointSnoc(clusters: seq<seq<Uuid>>, c: seq<Uuid>)
    requires Disjoint(clusters) && forall v :: v in c ==> !InSome(clusters, v)
    ensures Disjoint(clusters + [c])
  {
    var longer := clusters + [c];
    forall i, j, v | 0 <= i < j < |longer| && v in longer[i] ensures v !in longer[j] {
      assert longer[i] == clusters[i];
      assert InSome(clusters, v);
      if j < |clusters| {
        assert longer[j] == clusters[j];
      }
    }
  }

  method FindClusters(graph: InMemoryGraph?) returns (res: Result<seq<seq<Uuid>>>)
    requires graph != null ==> graph.Valid()
    ensures graph == null ==> res == Err(GraphNotReady)
    ensures graph != null ==> res.Ok? && ExactClusters(graph.View(), res.value)
  {
    hide WholeComponents, IsCluster, InSome, Connected, Disjoint, IsComponent;
    if graph == null {
      return Err(GraphNotReady);
    }
    var visited: set<Uuid> := {};
    var clusters := [];
    var all := graph.GetAllNodes();
    StartClusters(graph.View());
    for i := 0 to |all|
      invariant ClusterInv(graph.View(), visited, clusters)
      invariant forall j :: 0 <= j < i ==> all[j].id in visited
    {
      assert all[i] in all;
      if all[i].id !in visited {
        var cluster, now := FindConnectedComponent(graph, all[i].id, visited);
        AddComponent(graph.View(), visited, now, clusters, all[i].id, cluster);
        StartInComponent(Undirected(graph.View()), all[i].id, cluster);
        visited := now;
        if |cluster| > 1 {
          clusters := clusters + [cluster];
        }
      }
    }
    forall v | v in graph.nodes ensures v in visited {
      assert graph.nodes[v] in all;
    }
    res := Ok(clusters);
  }

  lemma StartClusters(g: Topology)
    ensures ClusterInv(g, {}, [])
  {
  }

  lemma StartInComponent(U: set<Arc>, s: Uuid, c: seq<Uuid>)
    requires IsComponent(U, s, c)
    ensures s in c
  {
    ReachableSelf(U, s);
  }
}
