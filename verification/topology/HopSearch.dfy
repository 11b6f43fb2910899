/** Breadth-first search with parent pointers: the unweighted shortest path and
    the restricted search that finds the spur paths of the k-paths algorithm. */
module HopSearch {
  import opened Domain
  import opened Sequences
  import opened Walks
  import opened Graph

  /** A search tree: parent pointers, the depth at which each visited identifier
      hangs, and the queue of identifiers still to be expanded. */
  datatype Tree = Tree(parent: map<Uuid, Uuid>, depth: map<Uuid, nat>, queue: seq<Uuid>)

  /** `p` is a simple path from `s` to `t` with the least possible number of arcs. */
  ghost predicate ShortestPath(E: set<Arc>, p: seq<Uuid>, s: Uuid, t: Uuid) {
    SimplePath(E, p, s, t) && HopDistance(E, s, t, |p| - 1)
  }

  // ---- The search invariant ----

  ghost predicate Parents(E: set<Arc>, s: Uuid, parent: map<Uuid, Uuid>, depth: map<Uuid, nat>) {
    && s in depth && depth[s] == 0
    && forall v :: v in depth && v != s ==>
         v in parent && parent[v] in depth && Arc(parent[v], v) in E && depth[v] == depth[parent[v]] + 1
  }

  ghost predicate Layered(depth: map<Uuid, nat>, queue: seq<Uuid>, done: set<Uuid>) {
    && Distinct(queue)
    && (forall v :: v in depth <==> v in done || v in queue)
    && (forall i :: 0 <= i < |queue| ==> queue[i] !in done)
    && (forall i, j :: 0 <= i < j < |queue| ==> depth[queue[i]] <= depth[queue[j]] <= depth[queue[i]] + 1)
    && (forall u, i :: u in done && 0 <= i < |queue| ==> depth[u] <= depth[queue[i]])
  }

  ghost predicate Explored(E: set<Arc>, depth: map<Uuid, nat>, u: Uuid) {
    u in depth && forall v :: Arc(u, v) in E ==> v in depth && depth[v] <= depth[u] + 1
  }

  ghost predicate TreeInv(E: set<Arc>, s: Uuid, t: Tree, done: set<Uuid>) {
    && Parents(E, s, t.parent, t.depth)
    && Layered(t.depth, t.queue, done)
    && forall u :: u in done ==> Explored(E, t.depth, u)
  }

  lemma {:induction false} NearIsDone(E: set<Arc>, s: Uuid, t: Tree, done: set<Uuid>, v: Uuid, n: nat)
    requires TreeInv(E, s, t, done) && Steps(E, s, v, n)
    requires forall i :: 0 <= i < |t.queue| ==> n < t.depth[t.queue[i]]
    ensures v in done && t.depth[v] <= n
    decreases n
  {
    if n == 0 {
    } else {
      var u :| Steps(E, s, u, n - 1) && Arc(u, v) in E;
      NearIsDone(E, s, t, done, u, n - 1);
      assert Explored(E, t.depth, u);
    }
    assert forall i :: 0 <= i < |t.queue| ==> t.queue[i] != v;
  }

  lemma {:induction false} DepthReached(E: set<Arc>, s: Uuid, parent: map<Uuid, Uuid>, depth: map<Uuid, nat>, v: Uuid)
    requires Parents(E, s, parent, depth) && v in depth
    ensures Steps(E, s, v, depth[v])
    decreases depth[v]
  {
    if v == s {
    } else {
      DepthReached(E, s, parent, depth, parent[v]);
    }
  }

  lemma HeadDistance(E: set<Arc>, s: Uuid, t: Tree, done: set<Uuid>)
    requires TreeInv(E, s, t, done) && t.queue != []
    ensures HopDistance(E, s, t.queue[0], t.depth[t.queue[0]])
  {
    var v := t.queue[0];
    DepthReached(E, s, t.parent, t.depth, v);
    forall n: nat | Steps(E, s, v, n) ensures t.depth[v] <= n {
      if n < t.depth[v] {
        NearIsDone(E, s, t, done, v, n);
      }
    }
  }

  lemma Exhausted(E: set<Arc>, s: Uuid, t: Tree, done: set<Uuid>, v: Uuid)
    requires TreeInv(E, s, t, done) && t.queue == [] && v !in done
    ensures !Reachable(E, s, v)
  {
    forall n: nat ensures !Steps(E, s, v, n) {
      if Steps(E, s, v, n) {
        NearIsDone(E, s, t, done, v, n);
      }
    }
  }

  // ---- Expanding the head of the queue ----

  ghost function Discover(t: Tree, current: Uuid, v: Uuid): Tree
    requires current in t.depth
  {
    if v in t.depth then t
    else Tree(t.parent[v := current], t.depth[v := t.depth[current] + 1], t.queue + [v])
  }

  ghost function DiscoverAll(t: Tree, current: Uuid, nexts: seq<Uuid>): (r: Tree)
    requires current in t.depth
    ensures current in r.depth
  {
    if nexts == [] then t
    else Discover(DiscoverAll(t, current, nexts[..|nexts| - 1]), current, nexts[|nexts| - 1])
  }

  lemma DiscoverSnoc(t: Tree, current: Uuid, nexts: seq<Uuid>, v: Uuid)
    requires current in t.depth
    ensures DiscoverAll(t, current, nexts + [v]) == Discover(DiscoverAll(t, current, nexts), current, v)
  {
    assert (nexts + [v])[..|nexts|] == nexts;
  }

  lemma DiscoverNone(t: Tree, current: Uuid)
    requires current in t.depth
    ensures DiscoverAll(t, current, []) == t
  {
  }

  lemma DiscoverKeeps(E: set<Arc>, s: Uuid, t: Tree, done: set<Uuid>, v: Uuid)
    requires TreeInv(E, s, t, done) && t.queue != [] && Arc(t.queue[0], v) in E
    ensures var r := Discover(t, t.queue[0], v);
            && TreeInv(E, s, r, done) && r.queue != [] && r.queue[0] == t.queue[0]
            && v in r.depth && r.depth[v] <= r.depth[t.queue[0]] + 1
            && forall u :: u in t.depth ==> u in r.depth && r.depth[u] == t.depth[u]
  {
    hide Layered, Parents;
    HeadKnown(E, s, t, done);
    KnownDepths(t.depth, t.queue, done);
    if v !in t.depth {
      var r := Discover(t, t.queue[0], v);
      LayeredOn(t.depth, t.queue, done, v);
      ParentsOn(E, s, t.parent, t.depth, t.queue[0], v);
      forall u | u in done ensures Explored(E, r.depth, u) {
        assert Explored(E, t.depth, u);
      }
    }
  }

  lemma KnownDepths(depth: map<Uuid, nat>, queue: seq<Uuid>, done: set<Uuid>)
    requires Layered(depth, queue, done) && queue != [] && queue[0] in depth
    ensures forall v :: v in depth ==> depth[v] <= depth[queue[0]] + 1
  {
  }

  lemma ParentsOn(E: set<Arc>, s: Uuid, parent: map<Uuid, Uuid>, depth: map<Uuid, nat>, u: Uuid, v: Uuid)
    requires Parents(E, s, parent, depth) && u in depth && v !in depth && Arc(u, v) in E
    ensures Parents(E, s, parent[v := u], depth[v := depth[u] + 1])
  {
  }

  lemma LayeredOn(depth: map<Uuid, nat>, queue: seq<Uuid>, done: set<Uuid>, v: Uuid)
    requires Layered(depth, queue, done) && queue != [] && queue[0] in depth && v !in depth
    ensures Layered(depth[v := depth[queue[0]] + 1], queue + [v], done)
  {
    assert forall i :: 0 <= i < |queue| ==> queue[i] in queue && queue[i] != v;
    assert forall i :: 0 <= i < |queue| ==> depth[queue[0]] <= depth[queue[i]] <= depth[queue[0]] + 1;
  }

  lemma {:induction false} DiscoverAllKeeps(E: set<Arc>, s: Uuid, t: Tree, done: set<Uuid>, nexts: seq<Uuid>)
    requires TreeInv(E, s, t, done) && t.queue != []
    requires forall v :: v in nexts ==> Arc(t.queue[0], v) in E
    ensures var r := DiscoverAll(t, t.queue[0], nexts);
            && TreeInv(E, s, r, done) && r.queue != [] && r.queue[0] == t.queue[0]
            && (forall v :: v in nexts ==> v in r.depth && r.depth[v] <= r.depth[t.queue[0]] + 1)
    decreases |nexts|
  {
    hide TreeInv;
    assert t.queue[0] in t.depth by { HeadKnown(E, s, t, done); }
    if nexts == [] {
    } else {
      var n := |nexts| - 1;
      DiscoverAllKeeps(E, s, t, done, nexts[..n]);
      DiscoverKeeps(E, s, DiscoverAll(t, t.queue[0], nexts[..n]), done, nexts[n]);
      assert nexts == nexts[..n] + [nexts[n]];
    }
  }

  lemma HeadKnown(E: set<Arc>, s: Uuid, t: Tree, done: set<Uuid>)
    requires TreeInv(E, s, t, done) && t.queue != []
    ensures t.queue[0] in t.depth && t.queue[0] !in done
    ensures t.depth.Keys <= {s} + set a | a in E :: a.dst
  {
    assert t.queue[0] in t.queue;
  }

  /** Once all of its arcs are followed the head is done. */
  lemma FinishHead(E: set<Arc>, s: Uuid, t: Tree, done: set<Uuid>, nexts: seq<Uuid>)
    requires TreeInv(E, s, t, done) && t.queue != []
    requires forall v :: v in nexts <==> Arc(t.queue[0], v) in E
    requires t.queue[0] in t.depth
    ensures var r := DiscoverAll(t, t.queue[0], nexts);
            && r.queue != [] && r.queue[0] == t.queue[0]
            && TreeInv(E, s, Tree(r.parent, r.depth, r.queue[1..]), done + {t.queue[0]})
  {
    DiscoverAllKeeps(E, s, t, done, nexts);
    var r := DiscoverAll(t, t.queue[0], nexts);
    assert Explored(E, r.depth, t.queue[0]);
    PopHead(E, s, r, done);
  }

  lemma PopHead(E: set<Arc>, s: Uuid, t: Tree, done: set<Uuid>)
    requires TreeInv(E, s, t, done) && t.queue != [] && Explored(E, t.depth, t.queue[0])
    ensures TreeInv(E, s, Tree(t.parent, t.depth, t.queue[1..]), done + {t.queue[0]})
  {
    hide Explored;
    assert forall v :: v in t.queue <==> v == t.queue[0] || v in t.queue[1..];
  }

  lemma StartTree(E: set<Arc>, s: Uuid)
    ensures TreeInv(E, s, Tree(map[], map[s := 0], [s]), {})
  {
  }

  // ---- Following the parent pointers back ----

  /** `p` runs from `v` down the tree to `t`, one level at a time. */
  ghost predicate TreePath(E: set<Arc>, depth: map<Uuid, nat>, p: seq<Uuid>, t: Uuid) {
    && IsWalk(E, p) && p[|p| - 1] == t && p[0] in depth
    && forall i :: 0 <= i < |p| ==> p[i] in depth && depth[p[i]] == depth[p[0]] + i
  }

  lemma PrependParent(E: set<Arc>, s: Uuid, parent: map<Uuid, Uuid>, depth: map<Uuid, nat>, p: seq<Uuid>, t: Uuid)
    requires Parents(E, s, parent, depth) && TreePath(E, depth, p, t) && p[0] != s
    ensures TreePath(E, depth, [parent[p[0]]] + p, t)
  {
    var q := [parent[p[0]]] + p;
    assert p[0] in depth;
    forall i | 0 <= i < |q| - 1 ensures Arc(q[i], q[i + 1]) in E {
      if i > 0 {
        assert q[i] == p[i - 1] && q[i + 1] == p[i];
      }
    }
    forall i | 0 <= i < |q| ensures q[i] in depth && depth[q[i]] == depth[q[0]] + i {
      if i > 0 {
        assert q[i] == p[i - 1];
      }
    }
  }

  lemma TreePathShortest(E: set<Arc>, s: Uuid, depth: map<Uuid, nat>, p: seq<Uuid>, t: Uuid)
    requires TreePath(E, depth, p, t) && p[0] == s && s in depth && depth[s] == 0
    requires t in depth && HopDistance(E, s, t, depth[t])
    ensures ShortestPath(E, p, s, t)
  {
    assert depth[p[|p| - 1]] == |p| - 1;
  }

  /** The services of `p` that are in the graph. */
  ghost function Present(nodes: map<Uuid, ServiceNode>, p: seq<Uuid>): seq<Uuid> {
    if p == [] then []
    else (if p[0] in nodes then [p[0]] else []) + Present(nodes, p[1..])
  }

  /** Just the absent services are left out, and the rest keeps its order. */
  lemma {:induction false} PresentJoins(nodes: map<Uuid, ServiceNode>, p: seq<Uuid>, q: seq<Uuid>)
    ensures Present(nodes, p + q) == Present(nodes, p) + Present(nodes, q)
    decreases |p|
  {
    hide Present;
    if p == [] {
      assert p + q == q && Present(nodes, p) == [] by { PresentNone(nodes); }
    } else {
      PresentJoins(nodes, p[1..], q);
      PresentHead(nodes, p);
      PresentHead(nodes, p + q);
      assert (p + q)[1..] == p[1..] + q;
    }
  }

  lemma PresentNone(nodes: map<Uuid, ServiceNode>)
    ensures Present(nodes, []) == []
  {
  }

  lemma PresentHead(nodes: map<Uuid, ServiceNode>, p: seq<Uuid>)
    requires p != []
    ensures Present(nodes, p) == (if p[0] in nodes then [p[0]] else []) + Present(nodes, p[1..])
  {
  }

  lemma {:induction false} PresentMembers(nodes: map<Uuid, ServiceNode>, p: seq<Uuid>, v: Uuid)
    ensures multiset(Present(nodes, p))[v] == if v in nodes then multiset(p)[v] else 0
    decreases |p|
  {
    if p == [] {
    } else {
      PresentMembers(nodes, p[1..], v);
      assert p == [p[0]] + p[1..];
    }
  }

  lemma PresentOnPath(nodes: map<Uuid, ServiceNode>, p: seq<Uuid>)
    ensures forall v :: v in Present(nodes, p) <==> v in p && v in nodes
  {
    hide Present;
    forall v ensures v in Present(nodes, p) <==> v in p && v in nodes {
      PresentMembers(nodes, p, v);
      assert v in multiset(Present(nodes, p)) <==> v in Present(nodes, p);
      assert v in multiset(p) <==> v in p;
    }
  }

  lemma PresentAll(nodes: map<Uuid, ServiceNode>, p: seq<Uuid>)
    requires forall i :: 0 <= i < |p| ==> p[i] in nodes
    ensures Present(nodes, p) == p
  {
  }

  // ---- The unweighted shortest path ----

  /** The inner loop over the neighbours of `current`. */
  method VisitNeighbors(ghost t: Tree, current: Uuid, visited0: set<Uuid>, parent0: map<Uuid, Uuid>, queue0: seq<Uuid>,
                        nexts: seq<Uuid>)
    returns (visited: set<Uuid>, parent: map<Uuid, Uuid>, queue: seq<Uuid>)
    requires current in t.depth && t.queue != []
    requires visited0 == t.depth.Keys && parent0 == t.parent && queue0 == t.queue[1..]
    ensures var r := DiscoverAll(t, current, nexts);
            visited == r.depth.Keys && parent == r.parent && r.queue == [t.queue[0]] + queue
  {
    hide DiscoverAll;
    visited, parent, queue := visited0, parent0, queue0;
    DiscoverNone(t, current);
    assert nexts[..0] == [];
    for i := 0 to |nexts|
      invariant var r := DiscoverAll(t, current, nexts[..i]);
                visited == r.depth.Keys && parent == r.parent && r.queue == [t.queue[0]] + queue
    {
      DiscoverSnoc(t, current, nexts[..i], nexts[i]);
      assert nexts[..i + 1] == nexts[..i] + [nexts[i]];
      if nexts[i] !in visited {
        visited := visited + {nexts[i]};
        parent := parent[nexts[i] := current];
        queue := queue + [nexts[i]];
      }
    }
    assert nexts[..|nexts|] == nexts;
  }

  method SearchHops(adj: Adjacency, source: Uuid, target: Uuid)
    returns (found: bool, parent: map<Uuid, Uuid>, ghost depth: map<Uuid, nat>)
    ensures Parents(Arcs(adj), source, parent, depth)
    ensures found ==> target in depth && HopDistance(Arcs(adj), source, target, depth[target])
    ensures !found ==> !Reachable(Arcs(adj), source, target)
  {
    hide HopDistance, Reachable, DiscoverAll, Parents, Layered, Explored;
    ghost var E := Arcs(adj);
    ghost var done: set<Uuid> := {};
    parent, depth := map[], map[source := 0];
    var visited := {source};
    var queue := [source];
    StartTree(E, source);
    found := false;
    while |queue| > 0 && !found
      invariant TreeInv(E, source, Tree(parent, depth, queue), done)
      invariant visited == depth.Keys
      invariant !found && target !in done
      invariant done <= {source} + set a | a in E :: a.dst
      decreases ({source} + set a | a in E :: a.dst) - done
    {
      ghost var t := Tree(parent, depth, queue);
      var current := queue[0];
      queue := queue[1..];
      HeadKnown(E, source, t, done);
      if current == target {
        HeadDistance(E, source, t, done);
        found := true;
        break;
      }
      var nexts := Neighbors(adj, current);
      NeighborArcs(adj, current);
      FinishHead(E, source, t, done, nexts);
      visited, parent, queue := VisitNeighbors(t, current, visited, parent, queue, nexts);
      depth := DiscoverAll(t, current, nexts).depth;
      assert current in ({source} + set a | a in E :: a.dst) - done;
      done := done + {current};
    }
    if !found {
      Exhausted(E, source, Tree(parent, depth, queue), done, target);
    }
  }

  method FindShortestPath(graph: InMemoryGraph?, source: Uuid, target: Uuid) returns (res: Result<seq<Uuid>>)
    ensures graph == null ==> res == Err(GraphNotReady)
    ensures graph != null && (source !in graph.nodes || target !in graph.nodes) ==> res == Err(NodeNotFound)
    ensures graph != null && source in graph.nodes && target in graph.nodes ==>
              if Reachable(Arcs(graph.adjList), source, target)
              then res.Ok? && exists p :: ShortestPath(Arcs(graph.adjList), p, source, target)
                                           && res.value == Present(graph.nodes, p)
                                           && forall v :: v in res.value <==> v in p && v in graph.nodes
              else res == Err(PathNotFound)
  {
    if graph == null {
      return Err(GraphNotReady);
    }
    if graph.GetNode(source).None? || graph.GetNode(target).None? {
      return Err(NodeNotFound);
    }
    ghost var E := Arcs(graph.adjList);
    var found, parent, depth := SearchHops(graph.adjList, source, target);
    if !found {
      return Err(PathNotFound);
    }
    var path := [];
    var current := target;
    ghost var full := [target];
    while current != source
      invariant TreePath(E, depth, full, target) && full[0] == current
      invariant path == Present(graph.nodes, full[1..])
      decreases if current in depth then depth[current] else 0
    {
      assert full[0] in depth;
      PrependParent(E, source, parent, depth, full, target);
      if graph.GetNode(current).Some? {
        path := [current] + path;
      }
      full := [parent[current]] + full;
      current := parent[current];
    }
    path := [source] + path;
    PresentOnPath(graph.nodes, full);
    TreePathShortest(E, source, depth, full, target);
    assert Reachable(E, source, target);
    res := Ok(path);
  }

  /** When edges start at present nodes the answer itself is a shortest simple path. */
  lemma NothingDropped(g: Topology, p: seq<Uuid>, s: Uuid, t: Uuid)
    requires IndexedSourcesPresent(g) && t in g.nodes && ShortestPath(Arcs(g.adj), p, s, t)
    ensures Present(g.nodes, p) == p
  {
    WalkInside(Arcs(g.adj), g.nodes.Keys, p, s, t);
    PresentAll(g.nodes, p);
  }

  // ---- The restricted search ----

  /** The arcs of the edge table that the spur search may use. */
  ghost function Usable(edges: map<Uuid, CallEdge>, removedArcs: set<Arc>, removedNodes: set<Uuid>): set<Arc> {
    set a | a in EdgeArcs(edges) && a !in removedArcs && a.dst !in removedNodes
  }

  predicate Skipped(e: CallEdge, current: Uuid, removedArcs: set<Arc>, removedNodes: set<Uuid>) {
    e.source != current || Arc(e.source, e.target) in removedArcs || e.target in removedNodes
  }

  /** The targets that the scan of the edge list considers, in order. */
  ghost function SpurTargets(es: seq<CallEdge>, current: Uuid, removedArcs: set<Arc>,
                             removedNodes: set<Uuid>): seq<Uuid>
  {
    if es == [] then []
    else
      var e := es[|es| - 1];
      SpurTargets(es[..|es| - 1], current, removedArcs, removedNodes)
      + if Skipped(e, current, removedArcs, removedNodes) then [] else [e.target]
  }

  lemma {:induction false} SpurTargetsExact(es: seq<CallEdge>, current: Uuid, removedArcs: set<Arc>,
                                            removedNodes: set<Uuid>, v: Uuid)
    ensures v in SpurTargets(es, current, removedArcs, removedNodes) <==>
            exists e :: e in es && !Skipped(e, current, removedArcs, removedNodes) && e.target == v
    decreases |es|
  {
    if es == [] {
    } else {
      var n := |es| - 1;
      SpurTargetsExact(es[..n], current, removedArcs, removedNodes, v);
      assert es == es[..n] + [es[n]];
    }
  }

  lemma SpurArcs(edges: map<Uuid, CallEdge>, es: seq<CallEdge>, current: Uuid, removedArcs: set<Arc>,
                 removedNodes: set<Uuid>)
    requires forall e :: e in es <==> e.id in edges && edges[e.id] == e
    requires forall id :: id in edges ==> edges[id].id == id
    ensures forall v :: v in SpurTargets(es, current, removedArcs, removedNodes) <==>
                        Arc(current, v) in Usable(edges, removedArcs, removedNodes)
  {
    forall v ensures v in SpurTargets(es, current, removedArcs, removedNodes) <==>
                     Arc(current, v) in Usable(edges, removedArcs, removedNodes) {
      SpurTargetsExact(es, current, removedArcs, removedNodes, v);
      if Arc(current, v) in EdgeArcs(edges) {
        var id :| id in edges && Arc(edges[id].source, edges[id].target) == Arc(current, v);
        assert edges[id] in es;
      }
    }
  }

  lemma ScanStart(t: Tree, current: Uuid, es: seq<CallEdge>, removedArcs: set<Arc>, removedNodes: set<Uuid>)
    requires current in t.depth
    ensures DiscoverAll(t, current, SpurTargets(es[..0], current, removedArcs, removedNodes)) == t
  {
  }

  /** One more edge of the scan. */
  lemma ScanNext(t: Tree, current: Uuid, es: seq<CallEdge>, i: nat, removedArcs: set<Arc>, removedNodes: set<Uuid>)
    requires current in t.depth && i < |es|
    ensures var r := DiscoverAll(t, current, SpurTargets(es[..i], current, removedArcs, removedNodes));
            DiscoverAll(t, current, SpurTargets(es[..i + 1], current, removedArcs, removedNodes))
            == if Skipped(es[i], current, removedArcs, removedNodes) then r else Discover(r, current, es[i].target)
  {
    hide DiscoverAll, Discover;
    var before := SpurTargets(es[..i], current, removedArcs, removedNodes);
    assert es[..i + 1][..i] == es[..i];
    if Skipped(es[i], current, removedArcs, removedNodes) {
      assert before + [] == before;
    } else {
      DiscoverSnoc(t, current, before, es[i].target);
    }
  }

  /** The inner loop over all edges. */
  method VisitEdges(ghost t: Tree, current: Uuid, visited0: set<Uuid>, parent0: map<Uuid, Uuid>, queue0: seq<Uuid>,
                    es: seq<CallEdge>, removedArcs: set<Arc>, removedNodes: set<Uuid>)
    returns (visited: set<Uuid>, parent: map<Uuid, Uuid>, queue: seq<Uuid>)
    requires current in t.depth && t.queue != []
    requires visited0 == t.depth.Keys && parent0 == t.parent && queue0 == t.queue[1..]
    ensures var r := DiscoverAll(t, current, SpurTargets(es, current, removedArcs, removedNodes));
            visited == r.depth.Keys && parent == r.parent && r.queue == [t.queue[0]] + queue
  {
    hide SpurTargets, DiscoverAll;
    visited, parent, queue := visited0, parent0, queue0;
    ScanStart(t, current, es, removedArcs, removedNodes);
    for i := 0 to |es|
      invariant var r := DiscoverAll(t, current, SpurTargets(es[..i], current, removedArcs, removedNodes));
                visited == r.depth.Keys && parent == r.parent && r.queue == [t.queue[0]] + queue
    {
      var e := es[i];
      ScanNext(t, current, es, i, removedArcs, removedNodes);
      if e.source != current {
        continue;
      }
      if Arc(e.source, e.target) in removedArcs {
        continue;
      }
      if e.target in removedNodes {
        continue;
      }
      if e.target !in visited {
        visited := visited + {e.target};
        parent := parent[e.target := current];
        queue := queue + [e.target];
      }
    }
    assert es[..|es|] == es;
  }

  /** A path from `spur` to `target` with the fewest arcs among those that avoid
      the removed arcs and enter no removed node; an error when there is none. */
  method FindSpurPath(graph: InMemoryGraph, spur: Uuid, target: Uuid, removedArcs: set<Arc>, removedNodes: set<Uuid>)
    returns (res: Result<seq<Uuid>>)
    requires graph.Valid()
    ensures var E := Usable(graph.edges, removedArcs, removedNodes);
            if Reachable(E, spur, target)
            then res.Ok? && ShortestPath(E, res.value, spur, target)
            else res == Err(PathNotFound)
  {
    hide HopDistance, DiscoverAll, Layered, Explored, Usable;
    ghost var E := Usable(graph.edges, removedArcs, removedNodes);
    ghost var done: set<Uuid> := {};
    ghost var depth := map[spur := 0];
    var parent := map[];
    var visited := {spur};
    var queue := [spur];
    StartTree(E, spur);
    var found := false;
    while |queue| > 0 && !found
      invariant TreeInv(E, spur, Tree(parent, depth, queue), done)
      invariant visited == depth.Keys
      invariant !found && target !in done
      invariant done <= {spur} + set a | a in E :: a.dst
      decreases ({spur} + set a | a in E :: a.dst) - done
    {
      ghost var t := Tree(parent, depth, queue);
      var current := queue[0];
      queue := queue[1..];
      HeadKnown(E, spur, t, done);
      if current == target {
        HeadDistance(E, spur, t, done);
        found := true;
        break;
      }
      var es := graph.GetAllEdges();
      SpurArcs(graph.edges, es, current, removedArcs, removedNodes);
      FinishHead(E, spur, t, done, SpurTargets(es, current, removedArcs, removedNodes));
      visited, parent, queue := VisitEdges(t, current, visited, parent, queue, es, removedArcs, removedNodes);
      depth := DiscoverAll(t, current, SpurTargets(es, current, removedArcs, removedNodes)).depth;
      assert current in ({spur} + set a | a in E :: a.dst) - done;
      done := done + {current};
    }
    if !found {
      Exhausted(E, spur, Tree(parent, depth, queue), done, target);
      return Err(PathNotFound);
    }
    var path := SpurWalkBack(E, parent, depth, spur, target);
    res := Ok(path);
  }

  /** The walk along the parent pointers from the target back to the spur node. */
  method SpurWalkBack(ghost E: set<Arc>, parent: map<Uuid, Uuid>, ghost depth: map<Uuid, nat>, spur: Uuid, target: Uuid)
    returns (path: seq<Uuid>)
    requires Parents(E, spur, parent, depth)
    requires target in depth && HopDistance(E, spur, target, depth[target])
    ensures ShortestPath(E, path, spur, target) && Reachable(E, spur, target)
  {
    path := [];
    var current := target;
    while current != spur
      invariant TreePath(E, depth, [current] + path, target)
      decreases if current in depth then depth[current] else 0
    {
      assert ([current] + path)[0] == current;
      PrependParent(E, spur, parent, depth, [current] + path, target);
      path := [current] + path;
      current := parent[current];
    }
    path := [spur] + path;
    TreePathShortest(E, spur, depth, path, target);
  }
}
