/** Exhaustive depth-first search for the simple paths between two services. */
module AllPaths {
  import opened Domain
  import opened Sequences
  import opened Walks
  import opened Graph

  // ---- What the recursion collects, in the order it collects it ----

  ghost function PathsThrough(g: Topology, path: seq<Uuid>, current: Uuid, target: Uuid, maxHops: int): seq<seq<Uuid>>
    decreases g.nodes.Keys - Elements(path), 0
  {
    if |path| > maxHops || current in path || current !in g.nodes then []
    else
      var longer := path + [current];
      assert Elements(longer) == Elements(path) + {current};
      if current == target then [longer]
      else PathsVia(g, longer, Neighbors(g.adj, current), target, maxHops)
  }

  ghost function PathsVia(g: Topology, path: seq<Uuid>, nexts: seq<Uuid>, target: Uuid, maxHops: int): seq<seq<Uuid>>
    decreases g.nodes.Keys - Elements(path), |nexts|
  {
    if nexts == [] then []
    else PathsVia(g, path, nexts[..|nexts| - 1], target, maxHops)
         + PathsThrough(g, path, nexts[|nexts| - 1], target, maxHops)
  }

  class PathSearch {
    var visited: set<Uuid>
    var currentPath: seq<Uuid>
    var paths: seq<seq<Uuid>>

    /** The visited set and the current path always describe the same services. */
    ghost predicate Valid()
      reads this
    {
      visited == Elements(currentPath)
    }

    constructor ()
      ensures Valid() && currentPath == [] && paths == []
    {
      visited, currentPath, paths := {}, [], [];
    }

    /** Every call puts `visited` and `currentPath` back as they were. */
    method DfsPaths(graph: InMemoryGraph, current: Uuid, target: Uuid, maxHops: int)
      requires Valid()
      modifies this
      ensures visited == old(visited) && currentPath == old(currentPath)
      ensures paths == old(paths) + PathsThrough(graph.View(), currentPath, current, target, maxHops)
      decreases graph.nodes.Keys - visited
    {
      if |currentPath| > maxHops {
        return;
      }
      if current in visited {
        return;
      }
      if graph.GetNode(current).None? {
        return;
      }
      visited := visited + {current};
      currentPath := currentPath + [current];
      if current == target {
        paths := paths + [currentPath];
      } else {
        var downstream := graph.GetDownstreamIDs(current);
        label entered:
        for i := 0 to |downstream|
          invariant visited == old@entered(visited) && currentPath == old@entered(currentPath)
          invariant paths == old(paths) + PathsVia(graph.View(), currentPath, downstream[..i], target, maxHops)
        {
          assert downstream[..i + 1][..i] == downstream[..i];
          DfsPaths(graph, downstream[i], target, maxHops);
        }
        assert downstream[..|downstream|] == downstream;
      }
      currentPath := currentPath[..|currentPath| - 1];
      visited := visited - {current};
    }
  }

  method FindAllPaths(graph: InMemoryGraph, source: Uuid, target: Uuid, maxHops: int) returns (paths: seq<seq<Uuid>>)
    ensures paths == PathsThrough(graph.View(), [], source, target, maxHops)
  {
    var search := new PathSearch();
    search.DfsPaths(graph, source, target, maxHops);
    paths := search.paths;
  }

  /** All paths found, and the one that is presented as the shortest. */
  datatype PathResult = PathResult(paths: seq<seq<Uuid>>, shortest: seq<Uuid>)

  method FindPath(graph: InMemoryGraph?, source: Uuid, target: Uuid, maxHops: int) returns (res: Result<PathResult>)
    ensures graph == null ==> res == Err(GraphNotReady)
    ensures graph != null && (source !in graph.nodes || target !in graph.nodes) ==> res == Err(NodeNotFound)
    ensures graph != null && source in graph.nodes && target in graph.nodes ==>
              if exists p :: BoundedPath(graph.View(), p, source, target, maxHops)
              then res.Ok? && forall p :: p in res.value.paths <==> BoundedPath(graph.View(), p, source, target, maxHops)
              else res == Err(PathNotFound)
    ensures res.Ok? ==> res.value.paths == PathsThrough(graph.View(), [], source, target, maxHops)
                        && res.value.paths != [] && res.value.shortest == res.value.paths[0]
    ensures res.Ok? ==> InListOrder(graph.adjList, res.value.paths)
  {
    if graph == null {
      return Err(GraphNotReady);
    }
    if graph.GetNode(source).None? || graph.GetNode(target).None? {
      return Err(NodeNotFound);
    }
    var paths := FindAllPaths(graph, source, target, maxHops);
    forall p ensures p in paths <==> BoundedPath(graph.View(), p, source, target, maxHops) {
      AllPathsExact(graph.View(), source, target, maxHops, p);
    }
    if |paths| == 0 {
      return Err(PathNotFound);
    }
    assert paths[0] in paths;
    AllPathsInOrder(graph.View(), source, target, maxHops);
    res := Ok(PathResult(paths, paths[0]));
  }

  // ---- Exactness ----

  /** A simple path from `s` to `t` through present nodes, of at most `maxHops` arcs. */
  ghost predicate BoundedPath(g: Topology, p: seq<Uuid>, s: Uuid, t: Uuid, maxHops: int) {
    && SimplePath(Arcs(g.adj), p, s, t)
    && (forall i :: 0 <= i < |p| ==> p[i] in g.nodes)
    && |p| - 1 <= maxHops
  }

  /** `p` continues `path` through `current` along present nodes to `target`. */
  ghost predicate Continues(g: Topology, path: seq<Uuid>, current: Uuid, target: Uuid, maxHops: int, p: seq<Uuid>) {
    && path < p && p[|path|] == current && p[|p| - 1] == target
    && Distinct(p) && |p| - 1 <= maxHops
    && (forall i :: |path| <= i < |p| ==> p[i] in g.nodes)
    && (forall i :: |path| <= i < |p| - 1 ==> Arc(p[i], p[i + 1]) in Arcs(g.adj))
  }

  lemma {:induction false} ThroughExact(g: Topology, path: seq<Uuid>, current: Uuid, target: Uuid, maxHops: int,
                                        p: seq<Uuid>)
    requires Distinct(path) && target !in path
    ensures p in PathsThrough(g, path, current, target, maxHops) <==> Continues(g, path, current, target, maxHops, p)
    decreases g.nodes.Keys - Elements(path), 0
  {
    var longer := path + [current];
    assert Elements(longer) == Elements(path) + {current};
    if |path| > maxHops || current !in g.nodes {
    } else if current in path {
      if path < p && p[|path|] == current {
        var i :| 0 <= i < |path| && path[i] == current;
        assert p[i] == p[|path|];
      }
    } else if current == target {
      if Continues(g, path, current, target, maxHops, p) {
        assert |p| == |longer|;
        assert p == longer;
      }
    } else {
      ViaExact(g, longer, Neighbors(g.adj, current), target, maxHops, p);
      NeighborArcs(g.adj, current);
      ContinuesStep(g, path, current, target, maxHops, p);
    }
  }

  /** Away from the target, continuing through `current` is continuing through
      one of its neighbours. */
  lemma ContinuesStep(g: Topology, path: seq<Uuid>, current: Uuid, target: Uuid, maxHops: int, p: seq<Uuid>)
    requires current !in path && current in g.nodes && current != target
    ensures Continues(g, path, current, target, maxHops, p) <==>
            exists v :: v in Neighbors(g.adj, current) && Continues(g, path + [current], v, target, maxHops, p)
  {
    var longer := path + [current];
    NeighborArcs(g.adj, current);
    if Continues(g, path, current, target, maxHops, p) {
      assert p[..|longer|] == longer;
      assert p[|path| + 1] in Neighbors(g.adj, current);
      assert Continues(g, longer, p[|longer|], target, maxHops, p);
    }
    forall v | v in Neighbors(g.adj, current) && Continues(g, longer, v, target, maxHops, p)
      ensures Continues(g, path, current, target, maxHops, p)
    {
      assert p[..|path|] == p[..|longer|][..|path|] == path;
      assert p[|path|] == p[..|longer|][|path|] == current;
      forall i | |path| <= i < |p| ensures p[i] in g.nodes {
        if i > |path| { assert i >= |longer|; }
      }
      forall i | |path| <= i < |p| - 1 ensures Arc(p[i], p[i + 1]) in Arcs(g.adj) {
        if i > |path| { assert i >= |longer|; }
      }
    }
  }

  lemma {:induction false} ViaExact(g: Topology, path: seq<Uuid>, nexts: seq<Uuid>, target: Uuid, maxHops: int,
                                    p: seq<Uuid>)
    requires Distinct(path) && target !in path
    ensures p in PathsVia(g, path, nexts, target, maxHops) <==>
            exists v :: v in nexts && Continues(g, path, v, target, maxHops, p)
    decreases g.nodes.Keys - Elements(path), |nexts|
  {
    if nexts == [] {
    } else {
      var n := |nexts| - 1;
      ViaExact(g, path, nexts[..n], target, maxHops, p);
      ThroughExact(g, path, nexts[n], target, maxHops, p);
      assert nexts == nexts[..n] + [nexts[n]];
    }
  }

  /** The search returns exactly the bounded simple paths. */
  lemma AllPathsExact(g: Topology, s: Uuid, t: Uuid, maxHops: int, p: seq<Uuid>)
    ensures p in PathsThrough(g, [], s, t, maxHops) <==> BoundedPath(g, p, s, t, maxHops)
  {
    ThroughExact(g, [], s, t, maxHops, p);
  }

  // ---- No repeats ----

  ghost predicate NoRepeatedNeighbors(adj: Adjacency) {
    forall u :: Distinct(Neighbors(adj, u))
  }

  lemma {:induction false} ThroughDistinct(g: Topology, path: seq<Uuid>, current: Uuid, target: Uuid, maxHops: int)
    requires Distinct(path) && target !in path && NoRepeatedNeighbors(g.adj)
    ensures Distinct(PathsThrough(g, path, current, target, maxHops))
    decreases g.nodes.Keys - Elements(path), 0
  {
    if |path| <= maxHops && current !in path && current in g.nodes && current != target {
      assert Elements(path + [current]) == Elements(path) + {current};
      ViaDistinct(g, path + [current], Neighbors(g.adj, current), target, maxHops);
    }
  }

  lemma {:induction false} ViaDistinct(g: Topology, path: seq<Uuid>, nexts: seq<Uuid>, target: Uuid, maxHops: int)
    requires Distinct(path) && target !in path && NoRepeatedNeighbors(g.adj) && Distinct(nexts)
    ensures Distinct(PathsVia(g, path, nexts, target, maxHops))
    decreases g.nodes.Keys - Elements(path), |nexts|
  {
    if nexts == [] {
    } else {
      var n := |nexts| - 1;
      var before := PathsVia(g, path, nexts[..n], target, maxHops);
      var last := PathsThrough(g, path, nexts[n], target, maxHops);
      ViaDistinct(g, path, nexts[..n], target, maxHops);
      ThroughDistinct(g, path, nexts[n], target, maxHops);
      forall i, j | 0 <= i < |before| && 0 <= j < |last| ensures before[i] != last[j] {
        ViaExact(g, path, nexts[..n], target, maxHops, before[i]);
        ThroughExact(g, path, nexts[n], target, maxHops, last[j]);
        assert before[i] in before && last[j] in last;
      }
    }
  }

  /** Each path is reported once when no adjacency list repeats an entry. */
  lemma AllPathsOnce(g: Topology, s: Uuid, t: Uuid, maxHops: int)
    requires NoRepeatedNeighbors(g.adj)
    ensures Distinct(PathsThrough(g, [], s, t, maxHops))
  {
    ThroughDistinct(g, [], s, t, maxHops);
  }

  // ---- Order ----

  /** Where `p` and `q` part, `p` follows the earlier entry of the adjacency list. */
  ghost predicate PartsBefore(adj: Adjacency, p: seq<Uuid>, q: seq<Uuid>) {
    exists k: nat, a: nat, b: nat ::
      && k + 1 < |p| && k + 1 < |q| && p[..k + 1] == q[..k + 1] && a < b < |Neighbors(adj, p[k])|
      && Neighbors(adj, p[k])[a] == p[k + 1] && Neighbors(adj, p[k])[b] == q[k + 1]
  }

  ghost predicate InListOrder(adj: Adjacency, paths: seq<seq<Uuid>>) {
    forall i, j :: 0 <= i < j < |paths| ==> PartsBefore(adj, paths[i], paths[j])
  }

  lemma {:induction false} ThroughOrdered(g: Topology, path: seq<Uuid>, current: Uuid, target: Uuid, maxHops: int)
    requires Distinct(path) && target !in path
    ensures InListOrder(g.adj, PathsThrough(g, path, current, target, maxHops))
    decreases g.nodes.Keys - Elements(path), 0
  {
    hide PartsBefore;
    if |path| <= maxHops && current !in path && current in g.nodes && current != target {
      assert Elements(path + [current]) == Elements(path) + {current};
      var nexts := Neighbors(g.adj, current);
      assert nexts[..|nexts|] == nexts;
      ViaOrdered(g, path + [current], |nexts|, target, maxHops);
    }
  }

  lemma {:induction false} ViaOrdered(g: Topology, path: seq<Uuid>, n: nat, target: Uuid, maxHops: int)
    requires Distinct(path) && target !in path && path != [] && n <= |Neighbors(g.adj, path[|path| - 1])|
    ensures InListOrder(g.adj, PathsVia(g, path, Neighbors(g.adj, path[|path| - 1])[..n], target, maxHops))
    decreases g.nodes.Keys - Elements(path), n
  {
    hide PartsBefore, Neighbors;
    var nexts := Neighbors(g.adj, path[|path| - 1]);
    if n == 0 {
    } else {
      var m := n - 1;
      assert nexts[..n][..m] == nexts[..m] && nexts[..n][m] == nexts[m];
      var before := PathsVia(g, path, nexts[..m], target, maxHops);
      var last := PathsThrough(g, path, nexts[m], target, maxHops);
      ViaOrdered(g, path, m, target, maxHops);
      ThroughOrdered(g, path, nexts[m], target, maxHops);
      forall i, j | 0 <= i < |before| && 0 <= j < |last| ensures PartsBefore(g.adj, before[i], last[j]) {
        assert before[i] in before && last[j] in last;
        ViaExact(g, path, nexts[..m], target, maxHops, before[i]);
        ThroughExact(g, path, nexts[m], target, maxHops, last[j]);
        var v :| v in nexts[..m] && Continues(g, path, v, target, maxHops, before[i]);
        PartsHere(g, path, v, m, target, maxHops, before[i], last[j]);
      }
    }
  }

  lemma PartsHere(g: Topology, path: seq<Uuid>, v: Uuid, m: nat, target: Uuid, maxHops: int, p: seq<Uuid>, q: seq<Uuid>)
    requires path != [] && m < |Neighbors(g.adj, path[|path| - 1])| && v in Neighbors(g.adj, path[|path| - 1])[..m]
    requires Continues(g, path, v, target, maxHops, p)
    requires Continues(g, path, Neighbors(g.adj, path[|path| - 1])[m], target, maxHops, q)
    ensures PartsBefore(g.adj, p, q)
  {
    hide Neighbors;
    var k := |path| - 1;
    var nexts := Neighbors(g.adj, path[k]);
    var a :| 0 <= a < m && nexts[..m][a] == v;
    assert p[..k + 1] == path == q[..k + 1];
    assert p[k] == path[k] == q[k];
  }

  /** The paths come in the order in which the adjacency lists lead to them, so the one
      presented is the first in that order. */
  lemma AllPathsInOrder(g: Topology, s: Uuid, t: Uuid, maxHops: int)
    ensures InListOrder(g.adj, PathsThrough(g, [], s, t, maxHops))
  {
    ThroughOrdered(g, [], s, t, maxHops);
  }

  ghost predicate Recorded(es: seq<CallEdge>, u: Uuid, v: Uuid) {
    exists i :: 0 <= i < |es| && es[i].source == u && es[i].target == v
  }

  /** Edge records that join distinct pairs of services give such lists. */
  lemma {:induction false} DistinctRecordsDistinctNeighbors(es: seq<CallEdge>, u: Uuid)
    requires forall i, j :: 0 <= i < j < |es| ==> es[i].source != es[j].source || es[i].target != es[j].target
    ensures Distinct(Neighbors(Forward(es), u))
    ensures forall v :: v in Neighbors(Forward(es), u) ==> Recorded(es, u, v)
    decreases |es|
  {
    if es == [] {
    } else {
      var rest, e := es[..|es| - 1], es[|es| - 1];
      DistinctRecordsDistinctNeighbors(rest, u);
      assert !Recorded(rest, e.source, e.target);
      var before, after := Neighbors(Forward(rest), u), Neighbors(Forward(es), u);
      assert after == if u == e.source then before + [e.target] else before;
      forall v | v in after ensures Recorded(es, u, v) {
        if v in before {
          var i :| 0 <= i < |rest| && rest[i].source == u && rest[i].target == v;
          assert es[i] == rest[i];
        } else {
          assert es[|es| - 1] == e;
        }
      }
    }
  }
}
