/** Depth-bounded breadth-first search and the impact analysis built on it. */
module Impact {
  import opened Domain
  import opened Walks
  import opened Graph

  datatype Item = Item(id: Uuid, depth: nat)

  /** The state of a bounded search. */
  datatype Search = Search(visited: map<Uuid, nat>, queue: seq<Item>)

  datatype ImpactNode = ImpactNode(node: ServiceNode, depth: nat, impact: real, isCritical: bool)

  datatype ImpactResult = ImpactResult(
    root: ServiceNode,
    upstreamDepth: nat,
    downstreamDepth: nat,
    upstream: seq<ImpactNode>,
    downstream: seq<ImpactNode>,
    totalAffected: nat)

  // ---- The search invariant ----

  /** `v` has been visited at depth `d` or less, waits in the queue at depth `d`
      or less, or `d` is out of bounds. */
  ghost predicate Settled(maxDepth: int, visited: map<Uuid, nat>, queue: seq<Item>, v: Uuid, d: nat) {
    || (v in visited && visited[v] <= d)
    || (exists i :: 0 <= i < |queue| && queue[i].id == v && queue[i].depth <= d)
    || d > maxDepth
  }

  ghost predicate QueueOrdered(queue: seq<Item>) {
    forall i, j :: 0 <= i < j < |queue| ==> queue[i].depth <= queue[j].depth <= queue[i].depth + 1
  }

  ghost predicate QueueReached(E: set<Arc>, s: Uuid, visited: map<Uuid, nat>, queue: seq<Item>) {
    forall i :: 0 <= i < |queue| ==>
      && Steps(E, s, queue[i].id, queue[i].depth)
      && forall v :: v in visited ==> visited[v] <= queue[i].depth
  }

  /** Every visited identifier carries its exact distance. */
  ghost predicate Exact(E: set<Arc>, s: Uuid, maxDepth: int, visited: map<Uuid, nat>) {
    forall v :: v in visited ==> visited[v] <= maxDepth && HopDistance(E, s, v, visited[v])
  }

  ghost predicate Expanded(E: set<Arc>, maxDepth: int, visited: map<Uuid, nat>, queue: seq<Item>, u: Uuid)
    requires u in visited
  {
    forall v :: Arc(u, v) in E ==> Settled(maxDepth, visited, queue, v, visited[u] + 1)
  }

  ghost predicate SearchInv(E: set<Arc>, s: Uuid, maxDepth: int, st: Search) {
    match st
    case Search(visited, queue) =>
      && QueueOrdered(queue)
      && QueueReached(E, s, visited, queue)
      && Exact(E, s, maxDepth, visited)
      && Settled(maxDepth, visited, queue, s, 0)
      && forall u :: u in visited ==> Expanded(E, maxDepth, visited, queue, u)
  }

  /** Whatever lies closer than the whole queue has been visited. */
  lemma {:induction false} Frontier(E: set<Arc>, s: Uuid, maxDepth: int, visited: map<Uuid, nat>, queue: seq<Item>,
                                    v: Uuid, n: nat)
    requires SearchInv(E, s, maxDepth, Search(visited, queue))
    requires Steps(E, s, v, n) && n <= maxDepth
    requires forall i :: 0 <= i < |queue| ==> n < queue[i].depth
    ensures v in visited && visited[v] <= n
    decreases n
  {
    if n == 0 {
    } else {
      var u :| Steps(E, s, u, n - 1) && Arc(u, v) in E;
      Frontier(E, s, maxDepth, visited, queue, u, n - 1);
      assert Expanded(E, maxDepth, visited, queue, u);
      assert Settled(maxDepth, visited, queue, v, visited[u] + 1);
    }
  }

  /** The head of the queue, when new, is visited at its exact distance. */
  lemma HeadExact(E: set<Arc>, s: Uuid, maxDepth: int, visited: map<Uuid, nat>, queue: seq<Item>)
    requires SearchInv(E, s, maxDepth, Search(visited, queue))
    requires queue != [] && queue[0].id !in visited && queue[0].depth <= maxDepth
    ensures HopDistance(E, s, queue[0].id, queue[0].depth)
  {
    var v, d := queue[0].id, queue[0].depth;
    forall n: nat | Steps(E, s, v, n) ensures d <= n {
      if n < d {
        Frontier(E, s, maxDepth, visited, queue, v, n);
      }
    }
  }

  /** Dropping a head that is out of bounds or already visited loses nothing. */
  lemma DropHead(E: set<Arc>, s: Uuid, maxDepth: int, visited: map<Uuid, nat>, queue: seq<Item>)
    requires SearchInv(E, s, maxDepth, Search(visited, queue))
    requires queue != [] && (queue[0].depth > maxDepth || queue[0].id in visited)
    ensures SearchInv(E, s, maxDepth, Search(visited, queue[1..]))
  {
    forall v, d: nat | Settled(maxDepth, visited, queue, v, d)
      ensures Settled(maxDepth, visited, queue[1..], v, d)
    {
      if !(v in visited && visited[v] <= d) && d <= maxDepth {
        var i :| 0 <= i < |queue| && queue[i].id == v && queue[i].depth <= d;
        assert i > 0;
        assert queue[1..][i - 1] == queue[i];
      }
    }
    forall u | u in visited ensures Expanded(E, maxDepth, visited, queue[1..], u) {
      assert Expanded(E, maxDepth, visited, queue, u);
    }
  }

  /** The items that the inner loop appends: the unvisited neighbours, in order. */
  ghost function NewItems(visited: map<Uuid, nat>, next: seq<Uuid>, depth: nat): (items: seq<Item>)
    ensures forall i :: 0 <= i < |items| ==> items[i].depth == depth && items[i].id in next
    ensures forall v :: v in next && v !in visited ==> Item(v, depth) in items
  {
    if next == [] then []
    else
      var n := |next| - 1;
      NewItems(visited, next[..n], depth) + if next[n] !in visited then [Item(next[n], depth)] else []
  }

  /** Settling survives visiting the head and appending items. */
  lemma SettledOn(maxDepth: int, visited: map<Uuid, nat>, queue: seq<Item>, more: seq<Item>, v: Uuid, d: nat)
    requires queue != [] && queue[0].id !in visited
    requires Settled(maxDepth, visited, queue, v, d)
    ensures Settled(maxDepth, visited[queue[0].id := queue[0].depth], queue[1..] + more, v, d)
  {
    if !(v in visited && visited[v] <= d) && d <= maxDepth {
      var i :| 0 <= i < |queue| && queue[i].id == v && queue[i].depth <= d;
      if i > 0 {
        assert (queue[1..] + more)[i - 1] == queue[i];
      }
    }
  }

  lemma OrderedOn(queue: seq<Item>, more: seq<Item>)
    requires QueueOrdered(queue) && queue != []
    requires forall i :: 0 <= i < |more| ==> more[i].depth == queue[0].depth + 1
    ensures QueueOrdered(queue[1..] + more)
  {
    var q := queue[1..] + more;
    forall i | 0 <= i < |q| ensures queue[0].depth <= q[i].depth <= queue[0].depth + 1 {
      assert q[i] == if i < |queue| - 1 then queue[i + 1] else more[i - (|queue| - 1)];
    }
    forall i, j | 0 <= i < j < |q| ensures q[i].depth <= q[j].depth {
      assert q[i] == if i < |queue| - 1 then queue[i + 1] else more[i - (|queue| - 1)];
      assert q[j] == if j < |queue| - 1 then queue[j + 1] else more[j - (|queue| - 1)];
    }
  }

  lemma ReachedOn(E: set<Arc>, s: Uuid, visited: map<Uuid, nat>, queue: seq<Item>, more: seq<Item>)
    requires QueueOrdered(queue) && QueueReached(E, s, visited, queue) && queue != []
    requires forall i :: 0 <= i < |more| ==> more[i].depth == queue[0].depth + 1 && Arc(queue[0].id, more[i].id) in E
    ensures QueueReached(E, s, visited[queue[0].id := queue[0].depth], queue[1..] + more)
  {
    var q := queue[1..] + more;
    forall i | 0 <= i < |q| ensures Steps(E, s, q[i].id, q[i].depth) && queue[0].depth <= q[i].depth {
      if i < |queue| - 1 {
        assert q[i] == queue[i + 1];
      } else {
        assert q[i] == more[i - (|queue| - 1)];
        assert Steps(E, s, queue[0].id, queue[0].depth);
      }
    }
  }

  lemma ExpandedOn(E: set<Arc>, maxDepth: int, visited: map<Uuid, nat>, queue: seq<Item>, more: seq<Item>, u: Uuid)
    requires u in visited && Expanded(E, maxDepth, visited, queue, u)
    requires queue != [] && queue[0].id !in visited
    ensures Expanded(E, maxDepth, visited[queue[0].id := queue[0].depth], queue[1..] + more, u)
  {
    forall v | Arc(u, v) in E
      ensures Settled(maxDepth, visited[queue[0].id := queue[0].depth], queue[1..] + more, v, visited[u] + 1)
    {
      SettledOn(maxDepth, visited, queue, more, v, visited[u] + 1);
    }
  }

  lemma HeadExpanded(E: set<Arc>, maxDepth: int, seen: map<Uuid, nat>, front: seq<Item>, u: Uuid, next: seq<Uuid>)
    requires u in seen
    requires forall v :: v in seen ==> seen[v] <= seen[u]
    requires forall v :: v in next <==> Arc(u, v) in E
    ensures Expanded(E, maxDepth, seen, front + NewItems(seen, next, seen[u] + 1), u)
  {
    var more := NewItems(seen, next, seen[u] + 1);
    forall v | Arc(u, v) in E ensures Settled(maxDepth, seen, front + more, v, seen[u] + 1) {
      if v !in seen {
        var i :| 0 <= i < |more| && more[i] == Item(v, seen[u] + 1);
        assert (front + more)[|front| + i] == more[i];
      }
    }
  }

  /** Visiting the head and appending its unvisited neighbours keeps the invariant. */
  lemma VisitHead(E: set<Arc>, s: Uuid, maxDepth: int, visited: map<Uuid, nat>, queue: seq<Item>, next: seq<Uuid>)
    requires SearchInv(E, s, maxDepth, Search(visited, queue))
    requires queue != [] && queue[0].id !in visited && queue[0].depth <= maxDepth
    requires forall v :: v in next <==> Arc(queue[0].id, v) in E
    ensures var seen := visited[queue[0].id := queue[0].depth];
            SearchInv(E, s, maxDepth, Search(seen, queue[1..] + NewItems(seen, next, queue[0].depth + 1)))
  {
    hide Steps, HopDistance, Settled, Expanded;
    var head := queue[0];
    var seen := visited[head.id := head.depth];
    var more := NewItems(seen, next, head.depth + 1);
    HeadExact(E, s, maxDepth, visited, queue);
    OrderedOn(queue, more);
    ReachedOn(E, s, visited, queue, more);
    SettledOn(maxDepth, visited, queue, more, s, 0);
    forall u | u in seen ensures Expanded(E, maxDepth, seen, queue[1..] + more, u) {
      if u == head.id {
        HeadExpanded(E, maxDepth, seen, queue[1..], u, next);
      } else {
        ExpandedOn(E, maxDepth, visited, queue, more, u);
      }
    }
  }

  lemma StartSearch(E: set<Arc>, s: Uuid, maxDepth: int)
    ensures SearchInv(E, s, maxDepth, Search(map[], [Item(s, 0)]))
  {
    assert [Item(s, 0)][0].id == s && Steps(E, s, s, 0);
  }

  lemma StaysInside(E: set<Arc>, s: Uuid, maxDepth: int, visited: map<Uuid, nat>, queue: seq<Item>)
    requires SearchInv(E, s, maxDepth, Search(visited, queue))
    ensures visited.Keys <= Universe(E, s)
    ensures queue != [] ==> queue[0].id in Universe(E, s)
  {
    forall v | v in visited ensures v in Universe(E, s) {
      assert Steps(E, s, v, visited[v]);
      StepsInside(E, s, v, visited[v]);
    }
    if queue != [] {
      StepsInside(E, s, queue[0].id, queue[0].depth);
    }
  }

  ghost function Universe(E: set<Arc>, s: Uuid): set<Uuid> {
    {s} + set a | a in E :: a.dst
  }

  lemma StepsInside(E: set<Arc>, s: Uuid, v: Uuid, n: nat)
    requires Steps(E, s, v, n)
    ensures v in Universe(E, s)
  {
    if n > 0 {
      var u :| Steps(E, s, u, n - 1) && Arc(u, v) in E;
    }
  }

  /** `visited` holds exactly the identifiers within `maxDepth` hops of `s`,
      each with its distance. */
  ghost predicate BoundedDistances(E: set<Arc>, s: Uuid, maxDepth: int, visited: map<Uuid, nat>) {
    forall v, d: nat :: (v in visited && visited[v] == d) <==> (HopDistance(E, s, v, d) && d <= maxDepth)
  }

  lemma SearchDone(E: set<Arc>, s: Uuid, maxDepth: int, visited: map<Uuid, nat>)
    requires SearchInv(E, s, maxDepth, Search(visited, []))
    ensures BoundedDistances(E, s, maxDepth, visited)
  {
    forall v, d: nat | HopDistance(E, s, v, d) && d <= maxDepth ensures v in visited && visited[v] == d {
      Frontier(E, s, maxDepth, visited, [], v, d);
    }
  }

  /** The inner loop: appends the unvisited neighbours. */
  method EnqueueNeighbors(queue: seq<Item>, visited: map<Uuid, nat>, next: seq<Uuid>, depth: nat)
    returns (longer: seq<Item>)
    ensures longer == queue + NewItems(visited, next, depth)
  {
    hide NewItems;
    longer := queue;
    NewItemsStart(visited, next, depth);
    for i := 0 to |next|
      invariant longer == queue + NewItems(visited, next[..i], depth)
    {
      NewItemsNext(visited, next, i, depth);
      if next[i] !in visited {
        longer := longer + [Item(next[i], depth)];
      }
    }
    assert next[..|next|] == next;
  }

  lemma NewItemsStart(visited: map<Uuid, nat>, next: seq<Uuid>, depth: nat)
    ensures NewItems(visited, next[..0], depth) == []
  {
  }

  lemma NewItemsNext(visited: map<Uuid, nat>, next: seq<Uuid>, i: nat, depth: nat)
    requires i < |next|
    ensures NewItems(visited, next[..i + 1], depth)
         == NewItems(visited, next[..i], depth) + if next[i] !in visited then [Item(next[i], depth)] else []
  {
    assert next[..i + 1][..i] == next[..i];
  }

  method Bfs(start: Uuid, maxDepth: int, neighbors: Adjacency) returns (visited: map<Uuid, nat>)
    ensures BoundedDistances(Arcs(neighbors), start, maxDepth, visited)
  {
    hide SearchInv, Universe, BoundedDistances, NewItems;
    ghost var E := Arcs(neighbors);
    visited := map[];
    var queue := [Item(start, 0)];
    StartSearch(E, start, maxDepth);
    while |queue| > 0
      invariant SearchInv(E, start, maxDepth, Search(visited, queue))
      decreases Universe(E, start) - visited.Keys, |queue|
    {
      var current := queue[0];
      StaysInside(E, start, maxDepth, visited, queue);
      if current.depth > maxDepth || current.id in visited {
        DropHead(E, start, maxDepth, visited, queue);
        queue := queue[1..];
        continue;
      }
      var next := Neighbors(neighbors, current.id);
      NeighborArcs(neighbors, current.id);
      VisitHead(E, start, maxDepth, visited, queue, next);
      assert current.id in Universe(E, start) - visited.Keys;
      visited := visited[current.id := current.depth];
      queue := EnqueueNeighbors(queue[1..], visited, next, current.depth + 1);
    }
    SearchDone(E, start, maxDepth, visited);
  }

  // ---- Impact analysis ----

  function ImpactScore(node: ServiceNode, depth: nat): (score: real)
    requires depth >= 1
    ensures score > 0.0
  {
    var status := match node.status
                  case Unhealthy => 2.0
                  case Warning => 1.5
                  case Healthy => 1.0
                  case UnknownStatus => 1.0;
    var traffic := if node.requestRate > 1000.0 then 1.5 else if node.requestRate > 100.0 then 1.2 else 1.0;
    var base := 1.0 / depth as real;
    assert base > 0.0;
    base * status * traffic
  }

  ghost predicate IsImpactEntry(g: Topology, E: set<Arc>, s: Uuid, maxDepth: int, e: ImpactNode) {
    && e.node.id != s && e.node.id in g.nodes && g.nodes[e.node.id] == e.node
    && 1 <= e.depth <= maxDepth && HopDistance(E, s, e.node.id, e.depth)
    && e.impact == ImpactScore(e.node, e.depth)
    && e.isCritical == (e.depth <= 2)
  }

  ghost predicate Lists(list: seq<ImpactNode>, v: Uuid, d: nat) {
    exists i :: 0 <= i < |list| && list[i].node.id == v && list[i].depth == d
  }

  /** `list` has exactly one entry for each other present node within `maxDepth`
      hops along `E`, at its exact distance, and `deepest` is the largest of
      those distances. */
  ghost predicate IsImpactList(g: Topology, E: set<Arc>, s: Uuid, maxDepth: int, list: seq<ImpactNode>, deepest: nat) {
    && (forall i :: 0 <= i < |list| ==> IsImpactEntry(g, E, s, maxDepth, list[i]))
    && (forall i, j :: 0 <= i < j < |list| ==> list[i].node.id != list[j].node.id)
    && (forall v, d: nat :: v in g.nodes && v != s && d <= maxDepth && HopDistance(E, s, v, d) ==> Lists(list, v, d))
    && Deepest(list, deepest)
  }

  ghost predicate Deepest(list: seq<ImpactNode>, deepest: nat) {
    && (forall i :: 0 <= i < |list| ==> list[i].depth <= deepest)
    && (if list == [] then deepest == 0 else exists i :: 0 <= i < |list| && list[i].depth == deepest)
  }

  lemma AppendEntry(list: seq<ImpactNode>, deepest: nat, e: ImpactNode)
    requires Deepest(list, deepest) && e.depth >= 1
    ensures Deepest(list + [e], if e.depth > deepest then e.depth else deepest)
    ensures Lists(list + [e], e.node.id, e.depth)
    ensures forall v, d: nat :: Lists(list, v, d) ==> Lists(list + [e], v, d)
  {
    var longer := list + [e];
    assert longer[|list|] == e;
    assert forall i :: 0 <= i < |list| ==> longer[i] == list[i];
    if list != [] && e.depth <= deepest {
      var i :| 0 <= i < |list| && list[i].depth == deepest;
      assert longer[i].depth == deepest;
    }
    forall v, d: nat | Lists(list, v, d) ensures Lists(longer, v, d) {
      var i :| 0 <= i < |list| && list[i].node.id == v && list[i].depth == d;
      assert longer[i].node.id == v;
    }
  }

  /** The loop over the visited map, with the identifiers `rest` still ahead. */
  ghost predicate Collected(g: Topology, E: set<Arc>, s: Uuid, maxDepth: int, visited: map<Uuid, nat>,
                            rest: set<Uuid>, list: seq<ImpactNode>)
  {
    && (forall i :: 0 <= i < |list| ==> IsImpactEntry(g, E, s, maxDepth, list[i]) && list[i].node.id !in rest)
    && (forall i, j :: 0 <= i < j < |list| ==> list[i].node.id != list[j].node.id)
    && (forall v :: v in visited && v !in rest && v in g.nodes && v != s ==> Lists(list, v, visited[v]))
  }

  lemma CollectEntry(g: Topology, E: set<Arc>, s: Uuid, maxDepth: int, visited: map<Uuid, nat>,
                     rest: set<Uuid>, list: seq<ImpactNode>, e: ImpactNode)
    requires Collected(g, E, s, maxDepth, visited, rest, list)
    requires e.node.id in rest && e.node.id in visited && visited[e.node.id] == e.depth
    requires IsImpactEntry(g, E, s, maxDepth, e)
    ensures Collected(g, E, s, maxDepth, visited, rest - {e.node.id}, list + [e])
  {
    AppendEntry(list, DeepestDepth(list), e);
  }

  ghost function DeepestDepth(list: seq<ImpactNode>): (d: nat)
    ensures Deepest(list, d)
  {
    if list == [] then 0
    else
      var n := |list| - 1;
      var d := DeepestDepth(list[..n]);
      assert forall i :: 0 <= i < n ==> list[..n][i] == list[i];
      if list[n].depth >= d then list[n].depth else d
  }

  lemma CollectedAll(g: Topology, E: set<Arc>, s: Uuid, maxDepth: int, visited: map<Uuid, nat>,
                     list: seq<ImpactNode>, deepest: nat)
    requires Collected(g, E, s, maxDepth, visited, {}, list)
    requires BoundedDistances(E, s, maxDepth, visited)
    requires Deepest(list, deepest)
    ensures IsImpactList(g, E, s, maxDepth, list, deepest)
  {
  }

  /** One direction of the analysis: the loop over the visited map. */
  method ListImpacted(graph: InMemoryGraph, serviceID: Uuid, ghost maxDepth: int, ghost E: set<Arc>,
                      visited: map<Uuid, nat>)
    returns (list: seq<ImpactNode>, deepest: nat)
    requires graph.Valid()
    requires BoundedDistances(E, serviceID, maxDepth, visited)
    ensures IsImpactList(graph.View(), E, serviceID, maxDepth, list, deepest)
  {
    list, deepest := [], 0;
    var rest := visited.Keys;
    while rest != {}
      invariant rest <= visited.Keys
      invariant Collected(graph.View(), E, serviceID, maxDepth, visited, rest, list)
      invariant Deepest(list, deepest)
      decreases rest
    {
      var id :| id in rest;
      if id != serviceID {
        var depth := visited[id];
        assert HopDistance(E, serviceID, id, depth) && depth <= maxDepth;
        var n := graph.GetNode(id);
        if n.Some? {
          assert depth != 0;
          var entry := ImpactNode(n.value, depth, ImpactScore(n.value, depth), depth <= 2);
          AppendEntry(list, deepest, entry);
          CollectEntry(graph.View(), E, serviceID, maxDepth, visited, rest, list, entry);
          list := list + [entry];
          if depth > deepest {
            deepest := depth;
          }
        }
      }
      rest := rest - {id};
    }
    CollectedAll(graph.View(), E, serviceID, maxDepth, visited, list, deepest);
  }

  ghost predicate IsImpactResult(g: Topology, s: Uuid, maxDepth: int, r: ImpactResult) {
    && s in g.nodes && r.root == g.nodes[s]
    && IsImpactList(g, Reverse(Arcs(g.adj)), s, maxDepth, r.upstream, r.upstreamDepth)
    && IsImpactList(g, Arcs(g.adj), s, maxDepth, r.downstream, r.downstreamDepth)
    && r.totalAffected == |r.upstream| + |r.downstream|
  }

  // ---- How impacts compare ----

  ghost predicate SameTraffic(m: ServiceNode, n: ServiceNode) {
    (m.requestRate > 100.0 <==> n.requestRate > 100.0) && (m.requestRate > 1000.0 <==> n.requestRate > 1000.0)
  }

  /** Neither unhealthy nor in warning. */
  ghost predicate Calm(n: ServiceNode) {
    n.status.Healthy? || n.status.UnknownStatus?
  }

  ghost predicate Quiet(n: ServiceNode) {
    n.requestRate <= 100.0
  }

  /** Services alike in status and traffic: impact falls with the inverse of the depth. */
  ghost predicate DepthScales(x: ImpactNode, y: ImpactNode) {
    x.node.status == y.node.status && SameTraffic(x.node, y.node) ==>
      && x.impact * x.depth as real == y.impact * y.depth as real
      && (x.depth < y.depth ==> x.impact > y.impact)
  }

  /** What the status adds to the impact of a calm service. */
  ghost predicate StatusScales(x: ImpactNode, y: ImpactNode) {
    x.depth == y.depth && SameTraffic(x.node, y.node) && Calm(y.node) ==>
      && (x.node.status.Unhealthy? ==> x.impact == 2.0 * y.impact)
      && (x.node.status.Warning? ==> x.impact == 1.5 * y.impact)
      && (Calm(x.node) ==> x.impact == y.impact)
  }

  /** What traffic adds to the impact of a quiet service. */
  ghost predicate TrafficScales(x: ImpactNode, y: ImpactNode) {
    x.depth == y.depth && x.node.status == y.node.status && Quiet(y.node) ==>
      && (x.node.requestRate > 1000.0 ==> x.impact == 1.5 * y.impact)
      && (100.0 < x.node.requestRate <= 1000.0 ==> x.impact == 1.2 * y.impact)
      && (Quiet(x.node) ==> x.impact == y.impact)
  }

  /** The unit of impact: a calm and quiet neighbour. */
  ghost predicate UnitImpact(x: ImpactNode) {
    x.depth == 1 && Calm(x.node) && Quiet(x.node) ==> x.impact == 1.0
  }

  ghost predicate ImpactsCompare(x: ImpactNode, y: ImpactNode) {
    DepthScales(x, y) && StatusScales(x, y) && TrafficScales(x, y) && UnitImpact(x)
  }

  ghost predicate ImpactsFit(r: ImpactResult) {
    forall x, y :: x in r.upstream + r.downstream && y in r.upstream + r.downstream ==> ImpactsCompare(x, y)
  }

  lemma ScoreTimesDepth(n: ServiceNode, d: nat)
    requires d >= 1
    ensures ImpactScore(n, d) * d as real == ImpactScore(n, 1)
  {
  }

  lemma SmallerFactor(a: real, b: real, m: real, n: real)
    requires a * m == b * n && 0.0 < m < n && b > 0.0
    ensures a > b
  {
    assert b * (n - m) > 0.0;
    assert (a - b) * m == b * (n - m);
  }

  ghost predicate HasScore(x: ImpactNode) {
    x.depth >= 1 && x.impact == ImpactScore(x.node, x.depth)
  }

  lemma DepthCompares(x: ImpactNode, y: ImpactNode)
    requires HasScore(x) && HasScore(y)
    ensures DepthScales(x, y)
  {
    ScoreTimesDepth(x.node, x.depth);
    ScoreTimesDepth(y.node, y.depth);
    if x.depth < y.depth && x.node.status == y.node.status && SameTraffic(x.node, y.node) {
      SmallerFactor(x.impact, y.impact, x.depth as real, y.depth as real);
    }
  }

  lemma StatusCompares(x: ImpactNode, y: ImpactNode)
    requires HasScore(x) && HasScore(y)
    ensures StatusScales(x, y) && UnitImpact(x)
  {
  }

  lemma TrafficCompares(x: ImpactNode, y: ImpactNode)
    requires HasScore(x) && HasScore(y)
    ensures TrafficScales(x, y)
  {
  }

  /** Any two listed services, be it in different analyses of different graphs. */
  lemma EntriesCompare(g: Topology, E: set<Arc>, s: Uuid, maxDepth: int, x: ImpactNode,
                       g': Topology, E': set<Arc>, s': Uuid, maxDepth': int, y: ImpactNode)
    requires IsImpactEntry(g, E, s, maxDepth, x) && IsImpactEntry(g', E', s', maxDepth', y)
    ensures ImpactsCompare(x, y)
  {
    hide HopDistance, ImpactScore, DepthScales, StatusScales, TrafficScales, UnitImpact;
    DepthCompares(x, y);
    StatusCompares(x, y);
    TrafficCompares(x, y);
  }

  lemma EntryOfResult(g: Topology, s: Uuid, maxDepth: int, r: ImpactResult, x: ImpactNode)
    requires IsImpactResult(g, s, maxDepth, r) && x in r.upstream + r.downstream
    ensures IsImpactEntry(g, Arcs(g.adj), s, maxDepth, x) || IsImpactEntry(g, Reverse(Arcs(g.adj)), s, maxDepth, x)
  {
    hide HopDistance, IsImpactEntry;
  }

  lemma ResultCompares(g: Topology, s: Uuid, maxDepth: int, r: ImpactResult)
    requires IsImpactResult(g, s, maxDepth, r)
    ensures ImpactsFit(r)
  {
    hide IsImpactResult, IsImpactEntry, ImpactsCompare;
    forall x, y | x in r.upstream + r.downstream && y in r.upstream + r.downstream ensures ImpactsCompare(x, y) {
      EntryOfResult(g, s, maxDepth, r, x);
      EntryOfResult(g, s, maxDepth, r, y);
      var E, R := Arcs(g.adj), Reverse(Arcs(g.adj));
      EntriesCompare(g, if IsImpactEntry(g, E, s, maxDepth, x) then E else R, s, maxDepth, x,
                     g, if IsImpactEntry(g, E, s, maxDepth, y) then E else R, s, maxDepth, y);
    }
  }

  method AnalyzeImpact(graph: InMemoryGraph?, serviceID: Uuid, maxDepth: int) returns (res: Result<ImpactResult>)
    requires graph != null ==> graph.Valid()
    ensures graph == null ==> res == Err(GraphNotReady)
    ensures graph != null && serviceID !in graph.nodes ==> res == Err(NodeNotFound)
    ensures graph != null && serviceID in graph.nodes ==>
              res.Ok? && IsImpactResult(graph.View(), serviceID, maxDepth, res.value) && ImpactsFit(res.value)
  {
    hide ImpactsFit;
    if graph == null {
      return Err(GraphNotReady);
    }
    var node := graph.GetNode(serviceID);
    if node.None? {
      return Err(NodeNotFound);
    }
    TransposedArcs(graph.View());
    var upstreamVisited := Bfs(serviceID, maxDepth, graph.reverseAdj);
    var upstream, upstreamDepth :=
      ListImpacted(graph, serviceID, maxDepth, Arcs(graph.reverseAdj), upstreamVisited);
    var downstreamVisited := Bfs(serviceID, maxDepth, graph.adjList);
    var downstream, downstreamDepth :=
      ListImpacted(graph, serviceID, maxDepth, Arcs(graph.adjList), downstreamVisited);
    res := Ok(ImpactResult(node.value, upstreamDepth, downstreamDepth, upstream, downstream,
                           |upstream| + |downstream|));
    ResultCompares(graph.View(), serviceID, maxDepth, res.value);
  }

  /** For two distinct services, `v` is `d` hops downstream of `u` in `u`'s
      analysis exactly when `u` is `d` hops upstream of `v` in `v`'s. */
  lemma {:induction false} ImpactDuality(g: Topology, u: Uuid, v: Uuid, maxDepth: int, ru: ImpactResult,
                                         rv: ImpactResult, d: nat)
    requires u != v
    requires IsImpactResult(g, u, maxDepth, ru) && IsImpactResult(g, v, maxDepth, rv)
    ensures Lists(ru.downstream, v, d) <==> Lists(rv.upstream, u, d)
  {
    ListedDistance(g, Arcs(g.adj), u, maxDepth, ru.downstream, ru.downstreamDepth, v, d);
    ListedDistance(g, Reverse(Arcs(g.adj)), v, maxDepth, rv.upstream, rv.upstreamDepth, u, d);
    DistanceReverses(Arcs(g.adj), u, v, d);
  }

  /** Being listed at depth `d` is exactly being another present node at
      distance `d` within the bound. */
  lemma {:induction false} ListedDistance(g: Topology, E: set<Arc>, s: Uuid, maxDepth: int,
                                          list: seq<ImpactNode>, deepest: nat, v: Uuid, d: nat)
    requires IsImpactList(g, E, s, maxDepth, list, deepest)
    ensures Lists(list, v, d) <==> (v in g.nodes && v != s && d <= maxDepth && HopDistance(E, s, v, d))
  {
    hide HopDistance;
    if Lists(list, v, d) {
      var i :| 0 <= i < |list| && list[i].node.id == v && list[i].depth == d;
      assert IsImpactEntry(g, E, s, maxDepth, list[i]);
    }
  }
}
