/** The critical path: the heaviest bounded path to the first affected service, in
    order of impact, that has one. */
module CriticalPath {
  import opened Domain
  import opened Sequences
  import opened Walks
  import opened Graph
  import opened AllPaths
  import opened Impact

  // ---- Sorting by impact ----

  function Insert(s: seq<ImpactNode>, x: ImpactNode): seq<ImpactNode> {
    if s == [] then [x]
    else if x.impact > s[|s| - 1].impact then Insert(s[..|s| - 1], x) + [s[|s| - 1]]
    else s + [x]
  }

  function Sorted(s: seq<ImpactNode>): seq<ImpactNode> {
    if s == [] then [] else Insert(Sorted(s[..|s| - 1]), s[|s| - 1])
  }

  ghost predicate Descending(s: seq<ImpactNode>) {
    forall i, j :: 0 <= i < j < |s| ==> s[i].impact >= s[j].impact
  }

  lemma {:induction false} InsertDescending(s: seq<ImpactNode>, x: ImpactNode)
    requires Descending(s)
    ensures Descending(Insert(s, x))
    decreases |s|
  {
    if s == [] {
    } else if x.impact > s[|s| - 1].impact {
      var front := s[..|s| - 1];
      InsertDescending(front, x);
      InsertMembers(front, x);
    }
  }

  lemma {:induction false} InsertPermutes(s: seq<ImpactNode>, x: ImpactNode)
    ensures multiset(Insert(s, x)) == multiset(s) + multiset{x}
    decreases |s|
  {
    if s == [] {
    } else if x.impact > s[|s| - 1].impact {
      var front, last := s[..|s| - 1], s[|s| - 1];
      assert s == front + [last];
      InsertPermutes(front, x);
    }
  }

  lemma {:induction false} InsertMembers(s: seq<ImpactNode>, x: ImpactNode)
    ensures forall i :: 0 <= i < |Insert(s, x)| ==> Insert(s, x)[i] in s || Insert(s, x)[i] == x
    decreases |s|
  {
    if s == [] {
    } else if x.impact > s[|s| - 1].impact {
      InsertMembers(s[..|s| - 1], x);
    }
  }

  lemma {:induction false} SortedPermutes(s: seq<ImpactNode>)
    ensures multiset(Sorted(s)) == multiset(s)
    decreases |s|
  {
    hide Insert;
    if s == [] {
    } else {
      var front, last := s[..|s| - 1], s[|s| - 1];
      SortedPermutes(front);
      InsertPermutes(Sorted(front), last);
      assert s == front + [last];
    }
  }

  lemma {:induction false} SortedDescending(s: seq<ImpactNode>)
    ensures Descending(Sorted(s)) && multiset(Sorted(s)) == multiset(s)
    decreases |s|
  {
    hide Insert, Descending;
    SortedPermutes(s);
    if s == [] {
      NoneDescending();
    } else {
      SortedDescending(s[..|s| - 1]);
      InsertDescending(Sorted(s[..|s| - 1]), s[|s| - 1]);
    }
  }

  lemma NoneDescending()
    ensures Descending([])
  {
  }

  /** The entries of impact `r`, in order. */
  ghost function WithImpact(s: seq<ImpactNode>, r: real): seq<ImpactNode> {
    if s == [] then []
    else WithImpact(s[..|s| - 1], r) + if s[|s| - 1].impact == r then [s[|s| - 1]] else []
  }

  lemma {:induction false} InsertStable(s: seq<ImpactNode>, x: ImpactNode, r: real)
    ensures WithImpact(Insert(s, x), r) == WithImpact(s, r) + if x.impact == r then [x] else []
    decreases |s|
  {
    if s == [] {
      assert [x][..0] == [];
    } else {
      var front, last := s[..|s| - 1], s[|s| - 1];
      if x.impact > last.impact {
        InsertStable(front, x, r);
        assert (Insert(front, x) + [last])[..|Insert(front, x)|] == Insert(front, x);
      } else {
        assert (s + [x])[..|s|] == s;
      }
    }
  }

  /** Entries of equal impact keep their order. */
  lemma {:induction false} SortedStable(s: seq<ImpactNode>, r: real)
    ensures WithImpact(Sorted(s), r) == WithImpact(s, r)
    decreases |s|
  {
    if s == [] {
    } else {
      SortedStable(s[..|s| - 1], r);
      InsertStable(Sorted(s[..|s| - 1]), s[|s| - 1], r);
    }
  }

  /** Moves the entry at `i` left past the lighter ones. */
  method Sink(a: array<ImpactNode>, i: nat)
    requires i < a.Length
    modifies a
    ensures a[..i + 1] == Insert(old(a[..i]), old(a[i]))
    ensures a[i + 1..] == old(a[i + 1..])
  {
    hide Insert;
    var j := i;
    ghost var x := a[i];
    ghost var left, right: seq<ImpactNode> := a[..i], [];
    while j > 0 && a[j].impact > a[j - 1].impact
      invariant j <= i && |left| == j && j + |right| == i
      invariant forall k :: 0 <= k <= i ==> a[k] == if k < j then left[k] else if k == j then x else right[k - j - 1]
      invariant Insert(left, x) + right == Insert(old(a[..i]), x)
      invariant a[i + 1..] == old(a[i + 1..])
    {
      a[j], a[j - 1] := a[j - 1], a[j];
      InsertStep(left, right, x);
      right := [left[j - 1]] + right;
      left := left[..j - 1];
      j := j - 1;
    }
    InsertEnd(left, x);
    assert a[..i + 1] == left + [x] + right;
  }

  lemma InsertEnd(left: seq<ImpactNode>, x: ImpactNode)
    requires left == [] || x.impact <= left[|left| - 1].impact
    ensures Insert(left, x) == left + [x]
  {
  }

  lemma InsertStep(left: seq<ImpactNode>, right: seq<ImpactNode>, x: ImpactNode)
    requires left != [] && x.impact > left[|left| - 1].impact
    ensures Insert(left[..|left| - 1], x) + ([left[|left| - 1]] + right) == Insert(left, x) + right
  {
  }

  method SortByImpact(a: array<ImpactNode>)
    modifies a
    ensures a[..] == Sorted(old(a[..]))
  {
    ghost var was := a[..];
    for i := 0 to a.Length
      invariant a[..i] == Sorted(was[..i]) && a[i..] == was[i..]
    {
      assert was[..i + 1][..i] == was[..i];
      assert a[i] == a[i..][0] && was[i] == was[i..][0];
      assert a[i + 1..] == a[i..][1..] && was[i + 1..] == was[i..][1..];
      Sink(a, i);
    }
    assert a[..a.Length] == a[..] && was[..a.Length] == was;
  }

  // ---- Scores ----

  /** The summed effective weight of the present services on a path. */
  ghost function Score(nodes: map<Uuid, ServiceNode>, p: seq<Uuid>): (score: real)
    ensures score >= 0.0
    ensures p != [] && (forall i :: 0 <= i < |p| ==> p[i] in nodes) ==> score > 0.0
  {
    if p == [] then 0.0
    else Score(nodes, p[..|p| - 1])
         + if p[|p| - 1] in nodes then nodes[p[|p| - 1]].EffectiveWeight() else 0.0
  }

  /** The scores of the parts of a path add up. */
  lemma {:induction false} ScoreJoins(nodes: map<Uuid, ServiceNode>, p: seq<Uuid>, q: seq<Uuid>)
    ensures Score(nodes, p + q) == Score(nodes, p) + Score(nodes, q)
    decreases |q|
  {
    if q == [] {
      assert p + q == p;
    } else {
      var front, v := q[..|q| - 1], q[|q| - 1];
      ScoreJoins(nodes, p, front);
      assert (p + q)[..|p + q| - 1] == p + front;
    }
  }

  /** A present service scores its effective weight, an absent one nothing. */
  lemma ScoreOfOne(nodes: map<Uuid, ServiceNode>, v: Uuid)
    ensures v in nodes && nodes[v].weight > 0.0 ==> Score(nodes, [v]) == nodes[v].weight
    ensures v in nodes && nodes[v].weight <= 0.0 ==> Score(nodes, [v]) == nodes[v].importance.Weight()
    ensures v !in nodes ==> Score(nodes, [v]) == 0.0
  {
    var one := [v];
    assert one[..0] == [];
    assert Score(nodes, one[..0]) == 0.0;
  }

  /** The effective weights along a path, in order. */
  ghost function Weights(nodes: map<Uuid, ServiceNode>, p: seq<Uuid>): seq<real> {
    seq(|p|, i requires 0 <= i < |p| => if p[i] in nodes then nodes[p[i]].EffectiveWeight() else 0.0)
  }

  lemma {:induction false} ScoreIsSum(nodes: map<Uuid, ServiceNode>, p: seq<Uuid>)
    ensures Score(nodes, p) == Sum(Weights(nodes, p))
    decreases |p|
  {
    if p == [] {
    } else {
      var n := |p| - 1;
      ScoreIsSum(nodes, p[..n]);
      assert Weights(nodes, p)[..n] == Weights(nodes, p[..n]);
    }
  }

  method PathScore(graph: InMemoryGraph, path: seq<Uuid>) returns (score: real)
    ensures score == Score(graph.nodes, path) == Sum(Weights(graph.nodes, path))
  {
    ScoreIsSum(graph.nodes, path);
    score := 0.0;
    for i := 0 to |path|
      invariant score == Score(graph.nodes, path[..i])
    {
      assert path[..i + 1][..i] == path[..i];
      var n := graph.GetNode(path[i]);
      if n.Some? {
        score := score + n.value.EffectiveWeight();
      }
    }
    assert path[..|path|] == path;
  }

  // ---- The critical path ----

  /** Nothing can be reached from `s` at `v` over a bounded simple path. */
  ghost predicate NoPath(g: Topology, s: Uuid, v: Uuid, maxDepth: int) {
    forall p :: !BoundedPath(g, p, s, v, maxDepth)
  }

  /** `path` is a bounded path from `s` to `v`, its effective weights sum up to
      `score`, and those of no other such path to more. */
  ghost predicate Heaviest(g: Topology, s: Uuid, v: Uuid, maxDepth: int, path: seq<Uuid>, score: real) {
    && BoundedPath(g, path, s, v, maxDepth) && score == Sum(Weights(g.nodes, path))
    && forall p :: BoundedPath(g, p, s, v, maxDepth) ==> Sum(Weights(g.nodes, p)) <= score
  }

  /** The answer goes to the first entry of `order` that has a bounded path. */
  ghost predicate FirstHeaviest(g: Topology, s: Uuid, maxDepth: int, order: seq<ImpactNode>, path: seq<Uuid>,
                                score: real)
  {
    exists i :: 0 <= i < |order| && Heaviest(g, s, order[i].node.id, maxDepth, path, score)
                && forall j :: 0 <= j < i ==> NoPath(g, s, order[j].node.id, maxDepth)
  }

  /** The two halves of an impact analysis in order of impact. */
  ghost predicate ImpactOrder(g: Topology, s: Uuid, maxDepth: int, order: seq<ImpactNode>) {
    exists r :: IsImpactResult(g, s, maxDepth, r) && order == Sorted(r.upstream + r.downstream)
  }

  /** One target: the best of its paths, if it has any. */
  method BestPath(graph: InMemoryGraph, serviceID: Uuid, target: Uuid, maxDepth: int)
    returns (path: seq<Uuid>, score: real)
    ensures if NoPath(graph.View(), serviceID, target, maxDepth)
            then path == [] && score == 0.0
            else Heaviest(graph.View(), serviceID, target, maxDepth, path, score) && score > 0.0 && path != []
  {
    hide PathsThrough, SimplePath, Heaviest, Score;
    ghost var g := graph.View();
    path, score := [], 0.0;
    var paths := FindAllPaths(graph, serviceID, target, maxDepth);
    forall p ensures p in paths <==> BoundedPath(g, p, serviceID, target, maxDepth) {
      AllPathsExact(g, serviceID, target, maxDepth, p);
    }
    for i := 0 to |paths|
      invariant if i == 0 then path == [] && score == 0.0
                else path in paths && score == Score(g.nodes, path) && score > 0.0
      invariant forall j :: 0 <= j < i ==> Score(g.nodes, paths[j]) <= score
    {
      assert paths[i] in paths;
      BoundedNonempty(g, paths[i], serviceID, target, maxDepth);
      var s := PathScore(graph, paths[i]);
      if s > score {
        score := s;
        path := paths[i];
      }
    }
    if paths == [] {
      assert NoPath(g, serviceID, target, maxDepth);
    } else {
      assert paths[0] in paths;
      BoundedNonempty(g, path, serviceID, target, maxDepth);
      HeaviestOf(g, serviceID, target, maxDepth, paths, path, score);
    }
  }

  lemma HeaviestOf(g: Topology, s: Uuid, t: Uuid, maxDepth: int, paths: seq<seq<Uuid>>, path: seq<Uuid>, score: real)
    requires forall p :: p in paths <==> BoundedPath(g, p, s, t, maxDepth)
    requires path in paths && score == Score(g.nodes, path)
    requires forall j :: 0 <= j < |paths| ==> Score(g.nodes, paths[j]) <= score
    ensures Heaviest(g, s, t, maxDepth, path, score)
  {
    hide BoundedPath, Score, Weights, Sum;
    ScoreIsSum(g.nodes, path);
    forall p | BoundedPath(g, p, s, t, maxDepth) ensures Sum(Weights(g.nodes, p)) <= score {
      assert p in paths;
      ScoreIsSum(g.nodes, p);
    }
  }

  lemma BoundedNonempty(g: Topology, p: seq<Uuid>, s: Uuid, t: Uuid, maxDepth: int)
    requires BoundedPath(g, p, s, t, maxDepth)
    ensures p != [] && Score(g.nodes, p) > 0.0
  {
  }

  method FindCriticalPath(graph: InMemoryGraph?, serviceID: Uuid, maxDepth: int)
    returns (res: Result<(seq<Uuid>, real)>)
    requires graph != null ==> graph.Valid()
    ensures graph == null ==> res == Err(GraphNotReady)
    ensures graph != null && serviceID !in graph.nodes ==> res == Err(NodeNotFound)
    ensures graph != null && serviceID in graph.nodes ==>
              if res.Ok?
              then exists order :: ImpactOrder(graph.View(), serviceID, maxDepth, order)
                                   && FirstHeaviest(graph.View(), serviceID, maxDepth, order, res.value.0, res.value.1)
              else res == Err(PathNotFound)
    ensures graph != null && serviceID in graph.nodes ==>
              (res.Ok? <==> SomethingInReach(graph.View(), serviceID, maxDepth))
    ensures res.Ok? ==> res.value.0 != [] && TopImpact(graph.View(), serviceID, maxDepth, res.value.0[|res.value.0| - 1])
  {
    hide IsImpactResult, NoPath, Heaviest, SomethingInReach, FirstHeaviest, ImpactOrder, Sorted, TopImpact;
    if graph == null {
      return Err(GraphNotReady);
    }
    if graph.GetNode(serviceID).None? {
      return Err(NodeNotFound);
    }
    ghost var g := graph.View();
    // The analysis cannot fail once the graph and the service are there.
    var impact := AnalyzeImpact(graph, serviceID, maxDepth);
    var lists := impact.value.upstream + impact.value.downstream;
    var all := new ImpactNode[|lists|](i requires 0 <= i < |lists| => lists[i]);
    assert all[..] == lists;
    SortByImpact(all);
    ghost var order := all[..];
    OrderFromResult(g, serviceID, maxDepth, impact.value);
    for i := 0 to all.Length
      invariant all[..] == order
      invariant forall j :: 0 <= j < i ==> NoPath(g, serviceID, order[j].node.id, maxDepth)
    {
      var path, score := BestPath(graph, serviceID, all[i].node.id, maxDepth);
      if score > 0.0 {
        FirstFound(g, serviceID, maxDepth, order, i, path, score);
        SomethingFound(g, serviceID, maxDepth, impact.value, order, i, path, score);
        AnswerTops(g, serviceID, maxDepth, order, path, score);
        return Ok((path, score));
      }
    }
    NothingFound(g, serviceID, maxDepth, impact.value, order);
    res := Err(PathNotFound);
  }

  lemma OrderFromResult(g: Topology, s: Uuid, maxDepth: int, r: ImpactResult)
    requires IsImpactResult(g, s, maxDepth, r)
    ensures ImpactOrder(g, s, maxDepth, Sorted(r.upstream + r.downstream))
  {
  }

  lemma FirstFound(g: Topology, s: Uuid, maxDepth: int, order: seq<ImpactNode>, i: nat, path: seq<Uuid>, score: real)
    requires i < |order| && Heaviest(g, s, order[i].node.id, maxDepth, path, score)
    requires forall j :: 0 <= j < i ==> NoPath(g, s, order[j].node.id, maxDepth)
    ensures FirstHeaviest(g, s, maxDepth, order, path, score)
  {
  }

  // ---- When there is an answer ----

  /** Some other service lies at the end of a bounded path. */
  ghost predicate SomethingInReach(g: Topology, s: Uuid, maxDepth: int) {
    exists v, p :: v != s && BoundedPath(g, p, s, v, maxDepth)
  }

  lemma OrderMembers(lists: seq<ImpactNode>, x: ImpactNode)
    ensures x in Sorted(lists) <==> x in lists
  {
    SortedDescending(lists);
    assert x in Sorted(lists) <==> x in multiset(Sorted(lists));
    assert x in lists <==> x in multiset(lists);
  }

  lemma SomethingFound(g: Topology, s: Uuid, maxDepth: int, r: ImpactResult, order: seq<ImpactNode>, i: nat,
                       path: seq<Uuid>, score: real)
    requires IsImpactResult(g, s, maxDepth, r) && order == Sorted(r.upstream + r.downstream) && i < |order|
    requires Heaviest(g, s, order[i].node.id, maxDepth, path, score)
    ensures SomethingInReach(g, s, maxDepth)
  {
    hide HopDistance, BoundedPath, Sorted;
    assert order[i] in order;
    OrderMembers(r.upstream + r.downstream, order[i]);
    EntryElsewhere(g, s, maxDepth, r, order[i]);
  }

  lemma EntryElsewhere(g: Topology, s: Uuid, maxDepth: int, r: ImpactResult, x: ImpactNode)
    requires IsImpactResult(g, s, maxDepth, r) && x in r.upstream + r.downstream
    ensures x.node.id != s
  {
    hide HopDistance;
    if x in r.upstream {
      var k :| 0 <= k < |r.upstream| && r.upstream[k] == x;
      assert IsImpactEntry(g, Reverse(Arcs(g.adj)), s, maxDepth, x);
    } else {
      var k :| 0 <= k < |r.downstream| && r.downstream[k] == x;
      assert IsImpactEntry(g, Arcs(g.adj), s, maxDepth, x);
    }
  }

  lemma NothingFound(g: Topology, s: Uuid, maxDepth: int, r: ImpactResult, order: seq<ImpactNode>)
    requires IsImpactResult(g, s, maxDepth, r) && order == Sorted(r.upstream + r.downstream)
    requires forall j :: 0 <= j < |order| ==> NoPath(g, s, order[j].node.id, maxDepth)
    ensures !SomethingInReach(g, s, maxDepth)
  {
    forall v, p | v != s ensures !BoundedPath(g, p, s, v, maxDepth) {
      if BoundedPath(g, p, s, v, maxDepth) {
        var x := ReachListed(g, s, maxDepth, r, v, p);
        OrderMembers(r.upstream + r.downstream, x);
      }
    }
  }

  lemma ReachListed(g: Topology, s: Uuid, maxDepth: int, r: ImpactResult, v: Uuid, p: seq<Uuid>) returns (x: ImpactNode)
    requires IsImpactResult(g, s, maxDepth, r) && v != s && BoundedPath(g, p, s, v, maxDepth)
    ensures x in r.upstream + r.downstream && x.node.id == v
  {
    WalkSteps(Arcs(g.adj), p, s, v);
    var d := DistanceExists(Arcs(g.adj), s, v, |p| - 1);
    assert v in g.nodes;
    ListedDistance(g, Arcs(g.adj), s, maxDepth, r.downstream, r.downstreamDepth, v, d);
    var k :| 0 <= k < |r.downstream| && r.downstream[k].node.id == v && r.downstream[k].depth == d;
    x := r.downstream[k];
  }

  /** When edges start at present nodes, being in reach of a present service is
      having a distance within the bound. */
  lemma ReachIsDistance(g: Topology, s: Uuid, v: Uuid, maxDepth: int)
    requires IndexedSourcesPresent(g) && v in g.nodes
    ensures (exists p :: BoundedPath(g, p, s, v, maxDepth)) <==>
            (exists d: nat :: d <= maxDepth && HopDistance(Arcs(g.adj), s, v, d))
  {
    var E := Arcs(g.adj);
    if p :| BoundedPath(g, p, s, v, maxDepth) {
      WalkSteps(E, p, s, v);
      var d := DistanceExists(E, s, v, |p| - 1);
    }
    if d: nat :| d <= maxDepth && HopDistance(E, s, v, d) {
      var p := StepsWalk(E, s, v, d);
      ShortestIsSimple(E, p, s, v);
      WalkInside(E, g.nodes.Keys, p, s, v);
      assert BoundedPath(g, p, s, v, maxDepth);
    }
  }

  // ---- The target of the answer has the greatest impact ----

  /** What an impact analysis lists, in either direction. */
  ghost predicate IsListed(g: Topology, s: Uuid, maxDepth: int, x: ImpactNode) {
    IsImpactEntry(g, Arcs(g.adj), s, maxDepth, x) || IsImpactEntry(g, Reverse(Arcs(g.adj)), s, maxDepth, x)
  }

  /** `t` is listed with an impact that no listed service with a bounded path exceeds. */
  ghost predicate TopImpact(g: Topology, s: Uuid, maxDepth: int, t: Uuid) {
    exists e :: IsListed(g, s, maxDepth, e) && e.node.id == t
                && forall x :: IsListed(g, s, maxDepth, x) && !NoPath(g, s, x.node.id, maxDepth) ==> x.impact <= e.impact
  }

  lemma EntryInList(g: Topology, E: set<Arc>, s: Uuid, maxDepth: int, list: seq<ImpactNode>, deepest: nat,
                    x: ImpactNode)
    requires IsImpactList(g, E, s, maxDepth, list, deepest)
    ensures IsImpactEntry(g, E, s, maxDepth, x) <==> x in list
  {
    hide HopDistance, ImpactScore;
    if IsImpactEntry(g, E, s, maxDepth, x) {
      assert Lists(list, x.node.id, x.depth);
      var k :| 0 <= k < |list| && list[k].node.id == x.node.id && list[k].depth == x.depth;
      assert IsImpactEntry(g, E, s, maxDepth, list[k]);
      assert list[k] == x;
    }
  }

  lemma ListedInOrder(g: Topology, s: Uuid, maxDepth: int, order: seq<ImpactNode>, x: ImpactNode)
    requires ImpactOrder(g, s, maxDepth, order)
    ensures IsListed(g, s, maxDepth, x) <==> x in order
    ensures Descending(order)
  {
    hide Sorted, IsImpactEntry, IsImpactList;
    var r :| IsImpactResult(g, s, maxDepth, r) && order == Sorted(r.upstream + r.downstream);
    SortedDescending(r.upstream + r.downstream);
    OrderMembers(r.upstream + r.downstream, x);
    EntryInList(g, Reverse(Arcs(g.adj)), s, maxDepth, r.upstream, r.upstreamDepth, x);
    EntryInList(g, Arcs(g.adj), s, maxDepth, r.downstream, r.downstreamDepth, x);
  }

  /** No service with a bounded path has an impact entry above the one of the answer's target. */
  lemma AnswerTops(g: Topology, s: Uuid, maxDepth: int, order: seq<ImpactNode>, path: seq<Uuid>, score: real)
    requires ImpactOrder(g, s, maxDepth, order) && FirstHeaviest(g, s, maxDepth, order, path, score)
    ensures path != [] && TopImpact(g, s, maxDepth, path[|path| - 1])
  {
    hide ImpactOrder, IsListed, NoPath;
    var i :| 0 <= i < |order| && Heaviest(g, s, order[i].node.id, maxDepth, path, score)
             && forall j :: 0 <= j < i ==> NoPath(g, s, order[j].node.id, maxDepth);
    assert order[i] in order;
    ListedInOrder(g, s, maxDepth, order, order[i]);
    forall x | IsListed(g, s, maxDepth, x) && !NoPath(g, s, x.node.id, maxDepth) ensures x.impact <= order[i].impact {
      ListedInOrder(g, s, maxDepth, order, x);
      var j :| 0 <= j < |order| && order[j] == x;
    }
  }
}
