/** The path that is presented as the shortest: the first one the exhaustive search
    meets.  When is it one of least latency, or with the fewest arcs? */
module PathOrder {
  import opened Domain
  import opened Sequences
  import opened Walks
  import opened Graph
  import opened WeightedSearch
  import opened Rebuilds
  import opened AllPaths

  /** What paths are compared by. */
  type Measure = seq<Uuid> -> real

  /** The first path found measures least of all that are found. */
  ghost predicate FirstIsLeast(g: Topology, s: Uuid, t: Uuid, maxHops: int, m: Measure) {
    var paths := PathsThrough(g, [], s, t, maxHops);
    forall i :: 0 <= i < |paths| ==> m(paths[0]) <= m(paths[i])
  }

  /** All bounded simple paths measure the same. */
  ghost predicate AllMeasureEqual(g: Topology, s: Uuid, t: Uuid, maxHops: int, m: Measure) {
    forall p, q :: BoundedPath(g, p, s, t, maxHops) && BoundedPath(g, q, s, t, maxHops) ==> m(p) == m(q)
  }

  // ---- A path whose arcs come first is found first ----

  lemma {:induction false} ViaFirst(g: Topology, path: seq<Uuid>, nexts: seq<Uuid>, target: Uuid, maxHops: int)
    requires nexts != [] && PathsThrough(g, path, nexts[0], target, maxHops) != []
    ensures var via := PathsVia(g, path, nexts, target, maxHops);
            via != [] && via[0] == PathsThrough(g, path, nexts[0], target, maxHops)[0]
    decreases |nexts|
  {
    hide PathsThrough;
    var n := |nexts| - 1;
    if n == 0 {
      assert nexts[..0] == [];
      assert PathsVia(g, path, [], target, maxHops) == [];
    } else {
      ViaFirst(g, path, nexts[..n], target, maxHops);
    }
  }

  /** Every service of `p` from index `from` on names the next one first. */
  ghost predicate NextFirst(adj: Adjacency, p: seq<Uuid>, from: nat) {
    forall i :: from <= i < |p| - 1 ==> Neighbors(adj, p[i]) != [] && Neighbors(adj, p[i])[0] == p[i + 1]
  }

  lemma {:induction false} ThroughFirst(g: Topology, path: seq<Uuid>, target: Uuid, maxHops: int, p: seq<Uuid>)
    requires path < p && Continues(g, path, p[|path|], target, maxHops, p) && NextFirst(g.adj, p, |path|)
    ensures var found := PathsThrough(g, path, p[|path|], target, maxHops);
            found != [] && found[0] == p
    decreases |p| - |path|
  {
    hide PathsVia;
    var current := p[|path|];
    var longer := path + [current];
    assert forall i :: 0 <= i < |path| ==> path[i] == p[i];
    if current == target {
      assert |p| == |longer|;
      assert p == longer;
    } else {
      assert p[..|longer|] == longer;
      ThroughFirst(g, longer, target, maxHops, p);
      ViaFirst(g, longer, Neighbors(g.adj, current), target, maxHops);
    }
  }

  lemma PathFoundFirst(g: Topology, s: Uuid, t: Uuid, maxHops: int, p: seq<Uuid>)
    requires BoundedPath(g, p, s, t, maxHops) && NextFirst(g.adj, p, 0)
    ensures PathsThrough(g, [], s, t, maxHops) != [] && PathsThrough(g, [], s, t, maxHops)[0] == p
  {
    ThroughFirst(g, [], t, maxHops, p);
  }

  // ---- Records in another order ----

  /** The records of a path, one for each of its arcs. */
  lemma {:induction false} RecordsAlong(es: seq<CallEdge>, p: seq<Uuid>) returns (along: seq<CallEdge>)
    requires IsWalk(Arcs(Forward(es)), p)
    ensures Along(es, p, along)
    decreases |p|
  {
    if |p| == 1 {
      along := [];
    } else {
      var n := |p| - 1;
      along := RecordsAlong(es, p[..n]);
      ForwardArcs(es);
      assert Arc(p[n - 1], p[n]) in Arcs(Forward(es));
      var e :| e in es && Arc(e.source, e.target) == Arc(p[n - 1], p[n]);
      along := along + [e];
    }
  }

  ghost predicate Along(es: seq<CallEdge>, p: seq<Uuid>, along: seq<CallEdge>) {
    && |along| == |p| - 1
    && forall i :: 0 <= i < |along| ==> along[i] in es && along[i].source == p[i] && along[i].target == p[i + 1]
  }

  lemma {:induction false} ForwardAlong(es: seq<CallEdge>, p: seq<Uuid>, along: seq<CallEdge>, m: nat, i: nat)
    requires Along(es, p, along) && Distinct(p) && m <= |along| && i < |along|
    ensures Neighbors(Forward(along[..m]), p[i]) == if i < m then [p[i + 1]] else []
    decreases m
  {
    if m == 0 {
    } else {
      ForwardAlong(es, p, along, m - 1, i);
      assert along[..m][..m - 1] == along[..m - 1];
      assert i != m - 1 ==> p[i] != p[m - 1];
    }
  }

  lemma ForwardSnoc(es: seq<CallEdge>, e: CallEdge, u: Uuid)
    ensures Neighbors(Forward(es + [e]), u) == Neighbors(Forward(es), u) + if e.source == u then [e.target] else []
  {
    assert (es + [e])[..|es|] == es;
  }

  lemma ForwardNone(u: Uuid)
    ensures Neighbors(Forward([]), u) == []
  {
  }

  lemma {:induction false} ForwardConcat(a: seq<CallEdge>, b: seq<CallEdge>, u: Uuid)
    ensures Neighbors(Forward(a + b), u) == Neighbors(Forward(a), u) + Neighbors(Forward(b), u)
    decreases |b|
  {
    hide Forward, Neighbors;
    if b == [] {
      assert a + b == a;
      ForwardNone(u);
    } else {
      var n := |b| - 1;
      ForwardConcat(a, b[..n], u);
      ForwardSnoc(a + b[..n], b[n], u);
      ForwardSnoc(b[..n], b[n], u);
      assert a + b == (a + b[..n]) + [b[n]] && b == b[..n] + [b[n]];
    }
  }

  lemma {:induction false} SeqOf<T>(m: multiset<T>) returns (s: seq<T>)
    ensures multiset(s) == m
    decreases |m|
  {
    if m == multiset{} {
      s := [];
    } else {
      var x :| x in m;
      var rest := SeqOf(m - multiset{x});
      s := rest + [x];
    }
  }

  lemma {:induction false} DistinctCounts<T>(s: seq<T>, x: T)
    requires Distinct(s)
    ensures multiset(s)[x] <= 1
    decreases |s|
  {
    if s == [] {
    } else {
      var n := |s| - 1;
      DistinctCounts(s[..n], x);
      assert s == s[..n] + [s[n]];
      assert s[n] !in s[..n];
    }
  }

  /** The same records with those of `p` first. */
  lemma RecordsFirst(es: seq<CallEdge>, p: seq<Uuid>, along: seq<CallEdge>) returns (other: seq<CallEdge>)
    requires Distinct(p) && Along(es, p, along)
    ensures multiset(other) == multiset(es) && along <= other
  {
    forall i, j | 0 <= i < j < |along| ensures along[i] != along[j] {
      assert p[i] != p[j];
    }
    forall x ensures multiset(along)[x] <= multiset(es)[x] {
      DistinctCounts(along, x);
      if x in along {
        assert x in es;
      }
    }
    var rest := SeqOf(multiset(es) - multiset(along));
    other := along + rest;
  }

  lemma SameArcs(es: seq<CallEdge>, other: seq<CallEdge>)
    requires multiset(other) == multiset(es)
    ensures Arcs(Forward(other)) == Arcs(Forward(es))
  {
    hide Arcs, Forward;
    ForwardArcs(es);
    ForwardArcs(other);
    assert forall e :: e in es <==> e in multiset(es);
    assert forall e :: e in other <==> e in multiset(other);
  }

  /** In some order of the records `p` is the first path found. */
  lemma SomeOrderFinds(ns: seq<ServiceNode>, es: seq<CallEdge>, s: Uuid, t: Uuid, maxHops: int, p: seq<Uuid>)
    returns (other: seq<CallEdge>)
    requires BoundedPath(Rebuilt(ns, es), p, s, t, maxHops)
    ensures multiset(other) == multiset(es)
    ensures var paths := PathsThrough(Rebuilt(ns, other), [], s, t, maxHops);
            paths != [] && paths[0] == p
  {
    hide Forward, PathsThrough, Arcs;
    var along := RecordsAlong(es, p);
    other := RecordsFirst(es, p, along);
    SameArcs(es, other);
    forall i | 0 <= i < |p| - 1 ensures Neighbors(Forward(other), p[i]) != [] && Neighbors(Forward(other), p[i])[0] == p[i + 1] {
      ForwardAlong(es, p, along, |along|, i);
      assert along[..|along|] == along;
      ForwardConcat(along, other[|along|..], p[i]);
      assert along + other[|along|..] == other;
    }
    PathFoundFirst(Rebuilt(ns, other), s, t, maxHops, p);
  }

  lemma SameBounded(ns: seq<ServiceNode>, es: seq<CallEdge>, other: seq<CallEdge>, s: Uuid, t: Uuid, maxHops: int,
                    p: seq<Uuid>)
    requires multiset(other) == multiset(es)
    ensures BoundedPath(Rebuilt(ns, other), p, s, t, maxHops) <==> BoundedPath(Rebuilt(ns, es), p, s, t, maxHops)
  {
    hide Arcs, Forward, SimplePath;
    SameArcs(es, other);
  }

  // ---- Every measure ----

  /** In whatever order the records are read. */
  ghost predicate AlwaysLeast(ns: seq<ServiceNode>, es: seq<CallEdge>, s: Uuid, t: Uuid, maxHops: int, m: Measure) {
    forall other :: multiset(other) == multiset(es) ==> FirstIsLeast(Rebuilt(ns, other), s, t, maxHops, m)
  }

  /** The first path measures least for every order of the records exactly when all
      bounded simple paths measure the same. */
  lemma AlwaysLeastIff(ns: seq<ServiceNode>, es: seq<CallEdge>, s: Uuid, t: Uuid, maxHops: int, m: Measure)
    ensures AlwaysLeast(ns, es, s, t, maxHops, m) <==> AllMeasureEqual(Rebuilt(ns, es), s, t, maxHops, m)
  {
    hide PathsThrough, BoundedPath, Rebuilt;
    if AlwaysLeast(ns, es, s, t, maxHops, m) {
      forall p, q | BoundedPath(Rebuilt(ns, es), p, s, t, maxHops) && BoundedPath(Rebuilt(ns, es), q, s, t, maxHops)
        ensures m(p) <= m(q)
      {
        NoGreater(ns, es, s, t, maxHops, m, p, q);
      }
    }
    if AllMeasureEqual(Rebuilt(ns, es), s, t, maxHops, m) {
      forall other | multiset(other) == multiset(es) ensures FirstIsLeast(Rebuilt(ns, other), s, t, maxHops, m) {
        forall p ensures BoundedPath(Rebuilt(ns, other), p, s, t, maxHops) <==> BoundedPath(Rebuilt(ns, es), p, s, t, maxHops) {
          SameBounded(ns, es, other, s, t, maxHops, p);
        }
        EqualIsLeast(Rebuilt(ns, other), s, t, maxHops, m);
      }
    }
  }

  lemma NoGreater(ns: seq<ServiceNode>, es: seq<CallEdge>, s: Uuid, t: Uuid, maxHops: int, m: Measure, p: seq<Uuid>,
                  q: seq<Uuid>)
    requires AlwaysLeast(ns, es, s, t, maxHops, m)
    requires BoundedPath(Rebuilt(ns, es), p, s, t, maxHops) && BoundedPath(Rebuilt(ns, es), q, s, t, maxHops)
    ensures m(p) <= m(q)
  {
    hide PathsThrough, BoundedPath, Rebuilt;
    var other := SomeOrderFinds(ns, es, s, t, maxHops, p);
    var paths := PathsThrough(Rebuilt(ns, other), [], s, t, maxHops);
    SameBounded(ns, es, other, s, t, maxHops, q);
    AllPathsExact(Rebuilt(ns, other), s, t, maxHops, q);
    assert FirstIsLeast(Rebuilt(ns, other), s, t, maxHops, m);
    var i :| 0 <= i < |paths| && paths[i] == q;
  }

  lemma EqualIsLeast(g: Topology, s: Uuid, t: Uuid, maxHops: int, m: Measure)
    requires AllMeasureEqual(g, s, t, maxHops, m)
    ensures FirstIsLeast(g, s, t, maxHops, m)
  {
    hide PathsThrough, BoundedPath;
    var paths := PathsThrough(g, [], s, t, maxHops);
    forall i | 0 <= i < |paths| ensures m(paths[0]) <= m(paths[i]) {
      AllPathsExact(g, s, t, maxHops, paths[i]);
      AllPathsExact(g, s, t, maxHops, paths[0]);
      assert paths[i] in paths && paths[0] in paths;
    }
  }

  // ---- Latency, which the result is documented to minimise ----

  /** The summed stored latency along a path. */
  ghost function TotalLatency(g: Topology): Measure {
    p => Cost(ArcWeights(g.edges, Latency), p)
  }

  ghost predicate FirstIsFastest(g: Topology, s: Uuid, t: Uuid, maxHops: int) {
    FirstIsLeast(g, s, t, maxHops, TotalLatency(g))
  }

  ghost predicate AlwaysFastest(ns: seq<ServiceNode>, es: seq<CallEdge>, s: Uuid, t: Uuid, maxHops: int) {
    forall other :: multiset(other) == multiset(es) ==> FirstIsFastest(Rebuilt(ns, other), s, t, maxHops)
  }

  /** Records with distinct ids fill the edge table alike in every order. */
  lemma SameTable(es: seq<CallEdge>, other: seq<CallEdge>)
    requires UniqueEdgeIds(es) && multiset(other) == multiset(es)
    ensures EdgeTable(other) == EdgeTable(es)
  {
    hide EdgeTable, UniqueEdgeIds;
    UniqueIdsPermute(es, other);
    EdgeTableEntries(es);
    EdgeTableEntries(other);
    assert forall e :: e in es <==> e in multiset(es);
    assert forall e :: e in other <==> e in multiset(other);
    forall id | id in EdgeTable(es) ensures id in EdgeTable(other) && EdgeTable(other)[id] == EdgeTable(es)[id] {
      assert EdgeTable(es)[id] in other;
    }
    forall id | id in EdgeTable(other) ensures id in EdgeTable(es) {
      assert EdgeTable(other)[id] in es;
    }
  }

  lemma UniqueIdsPermute(es: seq<CallEdge>, other: seq<CallEdge>)
    requires UniqueEdgeIds(es) && multiset(other) == multiset(es)
    ensures UniqueEdgeIds(other)
  {
    forall i, j | 0 <= i < j < |other| ensures other[i].id != other[j].id {
      assert other[i] in multiset(other) && other[j] in multiset(other);
      var x :| 0 <= x < |es| && es[x] == other[i];
      var y :| 0 <= y < |es| && es[y] == other[j];
      if x == y {
        DistinctCounts(es, es[x]);
        TwoCount(other, i, j);
        assert false;
      }
    }
  }

  lemma TwoCount<T>(s: seq<T>, i: nat, j: nat)
    requires i < j < |s| && s[i] == s[j]
    ensures multiset(s)[s[i]] >= 2
  {
    assert s == s[..j] + s[j..];
    assert s[..j][i] == s[i] && s[j..][0] == s[j];
  }

  /** The path presented as the one of least latency is one for every order of the
      records exactly when all bounded simple paths have the same latency, which a
      caller can read off the returned list. */
  lemma AlwaysFastestIff(ns: seq<ServiceNode>, es: seq<CallEdge>, s: Uuid, t: Uuid, maxHops: int)
    requires UniqueEdgeIds(es)
    ensures AlwaysFastest(ns, es, s, t, maxHops)
            <==> AllMeasureEqual(Rebuilt(ns, es), s, t, maxHops, TotalLatency(Rebuilt(ns, es)))
  {
    hide FirstIsLeast, AllMeasureEqual, Cost, ArcWeights;
    var m := TotalLatency(Rebuilt(ns, es));
    AlwaysLeastIff(ns, es, s, t, maxHops, m);
    forall other | multiset(other) == multiset(es) ensures TotalLatency(Rebuilt(ns, other)) == m {
      SameTable(es, other);
    }
  }

  // ---- Numbers of arcs ----

  ghost function ArcCount(): Measure {
    p => (|p| - 1) as real
  }

  ghost predicate FirstIsShortest(g: Topology, s: Uuid, t: Uuid, maxHops: int) {
    FirstIsLeast(g, s, t, maxHops, ArcCount())
  }

  ghost predicate AlwaysShortest(ns: seq<ServiceNode>, es: seq<CallEdge>, s: Uuid, t: Uuid, maxHops: int) {
    forall other :: multiset(other) == multiset(es) ==> FirstIsShortest(Rebuilt(ns, other), s, t, maxHops)
  }

  /** It has the fewest arcs for every order of the records exactly when all bounded
      simple paths are equally long. */
  lemma AlwaysShortestIff(ns: seq<ServiceNode>, es: seq<CallEdge>, s: Uuid, t: Uuid, maxHops: int)
    ensures AlwaysShortest(ns, es, s, t, maxHops) <==> AllMeasureEqual(Rebuilt(ns, es), s, t, maxHops, ArcCount())
  {
    hide FirstIsLeast, AllMeasureEqual, ArcCount, Rebuilt;
    AlwaysLeastIff(ns, es, s, t, maxHops, ArcCount());
  }

  /** Asking for no more hops than the distance is enough for that. */
  lemma ShortestWithinDistance(g: Topology, s: Uuid, t: Uuid, maxHops: int, d: nat)
    requires HopDistance(Arcs(g.adj), s, t, d) && maxHops <= d
    ensures FirstIsShortest(g, s, t, maxHops)
  {
    forall p | BoundedPath(g, p, s, t, maxHops) ensures |p| == d + 1 {
      WalkSteps(Arcs(g.adj), p, s, t);
    }
    EqualIsLeast(g, s, t, maxHops, ArcCount());
  }

  // ---- A slower path presented as the shortest ----

  lemma TrianglePaths(g: Topology, s: Uuid, a: Uuid, t: Uuid, maxHops: int)
    requires s != a && s != t && a != t && maxHops >= 2
    requires s in g.nodes && a in g.nodes && t in g.nodes
    requires g.adj == map[s := [a, t], a := [t]]
    ensures PathsThrough(g, [], s, t, maxHops) == [[s, a, t], [s, t]]
  {
    assert [] + [s] == [s] && [s] + [a] == [s, a] && [s, a] + [t] == [s, a, t] && [s] + [t] == [s, t];
    assert [t][..0] == [] && [a, t][..1] == [a] && [a][..0] == [];
    assert PathsThrough(g, [s, a], t, t, maxHops) == [[s, a, t]];
    assert PathsVia(g, [s, a], [t], t, maxHops) == [[s, a, t]] by {
      assert PathsVia(g, [s, a], [], t, maxHops) == [];
    }
    assert PathsThrough(g, [s], a, t, maxHops) == [[s, a, t]];
    assert PathsThrough(g, [s], t, t, maxHops) == [[s, t]];
    assert PathsVia(g, [s], [a], t, maxHops) == [[s, a, t]] by {
      assert PathsVia(g, [s], [], t, maxHops) == [];
    }
  }

  lemma TriangleIndex(s: Uuid, a: Uuid, t: Uuid, x: real, y: real, z: real)
    requires s != a && s != t && a != t
    ensures Forward(TriangleRecords(s, a, t, x, y, z)) == map[s := [a, t], a := [t]]
  {
    var es := TriangleRecords(s, a, t, x, y, z);
    var one, two := [es[0]], [es[0], es[1]];
    assert one[..0] == [] && two[..1] == one && es[..2] == two;
    var none: seq<Uuid> := [];
    assert none + [a] == [a] && none + [t] == [t] && [a] + [t] == [a, t];
    assert Forward(one) == map[s := [a]];
    assert Forward(two) == map[s := [a, t]];
  }

  /** On any rebuild from these records with the direct edge faster than the detour,
      the detour is presented, which has more latency and more arcs. */
  lemma FirstIsNotShortest(ns: seq<ServiceNode>, s: Uuid, a: Uuid, t: Uuid, x: real, y: real, z: real, maxHops: int)
    requires s != a && s != t && a != t && maxHops >= 2 && y < x + z
    requires s in NodeTable(ns) && a in NodeTable(ns) && t in NodeTable(ns)
    ensures var g := Rebuilt(ns, TriangleRecords(s, a, t, x, y, z));
            && PathsThrough(g, [], s, t, maxHops) == [[s, a, t], [s, t]]
            && TotalLatency(g)([s, a, t]) == x + z && TotalLatency(g)([s, t]) == y
            && !FirstIsFastest(g, s, t, maxHops) && !FirstIsShortest(g, s, t, maxHops)
  {
    hide PathsThrough, NodeTable, EdgeTable, ArcWeights, Cost, WeightOf;
    var es := TriangleRecords(s, a, t, x, y, z);
    var g := Rebuilt(ns, es);
    TriangleIndex(s, a, t, x, y, z);
    TrianglePaths(g, s, a, t, maxHops);
    forall i: nat | i < 3 ensures WeightOf(ArcWeights(g.edges, Latency), ArcOf(es[i])) == es[i].latency {
      PlainWeight(ns, es, Latency, i);
    }
    assert ArcOf(es[0]) == Arc(s, a) && ArcOf(es[1]) == Arc(s, t) && ArcOf(es[2]) == Arc(a, t);
    TwoArcCost(ArcWeights(g.edges, Latency), s, a, t);
    TwoArcCost(ArcWeights(g.edges, Latency), s, t, t);
    var paths := PathsThrough(g, [], s, t, maxHops);
    assert paths[0] == [s, a, t] && paths[1] == [s, t];
  }

  /** Two detours with as many edges, the one over `a` slower. */
  function SquareRecords(s: Uuid, a: Uuid, b: Uuid, t: Uuid, slow: real, fast: real): seq<CallEdge> {
    [CallEdge(Uuid(0), s, a, slow, 0.0), CallEdge(Uuid(1), a, t, slow, 0.0),
     CallEdge(Uuid(2), s, b, fast, 0.0), CallEdge(Uuid(3), b, t, fast, 0.0)]
  }

  lemma SquareArcs(s: Uuid, a: Uuid, b: Uuid, t: Uuid, slow: real, fast: real)
    ensures Arcs(Forward(SquareRecords(s, a, b, t, slow, fast))) == {Arc(s, a), Arc(a, t), Arc(s, b), Arc(b, t)}
  {
    hide Arcs, Forward;
    var es := SquareRecords(s, a, b, t, slow, fast);
    ForwardArcs(es);
    assert es[0] in es && es[1] in es && es[2] in es && es[3] in es;
  }

  lemma SquareDistance(E: set<Arc>, s: Uuid, a: Uuid, b: Uuid, t: Uuid)
    requires s != a && s != b && s != t && a != b && a != t && b != t
    requires E == {Arc(s, a), Arc(a, t), Arc(s, b), Arc(b, t)}
    ensures HopDistance(E, s, t, 2) && SimplePath(E, [s, a, t], s, t) && SimplePath(E, [s, b, t], s, t)
  {
    WalkSteps(E, [s, a, t], s, t);
    assert !Steps(E, s, t, 0);
    assert forall u :: Steps(E, s, u, 0) ==> u == s && Arc(u, t) !in E;
  }

  /** For latency a bound on the hops is not enough, even the distance itself. */
  lemma HopBoundNotEnough(ns: seq<ServiceNode>, s: Uuid, a: Uuid, b: Uuid, t: Uuid, slow: real, fast: real)
    requires s != a && s != b && s != t && a != b && a != t && b != t && fast < slow
    requires s in NodeTable(ns) && a in NodeTable(ns) && b in NodeTable(ns) && t in NodeTable(ns)
    ensures var es := SquareRecords(s, a, b, t, slow, fast);
            HopDistance(Arcs(Rebuilt(ns, es).adj), s, t, 2) && !AlwaysFastest(ns, es, s, t, 2)
  {
    hide NodeTable, EdgeTable, ArcWeights, Cost, WeightOf, Forward, Arcs, AlwaysFastest;
    var es := SquareRecords(s, a, b, t, slow, fast);
    var g := Rebuilt(ns, es);
    SquareArcs(s, a, b, t, slow, fast);
    SquareDistance(Arcs(g.adj), s, a, b, t);
    forall i: nat | i < 4 ensures WeightOf(ArcWeights(g.edges, Latency), ArcOf(es[i])) == es[i].latency {
      PlainWeight(ns, es, Latency, i);
    }
    assert ArcOf(es[0]) == Arc(s, a) && ArcOf(es[1]) == Arc(a, t) && ArcOf(es[2]) == Arc(s, b) && ArcOf(es[3]) == Arc(b, t);
    TwoArcCost(ArcWeights(g.edges, Latency), s, a, t);
    TwoArcCost(ArcWeights(g.edges, Latency), s, b, t);
    assert BoundedPath(g, [s, a, t], s, t, 2) && BoundedPath(g, [s, b, t], s, t, 2);
    AlwaysFastestIff(ns, es, s, t, 2);
  }
}
