/** The k-paths search in the style of Yen: deviations from accepted paths are
    found by a restricted breadth-first search and kept in a heap. */
module KPaths {
  import opened Domain
  import opened Sequences
  import opened Walks
  import opened Graph
  import opened WeightedSearch
  import opened Totals
  import opened Deviations
  import HopSearch

  datatype WeightedPath = WeightedPath(path: seq<Uuid>, totalWeight: real)

  // ---- One spur search ----

  /** The arcs that leave `root` along accepted paths. */
  ghost predicate RemovedAt(accepted: seq<seq<Uuid>>, root: seq<Uuid>, removed: set<Arc>)
    requires root != []
  {
    forall a :: a in removed <==> a.src == root[|root| - 1] && Shared(accepted, root + [a.dst])
  }

  /** A path that leaves the accepted ones after `root` survives the restriction. */
  lemma SpurSeesAll(pb: Problem, edges: map<Uuid, CallEdge>, accepted: seq<seq<Uuid>>, root: seq<Uuid>,
                    removed: set<Arc>, p: seq<Uuid>)
    requires pb.g.edges == edges && root != [] && RemovedAt(accepted, root, removed)
    requires Leaves(pb, accepted, root, p)
    ensures var E := HopSearch.Usable(edges, removed, Elements(root[..|root| - 1]));
            WalkFromTo(E, p[|root| - 1..], root[|root| - 1], pb.t)
  {
    var j := |root| - 1;
    var E := HopSearch.Usable(edges, removed, Elements(root[..j]));
    var q := p[j..];
    assert p[..|root| + 1] == root + [p[j + 1]];
    forall i | 0 <= i < |q| - 1 ensures Arc(q[i], q[i + 1]) in E {
      assert q[i] == p[j + i] && q[i + 1] == p[j + i + 1];
      assert Arc(q[i], q[i + 1]) !in removed by {
        if i > 0 {
          assert p[j + i] != p[j];
        }
      }
      assert q[i + 1] !in root[..j] by {
        assert forall x :: 0 <= x < j ==> root[..j][x] == p[x] && p[x] != p[j + i + 1];
      }
    }
  }

  /** Root and spur path together form a path that leaves the accepted ones. */
  lemma SpurJoins(pb: Problem, edges: map<Uuid, CallEdge>, accepted: seq<seq<Uuid>>, r: seq<Uuid>, j: nat,
                  removed: set<Arc>, q: seq<Uuid>)
    requires pb.g.edges == edges && IsPath(pb, r) && j < |r| - 1
    requires RemovedAt(accepted, r[..j + 1], removed)
    requires SimplePath(HopSearch.Usable(edges, removed, Elements(r[..j])), q, r[j], pb.t)
    ensures Leaves(pb, accepted, r[..j + 1], r[..j + 1] + q[1..])
  {
    var E := HopSearch.Usable(edges, removed, Elements(r[..j]));
    var root := r[..j + 1];
    var full := root + q[1..];
    assert r[j] != pb.t;
    assert |q| > 1;
    assert full[j + 1] == q[1] && Arc(q[0], q[1]) in E;
    assert full[..j + 2] == root + [q[1]];
    forall i | 0 <= i < |full| - 1 ensures Arc(full[i], full[i + 1]) in pb.E() {
      if i >= j {
        assert full[i] == q[i - j] && full[i + 1] == q[i - j + 1];
        assert Arc(q[i - j], q[i - j + 1]) in E;
      }
    }
    assert full[|full| - 1] == q[|q| - 1];
    JoinDistinct(E, r, j, q, Elements(r[..j]));
  }

  lemma JoinDistinct(E: set<Arc>, r: seq<Uuid>, j: nat, q: seq<Uuid>, removedNodes: set<Uuid>)
    requires Distinct(r) && Distinct(q) && IsWalk(E, q) && j < |r| && q[0] == r[j]
    requires removedNodes == Elements(r[..j])
    requires forall a :: a in E ==> a.dst !in removedNodes
    ensures Distinct(r[..j + 1] + q[1..])
  {
    var full := r[..j + 1] + q[1..];
    forall x, y | 0 <= x < y < |full| ensures full[x] != full[y] {
      if x <= j < y {
        assert full[y] == q[y - j] && Arc(q[y - j - 1], q[y - j]) in E;
        if x < j {
          assert full[x] == r[..j][x];
        } else {
          assert full[x] == q[0];
        }
      } else if j < x {
        assert full[x] == q[x - j] && full[y] == q[y - j];
      }
    }
  }

  // ---- The search itself ----

  ghost function PathsOf(results: seq<WeightedPath>): (paths: seq<seq<Uuid>>)
    ensures |paths| == |results| && forall i :: 0 <= i < |results| ==> paths[i] == results[i].path
  {
    seq(|results|, i requires 0 <= i < |results| => results[i].path)
  }

  method StepWeight(graph: InMemoryGraph, source: Uuid, target: Uuid, w: WeightFunc) returns (weight: real)
    requires graph.Valid()
    ensures EdgeWeight(graph.edges, w, Arc(source, target), weight)
  {
    var edge := graph.GetEdge(source, target);
    if edge.Some? {
      weight := w(edge.value);
    } else {
      weight := 1.0;
    }
  }

  /** The summed weight of one stored edge for each step along `nodes`, whichever
      edge the graph hands out; a missing edge counts one. */
  method PathWeight(graph: InMemoryGraph, nodes: seq<Uuid>, w: WeightFunc) returns (total: real)
    requires graph.Valid() && nodes != []
    ensures IsTotal(graph.edges, w, nodes, total)
  {
    hide IsTotal, EdgeWeight;
    total := 0.0;
    TotalStart(graph.edges, w, nodes[0]);
    assert nodes[..1] == [nodes[0]];
    for i := 0 to |nodes| - 1
      invariant IsTotal(graph.edges, w, nodes[..i + 1], total)
    {
      assert nodes[..i + 2] == nodes[..i + 1] + [nodes[i + 1]];
      var weight := StepWeight(graph, nodes[i], nodes[i + 1], w);
      TotalExtend(graph.edges, w, nodes[..i + 1], total, nodes[i + 1], weight);
      total := total + weight;
    }
    assert nodes[..|nodes|] == nodes;
  }

  method Matches(path: seq<Uuid>, root: seq<Uuid>) returns (match': bool)
    requires |root| <= |path|
    ensures match' <==> root <= path
  {
    match' := true;
    for j := 0 to |root|
      invariant match'
      invariant forall x :: 0 <= x < j ==> path[x] == root[x]
    {
      if path[j] != root[j] {
        return false;
      }
    }
  }

  lemma AcceptedEnds(pb: Problem, accepted: seq<seq<Uuid>>, i: nat)
    requires AllPaths(pb, accepted) && i < |accepted|
    ensures accepted[i] != [] && accepted[i][|accepted[i]| - 1] == pb.t
  {
    assert IsPath(pb, accepted[i]);
  }

  lemma RemovedOneMore(accepted: seq<seq<Uuid>>, prev: seq<Uuid>, root: seq<Uuid>, was: set<Arc>, removed: set<Arc>)
    requires root != [] && RemovedAt(accepted, root, was)
    requires root <= prev ==> |prev| > |root|
    requires removed == if root <= prev then was + {Arc(root[|root| - 1], prev[|root|])} else was
    ensures RemovedAt(accepted + [prev], root, removed)
  {
    forall a ensures a in removed <==> a.src == root[|root| - 1] && Shared(accepted + [prev], root + [a.dst]) {
      SharedLast(accepted, prev, root + [a.dst]);
      assert root + [a.dst] <= prev <==> root <= prev && |prev| > |root| && prev[|root|] == a.dst;
    }
  }

  lemma SharedLast(accepted: seq<seq<Uuid>>, prev: seq<Uuid>, root: seq<Uuid>)
    ensures Shared(accepted + [prev], root) <==> Shared(accepted, root) || root <= prev
  {
    SharedMore(accepted, [prev], root);
    assert (accepted + [prev])[|accepted|] == prev;
    if Shared(accepted + [prev], root) && !(root <= prev) {
      var i :| 0 <= i < |accepted| + 1 && root <= (accepted + [prev])[i];
      assert root <= accepted[i];
    }
  }

  /** The next arc of every accepted path that starts with `root`.  Such a path
      always has a next arc, because `root` does not end at the target. */
  method RemovedArcs(ghost pb: Problem, results: seq<WeightedPath>, root: seq<Uuid>) returns (removed: set<Arc>)
    requires AllPaths(pb, PathsOf(results)) && root != [] && root[|root| - 1] != pb.t
    ensures RemovedAt(PathsOf(results), root, removed)
  {
    hide AllPaths;
    removed := {};
    ghost var accepted := PathsOf(results);
    for i := 0 to |results|
      invariant RemovedAt(accepted[..i], root, removed)
    {
      var prev := results[i].path;
      assert accepted[..i + 1] == accepted[..i] + [prev];
      AcceptedEnds(pb, accepted, i);
      var matches := false;
      if |prev| > |root| - 1 {
        matches := Matches(prev, root);
      }
      ghost var was := removed;
      if matches {
        assert prev[|root| - 1] == root[|root| - 1];
        removed := removed + {Arc(prev[|root| - 1], prev[|root|])};
      }
      RemovedOneMore(accepted[..i], prev, root, was, removed);
    }
    assert accepted[..|results|] == accepted;
  }

  /** When the restricted search fails no path leaves the accepted ones after `root`. */
  lemma NoSpur(pb: Problem, edges: map<Uuid, CallEdge>, accepted: seq<seq<Uuid>>, root: seq<Uuid>, removed: set<Arc>,
               p: seq<Uuid>)
    requires pb.g.edges == edges && root != [] && RemovedAt(accepted, root, removed)
    requires !Reachable(HopSearch.Usable(edges, removed, Elements(root[..|root| - 1])), root[|root| - 1], pb.t)
    ensures !Leaves(pb, accepted, root, p)
  {
    if Leaves(pb, accepted, root, p) {
      SpurSeesAll(pb, edges, accepted, root, removed, p);
      WalkSteps(HopSearch.Usable(edges, removed, Elements(root[..|root| - 1])), p[|root| - 1..], root[|root| - 1], pb.t);
    }
  }

  /** When it succeeds the joined path has the fewest arcs of all that leave there. */
  lemma SpurIsFound(pb: Problem, edges: map<Uuid, CallEdge>, accepted: seq<seq<Uuid>>, r: seq<Uuid>, j: nat,
                    removed: set<Arc>, q: seq<Uuid>)
    requires pb.g.edges == edges && IsPath(pb, r) && j < |r| - 1
    requires RemovedAt(accepted, r[..j + 1], removed)
    requires HopSearch.ShortestPath(HopSearch.Usable(edges, removed, Elements(r[..j])), q, r[j], pb.t)
    ensures q != [] && SpurFound(pb, accepted, r[..j + 1], r[..j + 1] + q[1..])
  {
    hide Leaves, HopDistance;
    var E := HopSearch.Usable(edges, removed, Elements(r[..j]));
    var root := r[..j + 1];
    SpurJoins(pb, edges, accepted, r, j, removed, q);
    assert root[..j] == r[..j];
    forall p | Leaves(pb, accepted, root, p) ensures |root + q[1..]| <= |p| {
      LeavesIsLonger(pb, accepted, root, p);
      SpurSeesAll(pb, edges, accepted, root, removed, p);
      ShortestBound(E, q, p[j..], r[j], pb.t);
    }
  }

  lemma ShortestBound(E: set<Arc>, q: seq<Uuid>, p: seq<Uuid>, s: Uuid, t: Uuid)
    requires HopSearch.ShortestPath(E, q, s, t) && WalkFromTo(E, p, s, t)
    ensures 1 <= |q| <= |p|
  {
    WalkSteps(E, p, s, t);
  }

  lemma InnerIsNotTarget(pb: Problem, accepted: seq<seq<Uuid>>, i: nat, j: nat)
    requires AllPaths(pb, accepted) && i < |accepted| && j < |accepted[i]| - 1
    ensures accepted[i][j] != pb.t && IsPath(pb, accepted[i])
  {
    assert IsPath(pb, accepted[i]);
  }

  lemma LeavesIsLonger(pb: Problem, accepted: seq<seq<Uuid>>, root: seq<Uuid>, p: seq<Uuid>)
    requires Leaves(pb, accepted, root, p)
    ensures |p| > |root|
  {
  }

  /** One spur search from index `j` of the last accepted path. */
  method SpurAt(graph: InMemoryGraph, results: seq<WeightedPath>, j: nat, target: Uuid, w: WeightFunc,
                ghost pb: Problem)
    returns (candidate: Option<Entry>)
    requires graph.Valid() && pb == Problem(graph.View(), w, pb.s, target)
    requires results != [] && AllPaths(pb, PathsOf(results)) && j < |results[|results| - 1].path| - 1
    ensures var accepted, root := PathsOf(results), results[|results| - 1].path[..j + 1];
            if candidate.Some?
            then SpurFound(pb, accepted, root, candidate.value.nodes) && Priced(pb, candidate.value)
            else NoneLeaves(pb, accepted, root)
  {
    hide Leaves, Reachable, AllPaths, IsTotal, RemovedAt, IsPath, SpurFound, HopSearch.ShortestPath, HopSearch.Usable;
    var prev := results[|results| - 1].path;
    var root := prev[..j + 1];
    ghost var accepted := PathsOf(results);
    InnerIsNotTarget(pb, accepted, |results| - 1, j);
    var removed := RemovedArcs(pb, results, root);
    assert root[..j] == prev[..j];
    var spurPath := HopSearch.FindSpurPath(graph, root[j], target, removed, Elements(root[..j]));
    if spurPath.Err? {
      forall p ensures !Leaves(pb, accepted, root, p) {
        NoSpur(pb, graph.edges, accepted, root, removed, p);
      }
      return None;
    }
    SpurIsFound(pb, graph.edges, accepted, prev, j, removed, spurPath.value);
    var full := root + spurPath.value[1..];
    var total := PathWeight(graph, full, w);
    var isDuplicate := false;
    SpurNew(pb, accepted, root, full);
    for i := 0 to |results|
      invariant !isDuplicate
    {
      assert results[i].path == accepted[i] && accepted[i] in accepted;
      if results[i].path == full {
        isDuplicate := true;
        break;
      }
    }
    candidate := if isDuplicate then None else Some(Entry(full, total));
  }

  /** The spur searches of one round, along the last accepted path. */
  method SpurRound(graph: InMemoryGraph, results: seq<WeightedPath>, target: Uuid, w: WeightFunc, heap: multiset<Entry>,
                   ghost pb: Problem)
    returns (candidates: multiset<Entry>)
    requires graph.Valid() && pb == Problem(graph.View(), w, pb.s, target)
    requires results != [] && AllPaths(pb, PathsOf(results))
    ensures Round(pb, PathsOf(results), heap, candidates)
  {
    hide AllPaths, SpurFound, Leaves, Priced, IsPath;
    var prev := results[|results| - 1].path;
    ghost var accepted := PathsOf(results);
    LastIsPath(pb, accepted);
    candidates := heap;
    for j := 0 to |prev| - 1
      invariant Pushed(pb, accepted, prev, j, heap, candidates)
    {
      var candidate := SpurAt(graph, results, j, target, w, pb);
      ghost var before := candidates;
      if candidate.Some? {
        candidates := candidates + multiset{candidate.value};
      }
      assert Spurred(pb, accepted, prev[..j + 1], before, candidates);
    }
  }

  /** Every total is the sum of one stored edge per step, so never less than the
      weight of the path. */
  ghost predicate TotalsPaid(edges: map<Uuid, CallEdge>, w: WeightFunc, results: seq<WeightedPath>) {
    forall i :: 0 <= i < |results| ==>
      && IsTotal(edges, w, results[i].path, results[i].totalWeight)
      && Cost(ArcWeights(edges, w), results[i].path) <= results[i].totalWeight
  }

  ghost predicate TotalsExact(W: map<Arc, real>, results: seq<WeightedPath>) {
    forall i :: 0 <= i < |results| ==> results[i].totalWeight == Cost(W, results[i].path)
  }

  lemma PathsOfSnoc(results: seq<WeightedPath>, r: WeightedPath)
    ensures PathsOf(results + [r]) == PathsOf(results) + [r.path]
  {
  }

  lemma TotalsSnoc(edges: map<Uuid, CallEdge>, w: WeightFunc, results: seq<WeightedPath>, r: WeightedPath)
    requires TotalsPaid(edges, w, results) && IsTotal(edges, w, r.path, r.totalWeight)
    ensures TotalsPaid(edges, w, results + [r])
  {
    hide Cost, ArcWeights, IsTotal;
    TotalBounds(edges, w, r.path, r.totalWeight);
  }

  lemma PaidExactly(edges: map<Uuid, CallEdge>, w: WeightFunc, results: seq<WeightedPath>)
    requires TotalsPaid(edges, w, results) && ParallelEdgesAgree(edges, w)
    ensures TotalsExact(ArcWeights(edges, w), results)
  {
    hide Cost, ArcWeights, IsTotal, ParallelEdgesAgree;
    forall i | 0 <= i < |results| ensures results[i].totalWeight == Cost(ArcWeights(edges, w), results[i].path) {
      TotalBounds(edges, w, results[i].path, results[i].totalWeight);
    }
  }

  lemma TracePaths(pb: Problem, accepted: seq<seq<Uuid>>, heap: multiset<Entry>)
    requires Trace(pb, accepted, heap)
    ensures AllPaths(pb, accepted)
  {
    TraceCovers(pb, accepted, heap);
  }

  lemma NewNonempty(pb: Problem, accepted: seq<seq<Uuid>>, c: seq<Uuid>, heap: multiset<Entry>)
    requires Trace(pb, accepted + [c], heap)
    ensures c != []
  {
    hide Trace, AllPaths;
    TracePaths(pb, accepted + [c], heap);
    LastIsPath(pb, accepted + [c]);
  }

  lemma StopsHere(pb: Problem, k: int, accepted: seq<seq<Uuid>>, heap: multiset<Entry>)
    requires Trace(pb, accepted, heap) && (|accepted| == 1 || |accepted| <= k)
    requires |accepted| < k ==> Round(pb, accepted, heap, multiset{})
    ensures Outcome(pb, k, accepted)
  {
  }

  /** The main loop, which adds to the lightest path. */
  method MorePaths(graph: InMemoryGraph, first: WeightedPath, target: Uuid, k: int, w: WeightFunc, ghost pb: Problem)
    returns (results: seq<WeightedPath>)
    requires graph.Valid() && pb == Problem(graph.View(), w, pb.s, target)
    requires LightestPath(PresentArcs(pb.g), pb.W(), first.path, pb.s, target)
    requires IsTotal(graph.edges, w, first.path, first.totalWeight)
    ensures Outcome(pb, k, PathsOf(results))
    ensures TotalsPaid(graph.edges, w, results)
  {
    hide Trace, Round, IsPath, PathsOf, TotalsPaid, IsTotal, Outcome, AllPaths;
    results := [first];
    assert PathsOf(results) == [first.path];
    assert Trace(pb, [first.path], multiset{}) by { TraceOne(pb, first.path); }
    assert TotalsPaid(graph.edges, w, []) by { NothingPaid(graph.edges, w); }
    TotalsSnoc(graph.edges, w, [], first);
    assert [] + [first] == results;
    var candidates: multiset<Entry> := multiset{};
    if k == 1 {
      StopsHere(pb, k, PathsOf(results), candidates);
      return;
    }
    var i := 1;
    while i < k
      invariant |results| == i && (i == 1 || i <= k)
      invariant Trace(pb, PathsOf(results), candidates)
      invariant TotalsPaid(graph.edges, w, results)
    {
      TracePaths(pb, PathsOf(results), candidates);
      var pushed := SpurRound(graph, results, target, w, candidates, pb);
      if |pushed| == 0 {
        break;
      }
      var best, rest := HeapPop(pushed);
      TraceSnoc(pb, PathsOf(results), candidates, pushed, best, rest);
      NewNonempty(pb, PathsOf(results), best.nodes, rest);
      var total := PathWeight(graph, best.nodes, w);
      PathsOfSnoc(results, WeightedPath(best.nodes, total));
      TotalsSnoc(graph.edges, w, results, WeightedPath(best.nodes, total));
      candidates := rest;
      results := results + [WeightedPath(best.nodes, total)];
      i := i + 1;
    }
    StopsHere(pb, k, PathsOf(results), candidates);
  }

  lemma TraceOne(pb: Problem, p: seq<Uuid>)
    requires LightestPath(PresentArcs(pb.g), pb.W(), p, pb.s, pb.t)
    ensures Trace(pb, [p], multiset{})
  {
  }

  lemma NothingPaid(edges: map<Uuid, CallEdge>, w: WeightFunc)
    ensures TotalsPaid(edges, w, [])
  {
  }

  method FindKShortestPaths(graph: InMemoryGraph?, source: Uuid, target: Uuid, k: int, weightFunc: Option<WeightFunc>)
    returns (res: Result<seq<WeightedPath>>)
    requires graph != null ==> graph.Valid() && NonNegative(graph.edges, OrUnit(weightFunc))
    ensures graph == null ==> res == Err(GraphNotReady)
    ensures graph != null && (source !in graph.nodes || target !in graph.nodes) ==> res == Err(NodeNotFound)
    ensures graph != null && source in graph.nodes && target in graph.nodes ==>
              var pb := Problem(graph.View(), OrUnit(weightFunc), source, target);
              if Reachable(PresentArcs(graph.View()), source, target)
              then res.Ok? && Outcome(pb, k, PathsOf(res.value)) && KPathsResult(pb, k, PathsOf(res.value))
              else res == Err(PathNotFound)
    // When the results are in order of weight, for hop-monotone weights and for the default ones.
    ensures res.Ok? ==>
              var pb := Problem(graph.View(), OrUnit(weightFunc), source, target);
              ParallelEdgesAgree(pb.g.edges, pb.w) && HopMonotone(pb) ==>
                (LightestFirst(pb, PathsOf(res.value)) <==> PresentIsLightest(pb))
    ensures res.Ok? && weightFunc.None? ==>
              (LightestFirst(Problem(graph.View(), OrUnit(None), source, target), PathsOf(res.value))
               <==> SameDistance(graph.View(), source, target))
    ensures res.Ok? && SourcesPresent(graph.View()) ==>
              var pb := Problem(graph.View(), OrUnit(weightFunc), source, target);
              weightFunc.None? || (ParallelEdgesAgree(pb.g.edges, pb.w) && HopMonotone(pb)) ==>
                LightestFirst(pb, PathsOf(res.value))
    ensures res.Ok? && k <= 3 ==> Distinct(PathsOf(res.value))
    ensures res.Ok? ==> TotalsPaid(graph.edges, OrUnit(weightFunc), res.value)
    ensures res.Ok? && (weightFunc.None? || ParallelEdgesAgree(graph.edges, OrUnit(weightFunc))) ==>
              TotalsExact(ArcWeights(graph.edges, OrUnit(weightFunc)), res.value)
  {
    hide LightestPath, Reachable, KPathsResult, LightestFirst, ArcWeights, PresentArcs, NonNegative, HopMonotone,
         PathsOf, TotalsExact, TotalsPaid, Outcome, IsTotal, Distinct, SourcesPresent, ParallelEdgesAgree,
         PresentIsLightest, SameDistance;
    if graph == null {
      return Err(GraphNotReady);
    }
    if graph.GetNode(source).None? || graph.GetNode(target).None? {
      return Err(NodeNotFound);
    }
    var w := OrUnit(weightFunc);
    ghost var pb := Problem(graph.View(), w, source, target);
    var first := FindShortestPathWeighted(graph, source, target, Some(w));
    if first.Err? {
      return Err(first.error);
    }
    LightestNonempty(pb, first.value);
    var total := PathWeight(graph, first.value, w);
    var results := MorePaths(graph, WeightedPath(first.value, total), target, k, w, pb);
    AllPromises(pb, k, results);
    if weightFunc.None? {
      DefaultPromises(pb, k, results);
    }
    if SourcesPresent(pb.g) {
      SourcesPresentLightest(pb);
    }
    res := Ok(results);
  }

  lemma LightestNonempty(pb: Problem, p: seq<Uuid>)
    requires LightestPath(PresentArcs(pb.g), pb.W(), p, pb.s, pb.t)
    ensures p != []
  {
  }

  lemma AllPromises(pb: Problem, k: int, results: seq<WeightedPath>)
    requires Outcome(pb, k, PathsOf(results)) && TotalsPaid(pb.g.edges, pb.w, results)
    ensures KPathsResult(pb, k, PathsOf(results))
    ensures ParallelEdgesAgree(pb.g.edges, pb.w) && HopMonotone(pb) ==>
              (LightestFirst(pb, PathsOf(results)) <==> PresentIsLightest(pb))
    ensures k <= 3 ==> Distinct(PathsOf(results))
    ensures ParallelEdgesAgree(pb.g.edges, pb.w) ==> TotalsExact(pb.W(), results)
  {
    hide Outcome, KPathsResult, LightestFirst, TotalsExact, TotalsPaid, PresentIsLightest, HopMonotone, ParallelEdgesAgree,
         Distinct, PathsOf;
    OutcomePromises(pb, k, PathsOf(results));
    if ParallelEdgesAgree(pb.g.edges, pb.w) && HopMonotone(pb) {
      InOrderIff(pb, k, PathsOf(results));
    }
    if k <= 3 {
      ThreeDistinct(pb, k, PathsOf(results));
    }
    if ParallelEdgesAgree(pb.g.edges, pb.w) {
      PaidExactly(pb.g.edges, pb.w, results);
    }
  }

  /** The default weights need no condition on parallel edges. */
  lemma DefaultPromises(pb: Problem, k: int, results: seq<WeightedPath>)
    requires Outcome(pb, k, PathsOf(results)) && TotalsPaid(pb.g.edges, pb.w, results)
    requires pb.w == OrUnit(None) && pb.t in pb.g.nodes
    ensures LightestFirst(pb, PathsOf(results)) <==> SameDistance(pb.g, pb.s, pb.t)
    ensures LightestFirst(pb, PathsOf(results)) <==> PresentIsLightest(pb)
    ensures TotalsExact(pb.W(), results)
  {
    hide Outcome, LightestFirst, TotalsExact, TotalsPaid, PresentIsLightest, HopMonotone, ParallelEdgesAgree, PathsOf,
         SameDistance, Reachable;
    DefaultWeights(pb.g, pb.s, pb.t);
    AllPromises(pb, k, results);
    OutcomeReaches(pb, k, PathsOf(results));
    DefaultOrderlyIff(pb.g, pb.s, pb.t);
  }

  lemma OutcomeReaches(pb: Problem, k: int, accepted: seq<seq<Uuid>>)
    requires Outcome(pb, k, accepted)
    ensures Reachable(PresentArcs(pb.g), pb.s, pb.t)
  {
    hide Outcome, LightestPath, Reachable;
    OutcomePromises(pb, k, accepted);
    LightestReached(PresentArcs(pb.g), pb.W(), accepted[0], pb.s, pb.t);
  }
}
