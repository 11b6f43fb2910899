/** What the k-paths search does not promise: exactly which edge weights it can be
    trusted with, shown by two detours of different length. */
module KPathsLimits {
  import opened Domain
  import opened Sequences
  import opened Walks
  import opened Graph
  import opened WeightedSearch
  import opened Totals
  import opened Rebuilds
  import opened Deviations

  const SOURCE := Uuid(0)
  const TARGET := Uuid(1)

  /** A request that meets every precondition of the search, on such a rebuild. */
  ghost predicate Regular(pb: Problem) {
    && (exists ns, es :: Clean(ns, es) && pb.g == Rebuilt(ns, es))
    && NonNegative(pb.g.edges, pb.w) && pb.s in pb.g.nodes && pb.t in pb.g.nodes
  }

  // ---- One direct edge and two disjoint detours ----

  ghost function ArcAt(p: seq<Uuid>, i: nat): Arc
    requires i + 1 < |p|
  {
    Arc(p[i], p[i + 1])
  }

  ghost function ChainArcs(p: seq<Uuid>): set<Arc> {
    set i: nat | i < |p| - 1 :: ArcAt(p, i)
  }

  ghost predicate Chain(p: seq<Uuid>) {
    |p| >= 3 && Distinct(p) && p[0] == SOURCE && p[|p| - 1] == TARGET
  }

  ghost predicate Apart(p: seq<Uuid>, q: seq<Uuid>) {
    forall i, j :: 0 < i < |p| - 1 && 0 < j < |q| - 1 ==> p[i] != q[j]
  }

  ghost predicate TwoDetours(E: set<Arc>, p: seq<Uuid>, q: seq<Uuid>) {
    && Chain(p) && Chain(q) && Apart(p, q)
    && E == {Arc(SOURCE, TARGET)} + ChainArcs(p) + ChainArcs(q)
  }

  /** An identifier of one detour after the source starts no arc of the other. */
  lemma OtherChain(p: seq<Uuid>, q: seq<Uuid>, i: nat, v: Uuid)
    requires Chain(p) && Chain(q) && Apart(p, q) && 0 < i < |p|
    ensures p[i] != SOURCE && Arc(p[i], v) !in ChainArcs(q)
  {
    assert p[i] != p[0];
    forall k | 0 <= k < |q| - 1 ensures q[k] != p[i] {
      assert q[k] != q[|q| - 1];
    }
  }

  lemma OutOfChain(E: set<Arc>, p: seq<Uuid>, q: seq<Uuid>, i: nat, v: Uuid)
    requires TwoDetours(E, p, q) && 0 < i < |p| && Arc(p[i], v) in E
    ensures i < |p| - 1 && v == p[i + 1]
  {
    OtherChain(p, q, i, v);
    var k: nat :| k < |p| - 1 && Arc(p[i], v) == ArcAt(p, k);
    assert k == i;
  }

  lemma NothingAfterTarget(E: set<Arc>, p: seq<Uuid>, q: seq<Uuid>, v: Uuid)
    requires TwoDetours(E, p, q)
    ensures Arc(TARGET, v) !in E
  {
    OtherChain(p, q, |p| - 1, v);
    OtherChain(q, p, |q| - 1, v);
  }

  lemma SwapDetours(E: set<Arc>, p: seq<Uuid>, q: seq<Uuid>)
    requires TwoDetours(E, p, q)
    ensures TwoDetours(E, q, p)
  {
  }

  lemma ChainWalk(E: set<Arc>, p: seq<Uuid>, q: seq<Uuid>)
    requires TwoDetours(E, p, q)
    ensures SimplePath(E, p, SOURCE, TARGET)
  {
    forall i | 0 <= i < |p| - 1 ensures Arc(p[i], p[i + 1]) in E {
      assert ArcAt(p, i) in ChainArcs(p);
    }
  }

  /** A walk that enters a detour follows it to the end. */
  lemma FollowsChain(E: set<Arc>, p: seq<Uuid>, q: seq<Uuid>, walk: seq<Uuid>)
    requires TwoDetours(E, p, q) && Chain(p)
    requires WalkFromTo(E, walk, SOURCE, TARGET) && |walk| > 1 && walk[1] == p[1]
    ensures walk == p
  {
    hide TwoDetours, Distinct;
    var i := 1;
    while i < |walk| - 1
      invariant 1 <= i < |walk| && i < |p|
      invariant forall k :: 0 <= k <= i ==> walk[k] == p[k]
    {
      assert Arc(walk[i], walk[i + 1]) in E;
      OutOfChain(E, p, q, i, walk[i + 1]);
      i := i + 1;
    }
    ChainEnd(p, i);
  }

  lemma ChainEnd(p: seq<Uuid>, i: nat)
    requires Chain(p) && i < |p| && p[i] == TARGET
    ensures i == |p| - 1
  {
  }

  /** Its only walks from end to end are the edge and the two detours. */
  lemma DetourWalks(E: set<Arc>, p: seq<Uuid>, q: seq<Uuid>, walk: seq<Uuid>)
    requires TwoDetours(E, p, q)
    ensures WalkFromTo(E, walk, SOURCE, TARGET) <==> walk == [SOURCE, TARGET] || walk == p || walk == q
    ensures WalkFromTo(E, walk, SOURCE, TARGET) ==> Distinct(walk)
  {
    SwapDetours(E, p, q);
    ChainWalk(E, p, q);
    ChainWalk(E, q, p);
    if WalkFromTo(E, walk, SOURCE, TARGET) {
      assert |walk| > 1 && Arc(walk[0], walk[1]) in E;
      FirstStep(E, p, q, walk[1]);
      if walk[1] == p[1] {
        FollowsChain(E, p, q, walk);
      } else if walk[1] == q[1] {
        FollowsChain(E, q, p, walk);
      } else {
        TargetEnds(E, p, q, walk);
      }
    }
  }

  lemma FirstStep(E: set<Arc>, p: seq<Uuid>, q: seq<Uuid>, v: Uuid)
    requires TwoDetours(E, p, q) && Arc(SOURCE, v) in E
    ensures v == TARGET || v == p[1] || v == q[1]
  {
    if Arc(SOURCE, v) in ChainArcs(p) {
      var k: nat :| k < |p| - 1 && Arc(SOURCE, v) == ArcAt(p, k);
      assert k == 0;
    } else if Arc(SOURCE, v) in ChainArcs(q) {
      var k: nat :| k < |q| - 1 && Arc(SOURCE, v) == ArcAt(q, k);
      assert k == 0;
    }
  }

  lemma TargetEnds(E: set<Arc>, p: seq<Uuid>, q: seq<Uuid>, walk: seq<Uuid>)
    requires TwoDetours(E, p, q) && WalkFromTo(E, walk, SOURCE, TARGET) && |walk| > 1 && walk[1] == TARGET
    ensures walk == [SOURCE, TARGET]
  {
    hide TwoDetours;
    forall v ensures Arc(TARGET, v) !in E {
      NothingAfterTarget(E, p, q, v);
    }
    WalkStops(E, walk, 1);
  }

  lemma WalkStops(E: set<Arc>, walk: seq<Uuid>, i: nat)
    requires IsWalk(E, walk) && i < |walk| && walk[i] == TARGET && forall v :: Arc(TARGET, v) !in E
    ensures i == |walk| - 1
  {
    var v := if i + 1 < |walk| then walk[i + 1] else TARGET;
    assert Arc(walk[i], v) !in E;
  }

  // ---- When the shorter detour is the heavier one ----

  /** The search sees two detours and takes the one with fewer arcs first. */
  lemma ShorterFirst(pb: Problem, p: seq<Uuid>, q: seq<Uuid>, accepted: seq<seq<Uuid>>)
    requires pb.s == SOURCE && pb.t == TARGET && TwoDetours(pb.E(), p, q) && |p| < |q|
    requires KPathsResult(pb, 2, accepted) && accepted[0] == [SOURCE, TARGET]
    ensures accepted == [[SOURCE, TARGET], p]
    ensures IsPath(pb, q) && q !in accepted
  {
    hide TwoDetours, LightestPath, History, IsPath, SpurFound;
    DetourPaths(pb, p, q);
    TwoReturned(pb, accepted, p);
    SecondSpur(pb, accepted);
    SecondIs(pb, p, q, accepted[1]);
  }

  lemma DetourPaths(pb: Problem, p: seq<Uuid>, q: seq<Uuid>)
    requires pb.s == SOURCE && pb.t == TARGET && TwoDetours(pb.E(), p, q)
    ensures forall x :: IsPath(pb, x) <==> x == [SOURCE, TARGET] || x == p || x == q
    ensures |p| >= 3 && p[0] == SOURCE && p[1] != TARGET
  {
    assert p[1] != p[|p| - 1];
    hide TwoDetours;
    forall x ensures IsPath(pb, x) <==> x == [SOURCE, TARGET] || x == p || x == q {
      DetourWalks(pb.E(), p, q, x);
    }
  }

  lemma SecondIs(pb: Problem, p: seq<Uuid>, q: seq<Uuid>, c: seq<Uuid>)
    requires forall x :: IsPath(pb, x) <==> x == [SOURCE, TARGET] || x == p || x == q
    requires |p| >= 3 && p[0] == SOURCE && p[1] != TARGET && |p| < |q|
    requires SpurFound(pb, [[SOURCE, TARGET]], [SOURCE], c)
    ensures c == p
  {
    hide IsPath;
    NotShared([SOURCE, TARGET], p);
    assert Leaves(pb, [[SOURCE, TARGET]], [SOURCE], p);
    assert c != [SOURCE, TARGET] by {
      assert [SOURCE, TARGET] <= [[SOURCE, TARGET]][0];
      assert Shared([[SOURCE, TARGET]], [SOURCE, TARGET]) && [SOURCE, TARGET][..2] == [SOURCE, TARGET];
    }
  }

  lemma TwoReturned(pb: Problem, accepted: seq<seq<Uuid>>, p: seq<Uuid>)
    requires KPathsResult(pb, 2, accepted) && IsPath(pb, p) && p != accepted[0]
    ensures |accepted| == 2
  {
    hide IsPath, LightestPath, History;
    NotAlone(accepted, p);
  }

  lemma NotAlone(accepted: seq<seq<Uuid>>, p: seq<Uuid>)
    requires accepted != [] && p != accepted[0]
    ensures |accepted| == 1 ==> p !in accepted
  {
  }

  lemma NotShared(direct: seq<Uuid>, p: seq<Uuid>)
    requires direct == [SOURCE, TARGET] && |p| >= 3 && p[0] == SOURCE && p[1] != TARGET
    ensures [SOURCE] < p && !Shared([direct], p[..2])
  {
    assert p[..2][1] != direct[1];
  }

  lemma SecondSpur(pb: Problem, accepted: seq<seq<Uuid>>)
    requires History(pb, accepted) && |accepted| == 2 && accepted[0] == [SOURCE, TARGET]
    ensures SpurFound(pb, [accepted[0]], [SOURCE], accepted[1])
  {
    var before := accepted[..1];
    assert FromSpur(pb, before, accepted[1]);
    var m: nat, j: nat :| IsSpur(pb, before, m, j, accepted[1]);
    assert before == [accepted[0]] && before[..m + 1] == before && before[m] == accepted[0] && accepted[0][..j + 1] == [SOURCE];
  }

  // ---- Such a graph for any two weights ----

  /** The two detours have `n` and `n + 1` edges. */
  function ShortAt(n: nat, i: nat): Uuid {
    if i == 0 then SOURCE else if i >= n then TARGET else Uuid(2 * i)
  }

  function LongAt(n: nat, i: nat): Uuid {
    if i == 0 then SOURCE else if i >= n + 1 then TARGET else Uuid(2 * i + 1)
  }

  function ShortChain(n: nat): seq<Uuid> {
    seq(n + 1, (i: nat) => ShortAt(n, i))
  }

  function LongChain(n: nat): seq<Uuid> {
    seq(n + 2, (i: nat) => LongAt(n, i))
  }

  /** The direct edge weighs `a`, every edge of the short detour `b`, every edge of
      the long one `a` but the last, which weighs `b`. */
  function Record(n: nat, a: real, b: real, i: nat): CallEdge {
    if i == 0 then MakeEdge(0, SOURCE, TARGET, a)
    else if i <= n then MakeEdge(i, ShortAt(n, i - 1), ShortAt(n, i), b)
    else MakeEdge(i, LongAt(n, i - n - 1), LongAt(n, i - n), if i == 2 * n + 1 then b else a)
  }

  function Records(n: nat, a: real, b: real): seq<CallEdge> {
    seq(2 * n + 2, (i: nat) => Record(n, a, b, i))
  }

  function Nodes(n: nat): seq<ServiceNode> {
    seq(2 * n + 2, (i: nat) => MakeNode(i))
  }

  ghost function DetourProblem(n: nat, a: real, b: real): Problem {
    Problem(Rebuilt(Nodes(n), Records(n, a, b)), Latency, SOURCE, TARGET)
  }

  lemma NodesListed(n: nat)
    ensures forall i: nat :: i < 2 * n + 2 ==> Uuid(i) in NodeTable(Nodes(n))
  {
    NodeTableKeys(Nodes(n));
    forall i: nat | i < 2 * n + 2 ensures Uuid(i) in NodeTable(Nodes(n)) {
      assert Nodes(n)[i] == MakeNode(i);
      assert MakeNode(i) in Nodes(n);
    }
  }

  lemma RecordsClean(n: nat, a: real, b: real)
    requires n >= 2
    ensures Clean(Nodes(n), Records(n, a, b))
  {
    NodesListed(n);
    hide NodeTable, Nodes;
    forall i, j | 0 <= i < j < |Records(n, a, b)| ensures ArcOf(Records(n, a, b)[i]) != ArcOf(Records(n, a, b)[j]) {
      RecordsDiffer(n, a, b, i, j);
    }
  }

  lemma RecordsDiffer(n: nat, a: real, b: real, i: nat, j: nat)
    requires n >= 2 && i < j < 2 * n + 2
    ensures ArcOf(Record(n, a, b, i)) != ArcOf(Record(n, a, b, j))
  {
  }

  lemma ChainsApart(n: nat)
    requires n >= 2
    ensures Chain(ShortChain(n)) && Chain(LongChain(n)) && Apart(ShortChain(n), LongChain(n))
  {
  }

  lemma RecordArcsAre(n: nat, a: real, b: real)
    requires n >= 2
    ensures TwoDetours(RecordArcs(Records(n, a, b)), ShortChain(n), LongChain(n))
  {
    ChainsApart(n);
    var es, p, q := Records(n, a, b), ShortChain(n), LongChain(n);
    var E := {Arc(SOURCE, TARGET)} + ChainArcs(p) + ChainArcs(q);
    forall i | 0 <= i < |es| ensures ArcOf(es[i]) in E {
      if i == 0 {
      } else if i <= n {
        assert ArcOf(es[i]) == ArcAt(p, i - 1);
      } else {
        assert ArcOf(es[i]) == ArcAt(q, i - n - 1);
      }
    }
    assert ArcOf(es[0]) == Arc(SOURCE, TARGET);
    forall i: nat | i < n ensures ArcAt(p, i) in RecordArcs(es) {
      assert ArcOf(es[i + 1]) == ArcAt(p, i);
    }
    forall i: nat | i < n + 1 ensures ArcAt(q, i) in RecordArcs(es) {
      assert ArcOf(es[i + n + 1]) == ArcAt(q, i);
    }
  }

  /** The weight of a chain whose first `m` edges weigh `c` each. */
  lemma {:induction false} ChainCost(W: map<Arc, real>, p: seq<Uuid>, m: nat, c: real)
    requires m < |p| && forall i: nat :: i < m ==> WeightOf(W, ArcAt(p, i)) == c
    ensures Cost(W, p[..m + 1]) == Times(c, m)
    decreases m
  {
    hide WeightOf;
    if m == 0 {
    } else {
      ChainCost(W, p, m - 1, c);
      CostExtend(W, p[..m], p[m]);
      assert p[..m] + [p[m]] == p[..m + 1];
      assert ArcAt(p, m - 1) == Arc(p[..m][m - 1], p[m]);
    }
  }

  lemma DetourCosts(n: nat, a: real, b: real)
    requires n >= 2
    ensures var W := DetourProblem(n, a, b).W();
            && Cost(W, [SOURCE, TARGET]) == a
            && Cost(W, ShortChain(n)) == Times(b, n)
            && Cost(W, LongChain(n)) == Times(a, n) + b
  {
    hide ArcWeights, WeightOf, Clean, Rebuilt, Cost;
    var es, W, p, q := Records(n, a, b), DetourProblem(n, a, b).W(), ShortChain(n), LongChain(n);
    RecordsClean(n, a, b);
    forall i: nat | i < 2 * n + 2 ensures WeightOf(W, ArcOf(Record(n, a, b, i))) == Record(n, a, b, i).latency {
      PlainWeight(Nodes(n), es, Latency, i);
    }
    assert ArcOf(Record(n, a, b, 0)) == Arc(SOURCE, TARGET);
    OneArcCost(W, SOURCE, TARGET);
    forall i: nat | i < n ensures WeightOf(W, ArcAt(p, i)) == b {
      assert ArcAt(p, i) == ArcOf(Record(n, a, b, i + 1));
    }
    ChainCost(W, p, n, b);
    assert p[..n + 1] == p;
    forall i: nat | i < n + 1 ensures WeightOf(W, ArcAt(q, i)) == if i == n then b else a {
      assert ArcAt(q, i) == ArcOf(Record(n, a, b, i + n + 1));
    }
    ChainCost(W, q, n, a);
    CostExtend(W, q[..n + 1], q[n + 1]);
    assert q[..n + 1] + [q[n + 1]] == q && q[..n + 1][n] == q[n] && ArcAt(q, n) == Arc(q[n], q[n + 1]);
  }

  lemma OneArcCost(W: map<Arc, real>, u: Uuid, v: Uuid)
    ensures Cost(W, [u, v]) == WeightOf(W, Arc(u, v))
  {
    assert Cost(W, [u]) == 0.0;
    CostExtend(W, [u], v);
    assert [u] + [v] == [u, v];
  }

  // ---- The weights for which the search finds the lightest paths ----

  lemma {:induction false} TimesSplit(a: real, b: real, n: nat)
    ensures Times(b, n) == Times(a, n) + Times(b - a, n)
    decreases n
  {
    if n == 0 {
    } else {
      TimesSplit(a, b, n - 1);
    }
  }

  lemma {:induction false} TimesIsProduct(c: real, n: nat)
    ensures Times(c, n) == c * n as real
    decreases n
  {
    if n == 0 {
    } else {
      TimesIsProduct(c, n - 1);
    }
  }

  /** Enough steps of any positive size pass any bound. */
  lemma LongEnough(d: real, x: real) returns (n: nat)
    requires d > 0.0 && x >= 0.0
    ensures n >= 2 && Times(d, n) > x
  {
    var ratio := x / d;
    assert ratio >= 0.0;
    n := ratio.Floor + 2;
    TimesIsProduct(d, n);
    ProductGrows(d, ratio, n as real);
    assert d * ratio == x;
  }

  lemma ProductGrows(d: real, x: real, y: real)
    requires d > 0.0 && x < y
    ensures d * x < d * y
  {
    assert d * (y - x) > 0.0;
  }

  /** `n` is large enough for the short detour to be the heavier one. */
  ghost predicate ShortIsHeavy(n: nat, a: real, b: real) {
    n >= 2 && 0.0 <= a < b && Times(b - a, n) > b
  }

  lemma DetourOrder(n: nat, a: real, b: real)
    requires ShortIsHeavy(n, a, b)
    ensures var W := DetourProblem(n, a, b).W();
            Cost(W, [SOURCE, TARGET]) < Cost(W, LongChain(n)) < Cost(W, ShortChain(n))
  {
    hide Cost, Times;
    DetourCosts(n, a, b);
    TimesSplit(a, b, n);
    TimesMonotone(a, 0, n);
    TimesIsProduct(a, 0);
  }

  lemma DetourRegular(n: nat, a: real, b: real)
    requires ShortIsHeavy(n, a, b)
    ensures Regular(DetourProblem(n, a, b)) && TwoDetours(DetourProblem(n, a, b).E(), ShortChain(n), LongChain(n))
    ensures PresentArcs(DetourProblem(n, a, b).g) == DetourProblem(n, a, b).E()
    ensures forall id :: id in DetourProblem(n, a, b).g.edges ==> Latency(DetourProblem(n, a, b).g.edges[id]) in {a, b}
  {
    hide Clean, EdgeTable, NodeTable, TwoDetours, Records, Nodes, Transposed, Keyed, NoParallelEdges, StartsIn, Times,
         EdgeArcs, PresentArcs, RecordArcs, ShortChain, LongChain;
    RecordsClean(n, a, b);
    CleanGraph(Nodes(n), Records(n, a, b));
    RecordArcsAre(n, a, b);
    NodesListed(n);
    EdgeTableEntries(Records(n, a, b));
    var edges := DetourProblem(n, a, b).g.edges;
    forall id | id in edges ensures Latency(edges[id]) in {a, b} {
      RecordLatency(n, a, b, edges[id]);
    }
  }

  lemma RecordLatency(n: nat, a: real, b: real, e: CallEdge)
    requires e in Records(n, a, b)
    ensures e.latency == a || e.latency == b
  {
    var i :| 0 <= i < |Records(n, a, b)| && Records(n, a, b)[i] == e;
    assert Records(n, a, b)[i] == Record(n, a, b, i);
  }

  lemma DirectIsFirst(n: nat, a: real, b: real, p: seq<Uuid>)
    requires ShortIsHeavy(n, a, b)
    ensures var pb := DetourProblem(n, a, b);
            LightestPath(PresentArcs(pb.g), pb.W(), p, SOURCE, TARGET) <==> p == [SOURCE, TARGET]
  {
    hide Cost, ShortIsHeavy, TwoDetours, IsWalk, ArcWeights;
    var pb := DetourProblem(n, a, b);
    DetourRegular(n, a, b);
    DetourOrder(n, a, b);
    hide DetourProblem;
    forall q
      ensures WalkFromTo(pb.E(), q, SOURCE, TARGET) <==> q == [SOURCE, TARGET] || q == ShortChain(n) || q == LongChain(n)
    {
      DetourWalks(pb.E(), ShortChain(n), LongChain(n), q);
    }
  }

  /** Asked for two paths, the search must answer with the direct edge and the short
      detour, leaving out the lighter long one. */
  lemma HeavierPathReturned(n: nat, a: real, b: real, accepted: seq<seq<Uuid>>)
    requires ShortIsHeavy(n, a, b) && Outcome(DetourProblem(n, a, b), 2, accepted)
    ensures accepted == [[SOURCE, TARGET], ShortChain(n)]
    ensures var pb := DetourProblem(n, a, b);
            && IsPath(pb, LongChain(n)) && LongChain(n) !in accepted
            && Cost(pb.W(), LongChain(n)) < Cost(pb.W(), accepted[1])
            && !LightestFirst(pb, accepted)
  {
    hide Cost, ShortIsHeavy, TwoDetours, IsPath, Outcome, Rebuilt, LightestPath, History;
    var pb := DetourProblem(n, a, b);
    DetourRegular(n, a, b);
    DetourOrder(n, a, b);
    OutcomePromises(pb, 2, accepted);
    DirectIsFirst(n, a, b, accepted[0]);
    ShorterFirst(pb, ShortChain(n), LongChain(n), accepted);
    assert LongChain(n) !in accepted[..1];
  }

  ghost predicate WeightsIn(pb: Problem, weights: iset<real>) {
    forall id :: id in pb.g.edges ==> pb.w(pb.g.edges[id]) in weights
  }

  /** On every regular graph with weights from `weights` every run of the search
      finds the lightest paths, lightest first. */
  ghost predicate AlwaysLightest(weights: iset<real>) {
    forall pb, k, accepted :: Regular(pb) && WeightsIn(pb, weights) && Outcome(pb, k, accepted) ==> LightestFirst(pb, accepted)
  }

  /** The search can be trusted with a set of weights exactly when the set holds no
      two different non-negative ones. */
  lemma LightestIff(weights: iset<real>)
    ensures AlwaysLightest(weights) <==> forall a, b :: a in weights && b in weights && 0.0 <= a <= b ==> a == b
  {
    hide Outcome, LightestFirst, Regular, LightestPath;
    forall a, b | a in weights && b in weights && 0.0 <= a < b ensures !AlwaysLightest(weights) {
      var n := LongEnough(b - a, b);
      WeightsFail(weights, n, a, b);
    }
    if forall a, b :: a in weights && b in weights && 0.0 <= a <= b ==> a == b {
      forall pb, k, accepted | Regular(pb) && WeightsIn(pb, weights) && Outcome(pb, k, accepted)
        ensures LightestFirst(pb, accepted)
      {
        RegularUniform(pb, weights);
        MissingNotLighter(pb, k, accepted);
      }
    }
  }

  lemma WeightsFail(weights: iset<real>, n: nat, a: real, b: real)
    requires a in weights && b in weights && ShortIsHeavy(n, a, b)
    ensures !AlwaysLightest(weights)
  {
    hide Outcome, LightestFirst, Regular, LightestPath, ShortIsHeavy, Rebuilt, TwoDetours, IsPath, Cost, PresentArcs;
    var pb := DetourProblem(n, a, b);
    DetourRegular(n, a, b);
    DirectIsFirst(n, a, b, [SOURCE, TARGET]);
    var accepted := OutcomeExists(pb, 2, [SOURCE, TARGET]);
    HeavierPathReturned(n, a, b, accepted);
    assert WeightsIn(pb, weights);
  }

  lemma RegularUniform(pb: Problem, weights: iset<real>)
    requires Regular(pb) && WeightsIn(pb, weights)
    requires forall a, b :: a in weights && b in weights && 0.0 <= a <= b ==> a == b
    ensures Orderly(pb)
  {
    hide Clean, HopMonotone, PresentIsLightest, Rebuilt, StartsIn;
    var ns, es :| Clean(ns, es) && pb.g == Rebuilt(ns, es);
    CleanGraph(ns, es);
    SourcesPresentLightest(pb);
    AgreementCases(pb.g, pb.w);
    if id :| id in pb.g.edges {
      UniformHopMonotone(pb, pb.w(pb.g.edges[id]));
    } else {
      UniformHopMonotone(pb, 0.0);
    }
  }

  // ---- A way around through an absent node ----

  /** Three edges through present nodes, and two through `x`. */
  function ShortcutRecords(s: Uuid, a: Uuid, b: Uuid, t: Uuid, x: Uuid): seq<CallEdge> {
    [CallEdge(Uuid(0), s, a, 0.0, 0.0), CallEdge(Uuid(1), a, b, 0.0, 0.0), CallEdge(Uuid(2), b, t, 0.0, 0.0),
     CallEdge(Uuid(3), s, x, 0.0, 0.0), CallEdge(Uuid(4), x, t, 0.0, 0.0)]
  }

  ghost predicate AllDifferent(s: Uuid, a: Uuid, b: Uuid, t: Uuid, x: Uuid) {
    s != a && s != b && s != t && s != x && a != b && a != t && a != x && b != t && b != x && t != x
  }

  lemma ShortcutPlain(ns: seq<ServiceNode>, s: Uuid, a: Uuid, b: Uuid, t: Uuid, x: Uuid)
    requires AllDifferent(s, a, b, t, x)
    requires s in NodeTable(ns) && a in NodeTable(ns) && b in NodeTable(ns) && t in NodeTable(ns) && x !in NodeTable(ns)
    ensures var es := ShortcutRecords(s, a, b, t, x);
            && Plain(es)
            && EdgeArcs(Rebuilt(ns, es).edges) == {Arc(s, a), Arc(a, b), Arc(b, t), Arc(s, x), Arc(x, t)}
            && PresentArcs(Rebuilt(ns, es)) == {Arc(s, a), Arc(a, b), Arc(b, t)}
  {
    hide NodeTable, EdgeTable, EdgeArcs, Transposed, Keyed, NoParallelEdges, ShortcutRecords, RecordArcs, Plain;
    var es := ShortcutRecords(s, a, b, t, x);
    ShortcutRecorded(s, a, b, t, x);
    PlainGraph(ns, es);
  }

  lemma ShortcutRecorded(s: Uuid, a: Uuid, b: Uuid, t: Uuid, x: Uuid)
    requires AllDifferent(s, a, b, t, x)
    ensures var es := ShortcutRecords(s, a, b, t, x);
            Plain(es) && RecordArcs(es) == {Arc(s, a), Arc(a, b), Arc(b, t), Arc(s, x), Arc(x, t)}
  {
    var es := ShortcutRecords(s, a, b, t, x);
    assert ArcOf(es[0]) == Arc(s, a) && ArcOf(es[1]) == Arc(a, b) && ArcOf(es[2]) == Arc(b, t);
    assert ArcOf(es[3]) == Arc(s, x) && ArcOf(es[4]) == Arc(x, t);
  }

  lemma ShortcutSteps(E: set<Arc>, P: set<Arc>, s: Uuid, a: Uuid, b: Uuid, t: Uuid, x: Uuid)
    requires AllDifferent(s, a, b, t, x) && P == {Arc(s, a), Arc(a, b), Arc(b, t)} && E == P + {Arc(s, x), Arc(x, t)}
    ensures Steps(P, s, t, 3) && Steps(E, s, t, 2)
    ensures !Steps(P, s, t, 0) && !Steps(P, s, t, 1) && !Steps(P, s, t, 2)
  {
    WalkSteps(P, [s, a, b, t], s, t);
    WalkSteps(E, [s, x, t], s, t);
    assert forall u :: Steps(P, s, u, 0) ==> u == s;
    assert forall u :: Steps(P, s, u, 1) ==> u == a;
  }

  /** Dijkstra keeps to present nodes and needs three edges; the spur search goes
      through the absent one over two.  So no outcome is in order of weight, though
      ids are distinct, no edges are parallel and the weights are the default. */
  lemma ShortcutOutOfOrder(ns: seq<ServiceNode>, s: Uuid, a: Uuid, b: Uuid, t: Uuid, x: Uuid, k: int,
                           accepted: seq<seq<Uuid>>)
    requires AllDifferent(s, a, b, t, x)
    requires s in NodeTable(ns) && a in NodeTable(ns) && b in NodeTable(ns) && t in NodeTable(ns) && x !in NodeTable(ns)
    requires Outcome(Problem(Rebuilt(ns, ShortcutRecords(s, a, b, t, x)), OrUnit(None), s, t), k, accepted)
    ensures Plain(ShortcutRecords(s, a, b, t, x))
    ensures !LightestFirst(Problem(Rebuilt(ns, ShortcutRecords(s, a, b, t, x)), OrUnit(None), s, t), accepted)
  {
    hide NodeTable, EdgeArcs, PresentArcs, Plain, Outcome, LightestFirst, HopMonotone, ParallelEdgesAgree, PresentIsLightest,
         ShortcutRecords, AllDifferent, Steps, Rebuilt;
    var g := Rebuilt(ns, ShortcutRecords(s, a, b, t, x));
    ShortcutPlain(ns, s, a, b, t, x);
    ShortcutSteps(EdgeArcs(g.edges), PresentArcs(g), s, a, b, t, x);
    assert !SameDistance(g, s, t);
    assert Reachable(PresentArcs(g), s, t);
    DefaultOrderlyIff(g, s, t);
    DefaultWeights(g, s, t);
    InOrderIff(Problem(g, OrUnit(None), s, t), k, accepted);
  }
}
