/** Which runs the k-paths search can take, and what all of them promise: paths are
    found as deviations from accepted ones, by number of arcs, and accepted by
    weight. */
module Deviations {
  import opened Domain
  import opened Sequences
  import opened Walks
  import opened Graph
  import opened WeightedSearch
  import opened Totals

  /** A graph, the weights of its edges and the two ends. */
  datatype Problem = Problem(g: Topology, w: WeightFunc, s: Uuid, t: Uuid)
  {
    ghost function E(): set<Arc> {
      EdgeArcs(g.edges)
    }

    ghost function W(): map<Arc, real> {
      ArcWeights(g.edges, w)
    }
  }

  ghost predicate IsPath(pb: Problem, p: seq<Uuid>) {
    SimplePath(pb.E(), p, pb.s, pb.t)
  }

  ghost predicate AllPaths(pb: Problem, accepted: seq<seq<Uuid>>) {
    accepted != [] && forall i :: 0 <= i < |accepted| ==> IsPath(pb, accepted[i])
  }

  // ---- Deviations ----

  /** Some accepted path starts with `root`. */
  ghost predicate Shared(accepted: seq<seq<Uuid>>, root: seq<Uuid>) {
    exists i :: 0 <= i < |accepted| && root <= accepted[i]
  }

  /** `p` follows some accepted path up to index `j` and then leaves all of them. */
  ghost predicate Diverges(accepted: seq<seq<Uuid>>, p: seq<Uuid>, j: nat) {
    j + 2 <= |p| && Shared(accepted, p[..j + 1]) && !Shared(accepted, p[..j + 2])
  }

  /** A path that is not accepted leaves the accepted ones somewhere. */
  lemma Escapes(pb: Problem, accepted: seq<seq<Uuid>>, p: seq<Uuid>) returns (j: nat)
    requires AllPaths(pb, accepted) && IsPath(pb, p) && p !in accepted
    ensures Diverges(accepted, p, j)
  {
    j := 0;
    assert p[..1] <= accepted[0] by { assert IsPath(pb, accepted[0]); }
    while j + 2 <= |p| && Shared(accepted, p[..j + 2])
      invariant j + 1 <= |p| && Shared(accepted, p[..j + 1])
      decreases |p| - j
    {
      j := j + 1;
    }
    if j + 2 > |p| {
      assert p[..j + 1] == p;
      var i :| 0 <= i < |accepted| && p <= accepted[i];
      PrefixIsWhole(pb, p, accepted[i]);
    }
  }

  lemma PrefixIsWhole(pb: Problem, p: seq<Uuid>, q: seq<Uuid>)
    requires IsPath(pb, p) && IsPath(pb, q) && p <= q
    ensures p == q
  {
    assert q[|p| - 1] == q[|q| - 1];
  }

  ghost predicate Leaves(pb: Problem, accepted: seq<seq<Uuid>>, root: seq<Uuid>, p: seq<Uuid>) {
    IsPath(pb, p) && root < p && !Shared(accepted, p[..|root| + 1])
  }

  /** What one spur search establishes about index `j` of the last accepted path. */
  ghost predicate SpurFound(pb: Problem, accepted: seq<seq<Uuid>>, root: seq<Uuid>, c: seq<Uuid>) {
    && Leaves(pb, accepted, root, c)
    && forall p :: Leaves(pb, accepted, root, p) ==> |c| <= |p|
  }

  /** A path that leaves all accepted paths is not one of them. */
  lemma LeavesNew(pb: Problem, accepted: seq<seq<Uuid>>, root: seq<Uuid>, c: seq<Uuid>)
    requires Leaves(pb, accepted, root, c)
    ensures c !in accepted
  {
    hide IsPath;
    assert c[..|root| + 1] <= c;
  }

  lemma SpurNew(pb: Problem, accepted: seq<seq<Uuid>>, root: seq<Uuid>, c: seq<Uuid>)
    requires SpurFound(pb, accepted, root, c)
    ensures c !in accepted
  {
    LeavesNew(pb, accepted, root, c);
  }

  /** `c` is a path with the fewest arcs among those that follow `accepted[m]` up
      to index `j` and leave there all of the paths accepted no later than it. */
  ghost predicate IsSpur(pb: Problem, accepted: seq<seq<Uuid>>, m: nat, j: nat, c: seq<Uuid>) {
    && m < |accepted| && j + 2 <= |accepted[m]|
    && Leaves(pb, accepted[..m + 1], accepted[m][..j + 1], c)
    && forall p :: Leaves(pb, accepted[..m + 1], accepted[m][..j + 1], p) ==> |c| <= |p|
  }

  ghost predicate FromSpur(pb: Problem, accepted: seq<seq<Uuid>>, c: seq<Uuid>) {
    exists m, j :: IsSpur(pb, accepted, m, j, c)
  }

  lemma SpurStable(pb: Problem, accepted: seq<seq<Uuid>>, more: seq<seq<Uuid>>, c: seq<Uuid>)
    requires FromSpur(pb, accepted, c)
    ensures FromSpur(pb, accepted + more, c)
  {
    var m, j :| IsSpur(pb, accepted, m, j, c);
    assert (accepted + more)[..m + 1] == accepted[..m + 1];
    assert IsSpur(pb, accepted + more, m, j, c);
  }

  lemma SharedMore(accepted: seq<seq<Uuid>>, more: seq<seq<Uuid>>, root: seq<Uuid>)
    ensures Shared(accepted, root) ==> Shared(accepted + more, root)
  {
    if Shared(accepted, root) {
      var k :| 0 <= k < |accepted| && root <= accepted[k];
      assert (accepted + more)[k] == accepted[k];
    }
  }

  // ---- The runs of the search ----

  /** The entry carries some total of its path. */
  ghost predicate Priced(pb: Problem, c: Entry) {
    IsTotal(pb.g.edges, pb.w, c.nodes, c.cost)
  }

  ghost predicate NoneLeaves(pb: Problem, accepted: seq<seq<Uuid>>, root: seq<Uuid>) {
    forall p :: !Leaves(pb, accepted, root, p)
  }

  /** One spur search after `root` adds a path with the fewest arcs among those that
      leave the accepted ones there, or nothing when none does. */
  ghost predicate Spurred(pb: Problem, accepted: seq<seq<Uuid>>, root: seq<Uuid>, before: multiset<Entry>,
                          after: multiset<Entry>)
  {
    || (after == before && NoneLeaves(pb, accepted, root))
    || exists c: Entry :: SpurFound(pb, accepted, root, c.nodes) && Priced(pb, c) && after == before + multiset{c}
  }

  /** The spur searches from the first `j` indices of `last`. */
  ghost predicate Pushed(pb: Problem, accepted: seq<seq<Uuid>>, last: seq<Uuid>, j: nat,
                         before: multiset<Entry>, after: multiset<Entry>)
    requires j <= |last|
    decreases j
  {
    if j == 0 then after == before
    else exists mid :: Pushed(pb, accepted, last, j - 1, before, mid) && Spurred(pb, accepted, last[..j], mid, after)
  }

  /** One round: a spur search from every index of the last accepted path but its end. */
  ghost predicate Round(pb: Problem, accepted: seq<seq<Uuid>>, before: multiset<Entry>, after: multiset<Entry>) {
    && accepted != [] && accepted[|accepted| - 1] != []
    && Pushed(pb, accepted, accepted[|accepted| - 1], |accepted[|accepted| - 1]| - 1, before, after)
  }

  /** The search can have accepted these paths, in this order, with this heap left. */
  ghost predicate Trace(pb: Problem, accepted: seq<seq<Uuid>>, heap: multiset<Entry>)
    decreases |accepted|
  {
    if |accepted| <= 1 then
      |accepted| == 1 && heap == multiset{} && LightestPath(PresentArcs(pb.g), pb.W(), accepted[0], pb.s, pb.t)
    else
      var n := |accepted| - 1;
      exists h, r, c: Entry ::
        Trace(pb, accepted[..n], h) && Round(pb, accepted[..n], h, r) && Pops(r, c, heap) && c.nodes == accepted[n]
  }

  /** The search can answer a request for `k` paths with `accepted`. */
  ghost predicate Outcome(pb: Problem, k: int, accepted: seq<seq<Uuid>>) {
    && (|accepted| == 1 || |accepted| <= k)
    && exists heap :: Trace(pb, accepted, heap) && (|accepted| < k ==> Round(pb, accepted, heap, multiset{}))
  }

  // ---- The heap covers everything that is not accepted ----

  /** Some candidate deviates no earlier than `p` at `j` and has no more arcs. */
  ghost predicate Covered(heap: multiset<Entry>, p: seq<Uuid>, j: nat)
    requires j < |p|
  {
    exists c :: c in heap && p[..j + 1] <= c.nodes && |c.nodes| <= |p|
  }

  /** Every path that leaves the accepted ones is covered, except those that leave
      `last` at index `upto` or later. */
  ghost predicate Cover(pb: Problem, accepted: seq<seq<Uuid>>, heap: multiset<Entry>, last: seq<Uuid>, upto: nat) {
    forall p, j: nat :: IsPath(pb, p) && Diverges(accepted, p, j) && (j < upto || !(p[..j + 1] <= last)) ==>
      Covered(heap, p, j)
  }

  /** Accepting the candidate `c` disturbs only the deviations from `c` itself. */
  lemma PopKeepsCover(pb: Problem, accepted: seq<seq<Uuid>>, heap: multiset<Entry>, last: seq<Uuid>, c: Entry)
    requires Cover(pb, accepted, heap, last, |last|) && c in heap
    ensures Cover(pb, accepted + [c.nodes], heap - multiset{c}, c.nodes, 0)
  {
    var now := accepted + [c.nodes];
    forall p, j: nat | IsPath(pb, p) && Diverges(now, p, j) && !(p[..j + 1] <= c.nodes)
      ensures Covered(heap - multiset{c}, p, j)
    {
      LeavesEarlier(accepted, c.nodes, p, j);
      assert j < |last| || !(p[..j + 1] <= last);
      assert Covered(heap, p, j);
      var x :| x in heap && p[..j + 1] <= x.nodes && |x.nodes| <= |p|;
      assert x != c;
      assert x in heap - multiset{c};
    }
  }

  lemma LeavesEarlier(accepted: seq<seq<Uuid>>, c: seq<Uuid>, p: seq<Uuid>, j: nat)
    requires Diverges(accepted + [c], p, j) && !(p[..j + 1] <= c)
    ensures Diverges(accepted, p, j)
  {
    var now := accepted + [c];
    var i :| 0 <= i < |now| && p[..j + 1] <= now[i];
    assert now[i] == accepted[i];
    SharedMore(accepted, [c], p[..j + 2]);
  }

  /** An accepted path reaches its end before it can be left, so covering all of
      its indices but the last covers everything. */
  lemma CoverWhole(pb: Problem, accepted: seq<seq<Uuid>>, heap: multiset<Entry>, last: seq<Uuid>)
    requires IsPath(pb, last) && Cover(pb, accepted, heap, last, |last| - 1)
    ensures Cover(pb, accepted, heap, last, |last|)
  {
    forall p, j: nat | IsPath(pb, p) && Diverges(accepted, p, j) && (j < |last| || !(p[..j + 1] <= last))
      ensures Covered(heap, p, j)
    {
      LeavesBeforeEnd(pb, last, p, j);
    }
  }

  lemma LeavesBeforeEnd(pb: Problem, last: seq<Uuid>, p: seq<Uuid>, j: nat)
    requires IsPath(pb, last) && IsPath(pb, p) && j + 2 <= |p|
    ensures p[..j + 1] <= last ==> j < |last| - 1
  {
    assert p[j] != p[|p| - 1];
    if p[..j + 1] <= last {
      assert p[..j + 1][j] == last[j];
    }
  }

  /** With everything covered an empty heap means that every path is accepted. */
  lemma EmptyHeapComplete(pb: Problem, accepted: seq<seq<Uuid>>, last: seq<Uuid>)
    requires AllPaths(pb, accepted) && Cover(pb, accepted, multiset{}, last, |last|)
    ensures forall p :: IsPath(pb, p) ==> p in accepted
  {
    forall p | IsPath(pb, p) ensures p in accepted {
      if p !in accepted {
        var x := CoveringCandidate(pb, accepted, multiset{}, last, p);
      }
    }
  }

  lemma CoveringCandidate(pb: Problem, accepted: seq<seq<Uuid>>, heap: multiset<Entry>, last: seq<Uuid>, p: seq<Uuid>)
    returns (c: Entry)
    requires AllPaths(pb, accepted) && Cover(pb, accepted, heap, last, |last|)
    requires IsPath(pb, p) && p !in accepted
    ensures c in heap && |c.nodes| <= |p|
  {
    var j := Escapes(pb, accepted, p);
    assert j < |last| || !(p[..j + 1] <= last);
    assert Covered(heap, p, j);
    c :| c in heap && p[..j + 1] <= c.nodes && |c.nodes| <= |p|;
  }

  lemma SpurCovers(pb: Problem, accepted: seq<seq<Uuid>>, heap: multiset<Entry>, last: seq<Uuid>, j: nat, c: Entry)
    requires Cover(pb, accepted, heap, last, j) && j + 1 <= |last|
    requires SpurFound(pb, accepted, last[..j + 1], c.nodes)
    ensures Cover(pb, accepted, heap + multiset{c}, last, j + 1)
  {
    var wider := heap + multiset{c};
    assert c in wider;
    forall p, i: nat | IsPath(pb, p) && Diverges(accepted, p, i) && (i < j + 1 || !(p[..i + 1] <= last))
      ensures Covered(wider, p, i)
    {
      if i == j && p[..i + 1] <= last {
        assert p[..i + 1] == last[..j + 1];
        assert Leaves(pb, accepted, last[..j + 1], p);
        assert p[..i + 1] <= c.nodes;
      } else {
        assert Covered(heap, p, i);
        var x :| x in heap && p[..i + 1] <= x.nodes && |x.nodes| <= |p|;
        assert x in wider;
      }
    }
  }

  lemma NoSpurCovers(pb: Problem, accepted: seq<seq<Uuid>>, heap: multiset<Entry>, last: seq<Uuid>, j: nat,
                     root: seq<Uuid>)
    requires Cover(pb, accepted, heap, last, j) && j + 1 <= |last| && root == last[..j + 1]
    requires NoneLeaves(pb, accepted, root)
    ensures Cover(pb, accepted, heap, last, j + 1)
  {
    forall p, i: nat | IsPath(pb, p) && Diverges(accepted, p, i) && (i < j + 1 || !(p[..i + 1] <= last))
      ensures Covered(heap, p, i)
    {
      assert p[..i + 1] == root ==> Leaves(pb, accepted, root, p);
      PrefixSlice(p, last, i + 1);
    }
  }

  lemma PrefixSlice(p: seq<Uuid>, q: seq<Uuid>, n: nat)
    requires n <= |p|
    ensures p[..n] <= q ==> n <= |q| && p[..n] == q[..n]
  {
  }

  // ---- Weights ----

  /** More arcs never make a path lighter. */
  ghost predicate HopMonotone(pb: Problem) {
    forall p, q :: IsPath(pb, p) && IsPath(pb, q) && |p| <= |q| ==> Cost(pb.W(), p) <= Cost(pb.W(), q)
  }

  /** Equal weights on all edges, the default among them, are hop-monotone. */
  lemma UniformHopMonotone(pb: Problem, c: real)
    requires c >= 0.0 && forall id :: id in pb.g.edges ==> pb.w(pb.g.edges[id]) == c
    ensures HopMonotone(pb)
  {
    hide Cost, IsPath, ArcWeights;
    assert forall a :: a in pb.W() ==> pb.W()[a] == c;
    forall p, q | IsPath(pb, p) && IsPath(pb, q) && |p| <= |q| ensures Cost(pb.W(), p) <= Cost(pb.W(), q) {
      UniformPair(pb, c, p, q);
    }
  }

  lemma UniformPair(pb: Problem, c: real, p: seq<Uuid>, q: seq<Uuid>)
    requires c >= 0.0 && pb.E() == pb.W().Keys && forall a :: a in pb.W() ==> pb.W()[a] == c
    requires IsPath(pb, p) && IsPath(pb, q) && |p| <= |q|
    ensures Cost(pb.W(), p) <= Cost(pb.W(), q)
  {
    hide Cost, Times;
    UniformCost(pb.E(), pb.W(), c, p);
    UniformCost(pb.E(), pb.W(), c, q);
    TimesMonotone(c, |p| - 1, |q| - 1);
  }

  /** `n` times `c`. */
  ghost function Times(c: real, n: nat): real {
    if n == 0 then 0.0 else Times(c, n - 1) + c
  }

  lemma {:induction false} TimesMonotone(c: real, m: nat, n: nat)
    requires c >= 0.0 && m <= n
    ensures Times(c, m) <= Times(c, n)
    decreases n
  {
    if m == n {
    } else {
      TimesMonotone(c, m, n - 1);
    }
  }

  lemma {:induction false} UniformCost(E: set<Arc>, W: map<Arc, real>, c: real, p: seq<Uuid>)
    requires E == W.Keys && IsWalk(E, p) && forall a :: a in W ==> W[a] == c
    ensures Cost(W, p) == Times(c, |p| - 1)
    decreases |p|
  {
    if |p| <= 1 {
    } else {
      var q := p[..|p| - 1];
      assert IsWalk(E, q);
      UniformCost(E, W, c, q);
      assert Arc(p[|p| - 2], p[|p| - 1]) in E;
    }
  }

  /** No path of the edge table is lighter than a lightest one through present nodes. */
  ghost predicate PresentIsLightest(pb: Problem) {
    forall p, q :: LightestPath(PresentArcs(pb.g), pb.W(), p, pb.s, pb.t) && IsPath(pb, q) ==> Cost(pb.W(), p) <= Cost(pb.W(), q)
  }

  /** No way around through absent nodes is lighter, parallel edges agree, and more
      arcs never make a path lighter. */
  ghost predicate Orderly(pb: Problem) {
    PresentIsLightest(pb) && ParallelEdgesAgree(pb.g.edges, pb.w) && HopMonotone(pb)
  }

  /** There is no such way when every edge starts at a present node. */
  lemma SourcesPresentLightest(pb: Problem)
    requires SourcesPresent(pb.g) && pb.t in pb.g.nodes
    ensures PresentIsLightest(pb)
  {
    hide Cost, StartsIn;
    forall p, q | LightestPath(PresentArcs(pb.g), pb.W(), p, pb.s, pb.t) && IsPath(pb, q)
      ensures Cost(pb.W(), p) <= Cost(pb.W(), q)
    {
      WalkInside(pb.E(), pb.g.nodes.Keys, q, pb.s, pb.t);
    }
  }

  /** Through present nodes the target is no farther than over all stored edges. */
  ghost predicate SameDistance(g: Topology, s: Uuid, t: Uuid) {
    exists d: nat :: HopDistance(PresentArcs(g), s, t, d) && HopDistance(EdgeArcs(g.edges), s, t, d)
  }

  lemma DefaultWeights(g: Topology, s: Uuid, t: Uuid)
    ensures var pb := Problem(g, OrUnit(None), s, t);
            ParallelEdgesAgree(pb.g.edges, pb.w) && HopMonotone(pb)
  {
    hide HopMonotone, ParallelEdgesAgree;
    AgreementCases(g, OrUnit(None));
    UniformHopMonotone(Problem(g, OrUnit(None), s, t), 1.0);
  }

  /** Under the default weights a problem with a first path is orderly exactly when
      the distance through present nodes is the distance over all stored edges. */
  lemma DefaultOrderlyIff(g: Topology, s: Uuid, t: Uuid)
    requires Reachable(PresentArcs(g), s, t)
    ensures Orderly(Problem(g, OrUnit(None), s, t)) <==> SameDistance(g, s, t)
  {
    hide HopMonotone, ParallelEdgesAgree, PresentIsLightest, SameDistance;
    DefaultWeights(g, s, t);
    if SameDistance(g, s, t) {
      NearIsLightest(g, s, t);
    }
    if PresentIsLightest(Problem(g, OrUnit(None), s, t)) {
      LightestIsNear(g, s, t);
    }
  }

  lemma NearIsLightest(g: Topology, s: Uuid, t: Uuid)
    requires SameDistance(g, s, t)
    ensures PresentIsLightest(Problem(g, OrUnit(None), s, t))
  {
    hide Cost, ArcWeights, PresentArcs, EdgeArcs;
    var pb := Problem(g, OrUnit(None), s, t);
    var d: nat :| HopDistance(PresentArcs(g), s, t, d) && HopDistance(EdgeArcs(g.edges), s, t, d);
    var near := StepsWalk(PresentArcs(g), s, t, d);
    UnitCost(g.edges, near);
    forall p, q | LightestPath(PresentArcs(g), pb.W(), p, s, t) && IsPath(pb, q) ensures Cost(pb.W(), p) <= Cost(pb.W(), q) {
      WalkSteps(EdgeArcs(g.edges), q, s, t);
      UnitCost(g.edges, q);
    }
  }

  /** A walk over as few arcs as possible is a lightest path under the default weights. */
  lemma NearestIsLightest(g: Topology, p: seq<Uuid>, s: Uuid, t: Uuid)
    requires WalkFromTo(PresentArcs(g), p, s, t) && HopDistance(PresentArcs(g), s, t, |p| - 1)
    ensures LightestPath(PresentArcs(g), ArcWeights(g.edges, OrUnit(None)), p, s, t)
  {
    hide Cost, ArcWeights, PresentArcs;
    ShortestIsSimple(PresentArcs(g), p, s, t);
    UnitCost(g.edges, p);
    forall q | WalkFromTo(PresentArcs(g), q, s, t)
      ensures Cost(ArcWeights(g.edges, OrUnit(None)), p) <= Cost(ArcWeights(g.edges, OrUnit(None)), q)
    {
      WalkSteps(PresentArcs(g), q, s, t);
      UnitCost(g.edges, q);
    }
  }

  lemma LightestIsNear(g: Topology, s: Uuid, t: Uuid)
    requires Reachable(PresentArcs(g), s, t) && PresentIsLightest(Problem(g, OrUnit(None), s, t))
    ensures SameDistance(g, s, t)
  {
    hide Cost, ArcWeights, EdgeArcs, LightestPath;
    var pb := Problem(g, OrUnit(None), s, t);
    var n: nat :| Steps(PresentArcs(g), s, t, n);
    var d := DistanceExists(PresentArcs(g), s, t, n);
    var p := StepsWalk(PresentArcs(g), s, t, d);
    NearestIsLightest(g, p, s, t);
    StepsMonotone(PresentArcs(g), EdgeArcs(g.edges), s, t, d);
    var e := DistanceExists(EdgeArcs(g.edges), s, t, d);
    var q := StepsWalk(EdgeArcs(g.edges), s, t, e);
    ShortestIsSimple(EdgeArcs(g.edges), q, s, t);
    UnitCost(g.edges, p);
    UnitCost(g.edges, q);
    assert IsPath(pb, q) && LightestPath(PresentArcs(pb.g), pb.W(), p, pb.s, pb.t);
    assert Cost(pb.W(), p) <= Cost(pb.W(), q);
    assert |p| - 1 <= |q| - 1;
  }

  /** Every accepted path is no heavier than any path not accepted before it. */
  ghost predicate EachLightest(pb: Problem, accepted: seq<seq<Uuid>>) {
    forall i, p :: 0 <= i < |accepted| && IsPath(pb, p) && p !in accepted[..i] ==> Cost(pb.W(), accepted[i]) <= Cost(pb.W(), p)
  }

  ghost predicate Ascending(pb: Problem, accepted: seq<seq<Uuid>>) {
    forall i, j :: 0 <= i <= j < |accepted| ==> Cost(pb.W(), accepted[i]) <= Cost(pb.W(), accepted[j])
  }

  /** Every candidate stems from a spur search on some accepted path. */
  ghost predicate Candidates(pb: Problem, accepted: seq<seq<Uuid>>, heap: multiset<Entry>) {
    forall c :: c in heap ==> IsPath(pb, c.nodes) && FromSpur(pb, accepted, c.nodes)
  }

  /** Candidates carry their weights, and none is lighter than the last accepted path. */
  ghost predicate Weighed(pb: Problem, heap: multiset<Entry>, last: seq<Uuid>) {
    forall c :: c in heap ==> c.cost == Cost(pb.W(), c.nodes) && Cost(pb.W(), last) <= c.cost
  }

  /** The weight-related part of the invariant. */
  ghost predicate LightInv(pb: Problem, accepted: seq<seq<Uuid>>, heap: multiset<Entry>) {
    && accepted != []
    && EachLightest(pb, accepted) && Ascending(pb, accepted)
    && Weighed(pb, heap, accepted[|accepted| - 1])
  }

  /** A candidate from a new deviation is no lighter than the last accepted path. */
  lemma PushKeepsLight(pb: Problem, accepted: seq<seq<Uuid>>, heap: multiset<Entry>, c: Entry)
    requires LightInv(pb, accepted, heap)
    requires IsPath(pb, c.nodes) && c.nodes !in accepted && c.cost == Cost(pb.W(), c.nodes)
    ensures LightInv(pb, accepted, heap + multiset{c})
  {
    var n := |accepted| - 1;
    assert c.nodes !in accepted[..n];
    assert Cost(pb.W(), accepted[n]) <= Cost(pb.W(), c.nodes);
  }

  /** With hop-monotone weights a cheapest candidate is a lightest remaining path. */
  lemma PopKeepsLight(pb: Problem, accepted: seq<seq<Uuid>>, heap: multiset<Entry>, c: Entry)
    requires AllPaths(pb, accepted) && LightInv(pb, accepted, heap) && HopMonotone(pb)
    requires Cover(pb, accepted, heap, accepted[|accepted| - 1], |accepted[|accepted| - 1]|)
    requires Candidates(pb, accepted, heap)
    requires c in heap && forall x :: x in heap ==> c.cost <= x.cost
    ensures LightInv(pb, accepted + [c.nodes], heap - multiset{c})
  {
    hide Cover, FromSpur, HopMonotone, Cost, IsPath, EachLightest, Ascending;
    var now := accepted + [c.nodes];
    var last := accepted[|accepted| - 1];
    forall p | IsPath(pb, p) && p !in accepted ensures Cost(pb.W(), c.nodes) <= Cost(pb.W(), p) {
      var x := CoveringCandidate(pb, accepted, heap, last, p);
      MonotoneStep(pb, x.nodes, p);
    }
    LightestOn(pb, accepted, c.nodes);
    assert now[|now| - 1] == c.nodes;
  }

  lemma LightestOn(pb: Problem, accepted: seq<seq<Uuid>>, c: seq<Uuid>)
    requires accepted != [] && EachLightest(pb, accepted) && Ascending(pb, accepted)
    requires forall p :: IsPath(pb, p) && p !in accepted ==> Cost(pb.W(), c) <= Cost(pb.W(), p)
    requires Cost(pb.W(), accepted[|accepted| - 1]) <= Cost(pb.W(), c)
    ensures EachLightest(pb, accepted + [c]) && Ascending(pb, accepted + [c])
  {
    hide Cost, IsPath, EachLightest;
    EachLightestOn(pb, accepted, c);
    var now := accepted + [c];
    forall i, j | 0 <= i <= j < |now| ensures Cost(pb.W(), now[i]) <= Cost(pb.W(), now[j]) {
      if i < |accepted| {
        assert Cost(pb.W(), accepted[i]) <= Cost(pb.W(), accepted[|accepted| - 1]);
      }
    }
  }

  lemma EachLightestOn(pb: Problem, accepted: seq<seq<Uuid>>, c: seq<Uuid>)
    requires EachLightest(pb, accepted)
    requires forall p :: IsPath(pb, p) && p !in accepted ==> Cost(pb.W(), c) <= Cost(pb.W(), p)
    ensures EachLightest(pb, accepted + [c])
  {
    hide Cost, IsPath;
    var now := accepted + [c];
    forall i, p | 0 <= i < |now| && IsPath(pb, p) && p !in now[..i] ensures Cost(pb.W(), now[i]) <= Cost(pb.W(), p) {
      assert now[..i] == accepted[..i];
      if i == |accepted| {
        assert accepted[..i] == accepted;
      }
    }
  }

  lemma MonotoneStep(pb: Problem, p: seq<Uuid>, q: seq<Uuid>)
    requires HopMonotone(pb) && IsPath(pb, p) && IsPath(pb, q) && |p| <= |q|
    ensures Cost(pb.W(), p) <= Cost(pb.W(), q)
  {
  }

  /** Every accepted path after the first stems from a spur search on earlier ones. */
  ghost predicate History(pb: Problem, accepted: seq<seq<Uuid>>) {
    forall i :: 1 <= i < |accepted| ==> FromSpur(pb, accepted[..i], accepted[i])
  }

  /** What every step of a run keeps, apart from the cover. */
  ghost predicate Kept(pb: Problem, accepted: seq<seq<Uuid>>, heap: multiset<Entry>) {
    && AllPaths(pb, accepted) && History(pb, accepted) && Candidates(pb, accepted, heap)
    && (Orderly(pb) ==> LightInv(pb, accepted, heap))
  }

  // ---- Every run keeps the cover ----

  lemma FirstPath(pb: Problem, p: seq<Uuid>)
    requires LightestPath(PresentArcs(pb.g), pb.W(), p, pb.s, pb.t)
    ensures p != [] && Kept(pb, [p], multiset{}) && Cover(pb, [p], multiset{}, p, 0)
  {
    hide Cost, FromSpur, Leaves, LightestPath, Orderly, LightInv, IsPath;
    FirstIsPath(pb, p);
    if Orderly(pb) {
      FirstLightest(pb, p);
    }
  }

  lemma FirstIsPath(pb: Problem, p: seq<Uuid>)
    requires LightestPath(PresentArcs(pb.g), pb.W(), p, pb.s, pb.t)
    ensures IsPath(pb, p) && p != []
  {
    hide Cost;
    assert PresentArcs(pb.g) <= pb.E();
  }

  lemma FirstLightest(pb: Problem, p: seq<Uuid>)
    requires LightestPath(PresentArcs(pb.g), pb.W(), p, pb.s, pb.t) && Orderly(pb)
    ensures LightInv(pb, [p], multiset{})
  {
    hide Cost, HopMonotone, ParallelEdgesAgree, IsPath, LightestPath;
  }

  lemma SpurIsCandidate(pb: Problem, accepted: seq<seq<Uuid>>, heap: multiset<Entry>, last: seq<Uuid>, j: nat, c: Entry)
    requires accepted != [] && last == accepted[|accepted| - 1] && j + 2 <= |last|
    requires Candidates(pb, accepted, heap) && SpurFound(pb, accepted, last[..j + 1], c.nodes)
    ensures Candidates(pb, accepted, heap + multiset{c})
    ensures IsPath(pb, c.nodes) && c.nodes !in accepted
  {
    var m := |accepted| - 1;
    assert accepted[..m + 1] == accepted;
    assert IsSpur(pb, accepted, m, j, c.nodes);
    LeavesNew(pb, accepted, last[..j + 1], c.nodes);
  }

  lemma SpurredKeeps(pb: Problem, accepted: seq<seq<Uuid>>, last: seq<Uuid>, j: nat, before: multiset<Entry>,
                     after: multiset<Entry>)
    requires accepted != [] && last == accepted[|accepted| - 1] && j + 2 <= |last|
    requires Kept(pb, accepted, before) && Cover(pb, accepted, before, last, j)
    requires Spurred(pb, accepted, last[..j + 1], before, after)
    ensures Kept(pb, accepted, after) && Cover(pb, accepted, after, last, j + 1)
  {
    hide Cover, Leaves, SpurFound, History, AllPaths, Candidates, LightInv, Orderly, IsPath;
    if after == before && NoneLeaves(pb, accepted, last[..j + 1]) {
      NoSpurCovers(pb, accepted, before, last, j, last[..j + 1]);
    } else {
      var c: Entry :| SpurFound(pb, accepted, last[..j + 1], c.nodes) && Priced(pb, c) && after == before + multiset{c};
      SpurCovers(pb, accepted, before, last, j, c);
      SpurIsCandidate(pb, accepted, before, last, j, c);
      if Orderly(pb) {
        PricedExactly(pb, c);
        PushKeepsLight(pb, accepted, before, c);
      }
    }
  }

  lemma PricedExactly(pb: Problem, c: Entry)
    requires Priced(pb, c) && Orderly(pb)
    ensures c.cost == Cost(pb.W(), c.nodes)
  {
    TotalBounds(pb.g.edges, pb.w, c.nodes, c.cost);
  }

  /** Where just one path leaves, a spur search pushes that path at its weight. */
  lemma SpurredOnly(pb: Problem, accepted: seq<seq<Uuid>>, root: seq<Uuid>, p: seq<Uuid>, before: multiset<Entry>,
                    after: multiset<Entry>)
    requires Orderly(pb) && Spurred(pb, accepted, root, before, after)
    requires forall x :: Leaves(pb, accepted, root, x) <==> x == p
    ensures after == before + multiset{Entry(p, Cost(pb.W(), p))}
  {
    hide Leaves, Priced, Orderly, Cost;
    assert Leaves(pb, accepted, root, p);
    var c: Entry :| SpurFound(pb, accepted, root, c.nodes) && Priced(pb, c) && after == before + multiset{c};
    PricedExactly(pb, c);
  }

  /** Where none leaves it pushes nothing. */
  lemma SpurredNone(pb: Problem, accepted: seq<seq<Uuid>>, root: seq<Uuid>, before: multiset<Entry>,
                    after: multiset<Entry>)
    requires Spurred(pb, accepted, root, before, after) && NoneLeaves(pb, accepted, root)
    ensures after == before
  {
    hide Leaves, Priced;
  }

  lemma PushedLast(pb: Problem, accepted: seq<seq<Uuid>>, last: seq<Uuid>, j: nat, before: multiset<Entry>,
                   after: multiset<Entry>)
    returns (mid: multiset<Entry>)
    requires 0 < j <= |last| && Pushed(pb, accepted, last, j, before, after)
    ensures Pushed(pb, accepted, last, j - 1, before, mid) && Spurred(pb, accepted, last[..j], mid, after)
  {
    hide Spurred;
    mid :| Pushed(pb, accepted, last, j - 1, before, mid) && Spurred(pb, accepted, last[..j], mid, after);
  }

  lemma {:induction false} PushedKeeps(pb: Problem, accepted: seq<seq<Uuid>>, last: seq<Uuid>, j: nat,
                                       before: multiset<Entry>, after: multiset<Entry>)
    requires accepted != [] && last == accepted[|accepted| - 1] && j < |last|
    requires Kept(pb, accepted, before) && Cover(pb, accepted, before, last, 0)
    requires Pushed(pb, accepted, last, j, before, after)
    ensures Kept(pb, accepted, after) && Cover(pb, accepted, after, last, j)
    decreases j
  {
    hide Kept, Cover, Spurred;
    if j == 0 {
    } else {
      var mid :| Pushed(pb, accepted, last, j - 1, before, mid) && Spurred(pb, accepted, last[..j], mid, after);
      PushedKeeps(pb, accepted, last, j - 1, before, mid);
      SpurredKeeps(pb, accepted, last, j - 1, mid, after);
    }
  }

  /** After a round every path that is not accepted has a candidate in the heap that
      leaves no earlier and has no more arcs. */
  lemma RoundCovers(pb: Problem, accepted: seq<seq<Uuid>>, before: multiset<Entry>, after: multiset<Entry>)
    requires Kept(pb, accepted, before) && Round(pb, accepted, before, after)
    requires Cover(pb, accepted, before, accepted[|accepted| - 1], 0)
    ensures Kept(pb, accepted, after)
    ensures Cover(pb, accepted, after, accepted[|accepted| - 1], |accepted[|accepted| - 1]|)
  {
    hide History, Candidates, Orderly, LightInv, Cover, Pushed, IsPath;
    var last := accepted[|accepted| - 1];
    PushedKeeps(pb, accepted, last, |last| - 1, before, after);
    CoverWhole(pb, accepted, after, last);
  }

  /** Moving a cheapest candidate from the heap to the results. */
  lemma AcceptBest(pb: Problem, accepted: seq<seq<Uuid>>, heap: multiset<Entry>, last: seq<Uuid>, c: Entry)
    requires Kept(pb, accepted, heap) && last == accepted[|accepted| - 1]
    requires Cover(pb, accepted, heap, last, |last|)
    requires c in heap && forall x :: x in heap ==> c.cost <= x.cost
    ensures var now, rest := accepted + [c.nodes], heap - multiset{c};
            c.nodes != [] && Kept(pb, now, rest) && Cover(pb, now, rest, c.nodes, 0)
  {
    hide Cover, FromSpur, HopMonotone, PresentIsLightest, ParallelEdgesAgree, Cost, EachLightest, Ascending;
    var now := accepted + [c.nodes];
    PopKeepsCover(pb, accepted, heap, last, c);
    forall x | x in heap - multiset{c} ensures IsPath(pb, x.nodes) && FromSpur(pb, now, x.nodes) {
      SpurStable(pb, accepted, [c.nodes], x.nodes);
    }
    forall i | 1 <= i < |now| ensures FromSpur(pb, now[..i], now[i]) {
      if i == |accepted| {
        assert now[..i] == accepted;
      } else {
        assert now[..i] == accepted[..i];
      }
    }
    if Orderly(pb) {
      PopKeepsLight(pb, accepted, heap, c);
    }
  }

  lemma AcceptCovers(pb: Problem, accepted: seq<seq<Uuid>>, h: multiset<Entry>, r: multiset<Entry>, c: Entry,
                     heap: multiset<Entry>)
    requires accepted != [] && Kept(pb, accepted, h) && Cover(pb, accepted, h, accepted[|accepted| - 1], 0)
    requires Round(pb, accepted, h, r) && Pops(r, c, heap)
    ensures Kept(pb, accepted + [c.nodes], heap) && Cover(pb, accepted + [c.nodes], heap, c.nodes, 0)
  {
    hide Kept, Cover, Round;
    RoundCovers(pb, accepted, h, r);
    AcceptBest(pb, accepted, r, accepted[|accepted| - 1], c);
  }

  lemma {:induction false} TraceCovers(pb: Problem, accepted: seq<seq<Uuid>>, heap: multiset<Entry>)
    requires Trace(pb, accepted, heap)
    ensures accepted != [] && Kept(pb, accepted, heap) && Cover(pb, accepted, heap, accepted[|accepted| - 1], 0)
    decreases |accepted|
  {
    hide Kept, Cover, Round, LightestPath, PresentArcs, Pops;
    if |accepted| <= 1 {
      FirstPath(pb, accepted[0]);
      assert accepted == [accepted[0]];
    } else {
      var n := |accepted| - 1;
      var h, r, c: Entry :|
        Trace(pb, accepted[..n], h) && Round(pb, accepted[..n], h, r) && Pops(r, c, heap) && c.nodes == accepted[n];
      TraceCovers(pb, accepted[..n], h);
      AcceptCovers(pb, accepted[..n], h, r, c, heap);
      assert accepted == accepted[..n] + [c.nodes];
    }
  }

  // ---- What every outcome promises ----

  /** For any non-negative weights every result is a simple path, the first is a
      lightest one through present nodes, each later one has the fewest arcs among
      the deviations it was chosen from, at most `max(1, k)` come back, and when
      fewer than `k` do none is missing. */
  ghost predicate KPathsResult(pb: Problem, k: int, accepted: seq<seq<Uuid>>) {
    && AllPaths(pb, accepted)
    && LightestPath(PresentArcs(pb.g), pb.W(), accepted[0], pb.s, pb.t)
    && History(pb, accepted)
    && (|accepted| == 1 || |accepted| <= k)
    && (|accepted| < k ==> forall p :: IsPath(pb, p) ==> p in accepted)
  }

  lemma {:induction false} TraceStart(pb: Problem, accepted: seq<seq<Uuid>>, heap: multiset<Entry>)
    requires Trace(pb, accepted, heap)
    ensures accepted != [] && LightestPath(PresentArcs(pb.g), pb.W(), accepted[0], pb.s, pb.t)
    decreases |accepted|
  {
    hide LightestPath, Round, Pops, PresentArcs;
    if |accepted| <= 1 {
    } else {
      var n := |accepted| - 1;
      var h, r, c: Entry :|
        Trace(pb, accepted[..n], h) && Round(pb, accepted[..n], h, r) && Pops(r, c, heap) && c.nodes == accepted[n];
      TraceStart(pb, accepted[..n], h);
    }
  }

  lemma OutcomePromises(pb: Problem, k: int, accepted: seq<seq<Uuid>>)
    requires Outcome(pb, k, accepted)
    ensures KPathsResult(pb, k, accepted)
  {
    hide Trace, Cover, LightestPath, PresentArcs, IsPath, History, Orderly, Candidates, LightInv;
    var heap :| Trace(pb, accepted, heap) && (|accepted| < k ==> Round(pb, accepted, heap, multiset{}));
    TraceStart(pb, accepted, heap);
    TraceCovers(pb, accepted, heap);
    if |accepted| < k {
      RoundCovers(pb, accepted, heap, multiset{});
      EmptyHeapComplete(pb, accepted, accepted[|accepted| - 1]);
    }
  }

  /** The results are in order of weight, and none is heavier than a path that was
      not returned before it. */
  ghost predicate LightestFirst(pb: Problem, accepted: seq<seq<Uuid>>) {
    EachLightest(pb, accepted) && Ascending(pb, accepted)
  }

  /** On an orderly problem the search answers with the lightest paths, lightest
      first; so no missing path is lighter than a returned one. */
  lemma MissingNotLighter(pb: Problem, k: int, accepted: seq<seq<Uuid>>)
    requires Orderly(pb) && Outcome(pb, k, accepted)
    ensures LightestFirst(pb, accepted)
    ensures forall i, p: seq<Uuid> :: 0 <= i < |accepted| && IsPath(pb, p) && p !in accepted ==>
              Cost(pb.W(), accepted[i]) <= Cost(pb.W(), p)
  {
    hide Trace, Cover, IsPath, Cost, Orderly, Round;
    var heap :| Trace(pb, accepted, heap) && (|accepted| < k ==> Round(pb, accepted, heap, multiset{}));
    TraceCovers(pb, accepted, heap);
    forall i, p | 0 <= i < |accepted| && IsPath(pb, p) && p !in accepted ensures Cost(pb.W(), accepted[i]) <= Cost(pb.W(), p) {
      assert p !in accepted[..i];
    }
  }

  /** When parallel edges agree and more arcs never make a path lighter, an outcome
      is in order of weight if and only if no way around through absent nodes is
      lighter than a lightest path through present ones. */
  lemma InOrderIff(pb: Problem, k: int, accepted: seq<seq<Uuid>>)
    requires ParallelEdgesAgree(pb.g.edges, pb.w) && HopMonotone(pb) && Outcome(pb, k, accepted)
    ensures LightestFirst(pb, accepted) <==> PresentIsLightest(pb)
  {
    hide Outcome, ParallelEdgesAgree, HopMonotone, IsPath, Cost, PresentIsLightest, EachLightest, Ascending;
    if PresentIsLightest(pb) {
      MissingNotLighter(pb, k, accepted);
    }
    if LightestFirst(pb, accepted) {
      OutcomePromises(pb, k, accepted);
      FirstBeatsAll(pb, accepted);
    }
  }

  lemma FirstBeatsAll(pb: Problem, accepted: seq<seq<Uuid>>)
    requires accepted != [] && LightestPath(PresentArcs(pb.g), pb.W(), accepted[0], pb.s, pb.t) && EachLightest(pb, accepted)
    ensures PresentIsLightest(pb)
  {
    hide Cost, IsPath;
    forall p, q | LightestPath(PresentArcs(pb.g), pb.W(), p, pb.s, pb.t) && IsPath(pb, q)
      ensures Cost(pb.W(), p) <= Cost(pb.W(), q)
    {
      assert q !in accepted[..0];
    }
  }

  // ---- No repeats among the first three ----

  ghost predicate NoneAccepted(accepted: seq<seq<Uuid>>, heap: multiset<Entry>) {
    forall c: Entry :: c in heap ==> c.nodes !in accepted
  }

  lemma {:induction false} PushedFresh(pb: Problem, accepted: seq<seq<Uuid>>, last: seq<Uuid>, j: nat,
                                       before: multiset<Entry>, after: multiset<Entry>)
    requires j <= |last| && NoneAccepted(accepted, before) && Pushed(pb, accepted, last, j, before, after)
    ensures NoneAccepted(accepted, after)
    decreases j
  {
    hide SpurFound, Priced, Leaves;
    if j == 0 {
    } else {
      var mid :| Pushed(pb, accepted, last, j - 1, before, mid) && Spurred(pb, accepted, last[..j], mid, after);
      PushedFresh(pb, accepted, last, j - 1, before, mid);
      if !(after == mid && NoneLeaves(pb, accepted, last[..j])) {
        var c: Entry :| SpurFound(pb, accepted, last[..j], c.nodes) && Priced(pb, c) && after == mid + multiset{c};
        SpurNew(pb, accepted, last[..j], c.nodes);
      }
    }
  }

  /** No two entries of the heap, nor two copies of one, have the same path. */
  ghost predicate EachPathOnce(heap: multiset<Entry>) {
    forall x: Entry, y: Entry :: x in heap && y in heap && x.nodes == y.nodes ==> x == y && heap[x] == 1
  }

  ghost predicate NoneStarts(heap: multiset<Entry>, root: seq<Uuid>) {
    forall c: Entry :: c in heap ==> !(root <= c.nodes)
  }

  /** The first round finds paths that leave the first one at different indices. */
  lemma {:induction false} FirstRoundOnce(pb: Problem, last: seq<Uuid>, j: nat, after: multiset<Entry>)
    requires j < |last| && Pushed(pb, [last], last, j, multiset{}, after)
    ensures EachPathOnce(after) && NoneStarts(after, last[..j + 1])
    decreases j
  {
    hide Spurred, IsPath;
    if j == 0 {
    } else {
      var mid := PushedLast(pb, [last], last, j, multiset{}, after);
      FirstRoundOnce(pb, last, j - 1, mid);
      SpurredOnce(pb, last, j, mid, after);
    }
  }

  lemma SpurredOnce(pb: Problem, last: seq<Uuid>, j: nat, before: multiset<Entry>, after: multiset<Entry>)
    requires j < |last| && EachPathOnce(before) && NoneStarts(before, last[..j])
    requires Spurred(pb, [last], last[..j], before, after)
    ensures EachPathOnce(after) && NoneStarts(after, last[..j + 1])
  {
    hide Priced, Leaves, EachPathOnce, NoneStarts;
    StartsLater(before, last, j);
    if !(after == before && NoneLeaves(pb, [last], last[..j])) {
      var c: Entry :| SpurFound(pb, [last], last[..j], c.nodes) && Priced(pb, c) && after == before + multiset{c};
      SpurLeaves(pb, last, j, c.nodes);
      AddOnce(before, c, last[..j], last[..j + 1]);
    }
  }

  lemma StartsLater(heap: multiset<Entry>, last: seq<Uuid>, j: nat)
    requires j < |last| && NoneStarts(heap, last[..j])
    ensures NoneStarts(heap, last[..j + 1])
  {
    forall c: Entry | c in heap ensures !(last[..j + 1] <= c.nodes) {
      assert last[..j] <= last[..j + 1];
    }
  }

  lemma SpurLeaves(pb: Problem, last: seq<Uuid>, j: nat, c: seq<Uuid>)
    requires j < |last| && Leaves(pb, [last], last[..j], c)
    ensures last[..j] <= c && !(last[..j + 1] <= c)
  {
    assert last[..j + 1] <= [last][0];
    assert Shared([last], last[..j + 1]);
    PrefixSlice(last, c, j + 1);
  }

  lemma AddOnce(heap: multiset<Entry>, c: Entry, root: seq<Uuid>, longer: seq<Uuid>)
    requires EachPathOnce(heap) && NoneStarts(heap, root) && NoneStarts(heap, longer)
    requires root <= c.nodes && !(longer <= c.nodes)
    ensures EachPathOnce(heap + multiset{c}) && NoneStarts(heap + multiset{c}, longer)
  {
  }

  lemma PopOnce(heap: multiset<Entry>, accepted: seq<seq<Uuid>>, c: Entry, rest: multiset<Entry>)
    requires EachPathOnce(heap) && NoneAccepted(accepted, heap) && Pops(heap, c, rest)
    ensures NoneAccepted(accepted + [c.nodes], rest)
  {
    forall x: Entry | x in rest ensures x.nodes != c.nodes {
      assert x in heap;
    }
  }

  /** The last acceptance of a run. */
  lemma TraceLast(pb: Problem, accepted: seq<seq<Uuid>>, heap: multiset<Entry>)
    returns (h: multiset<Entry>, r: multiset<Entry>, c: Entry)
    requires |accepted| >= 2 && Trace(pb, accepted, heap)
    ensures var before := accepted[..|accepted| - 1];
            Trace(pb, before, h) && Round(pb, before, h, r) && Pops(r, c, heap) && accepted == before + [c.nodes]
  {
    hide Round, LightestPath, PresentArcs, Pops;
    var n := |accepted| - 1;
    h, r, c :| Trace(pb, accepted[..n], h) && Round(pb, accepted[..n], h, r) && Pops(r, c, heap) && c.nodes == accepted[n];
  }

  lemma RoundFresh(pb: Problem, accepted: seq<seq<Uuid>>, before: multiset<Entry>, after: multiset<Entry>)
    requires Round(pb, accepted, before, after) && NoneAccepted(accepted, before)
    ensures NoneAccepted(accepted, after)
  {
    hide Pushed;
    var last := accepted[|accepted| - 1];
    PushedFresh(pb, accepted, last, |last| - 1, before, after);
  }

  lemma DistinctSnoc(accepted: seq<seq<Uuid>>, p: seq<Uuid>)
    requires Distinct(accepted) && p !in accepted
    ensures Distinct(accepted + [p])
  {
  }

  /** Up to three results never repeat. */
  lemma ThreeDistinct(pb: Problem, k: int, accepted: seq<seq<Uuid>>)
    requires k <= 3 && Outcome(pb, k, accepted)
    ensures Distinct(accepted)
  {
    hide Trace, Round, NoneAccepted;
    var heap :| Trace(pb, accepted, heap) && (|accepted| < k ==> Round(pb, accepted, heap, multiset{}));
    TraceStart(pb, accepted, heap);
    if |accepted| == 1 {
    } else if |accepted| == 2 {
      SecondFresh(pb, accepted, heap);
    } else {
      ThirdFresh(pb, accepted, heap);
    }
  }

  lemma SecondFresh(pb: Problem, accepted: seq<seq<Uuid>>, heap: multiset<Entry>)
    requires |accepted| == 2 && Trace(pb, accepted, heap)
    ensures Distinct(accepted) && NoneAccepted(accepted, heap)
  {
    hide Trace, Round, EachPathOnce, Pops, Distinct;
    var h, r, c := TraceLast(pb, accepted, heap);
    FirstHeap(pb, accepted[..1], h, r);
    PopOnce(r, accepted[..1], c, heap);
    PopFresh(accepted[..1], r, c, heap);
  }

  lemma FirstHeap(pb: Problem, accepted: seq<seq<Uuid>>, h: multiset<Entry>, r: multiset<Entry>)
    requires |accepted| == 1 && Trace(pb, accepted, h) && Round(pb, accepted, h, r)
    ensures EachPathOnce(r) && NoneAccepted(accepted, r) && Distinct(accepted)
  {
    hide Pushed, LightestPath, EachPathOnce;
    var last := accepted[0];
    assert accepted == [last];
    FirstRoundOnce(pb, last, |last| - 1, r);
    PushedFresh(pb, accepted, last, |last| - 1, h, r);
  }

  lemma PopFresh(accepted: seq<seq<Uuid>>, heap: multiset<Entry>, c: Entry, rest: multiset<Entry>)
    requires Distinct(accepted) && NoneAccepted(accepted, heap) && Pops(heap, c, rest)
    ensures Distinct(accepted + [c.nodes])
  {
    DistinctSnoc(accepted, c.nodes);
  }

  lemma ThirdFresh(pb: Problem, accepted: seq<seq<Uuid>>, heap: multiset<Entry>)
    requires |accepted| == 3 && Trace(pb, accepted, heap)
    ensures Distinct(accepted)
  {
    hide Trace, Round, Pops, Distinct, NoneAccepted;
    var h, r, c := TraceLast(pb, accepted, heap);
    SecondFresh(pb, accepted[..2], h);
    RoundFresh(pb, accepted[..2], h, r);
    PopFresh(accepted[..2], r, c, heap);
  }

  // ---- Every request has an outcome ----

  lemma {:induction false} LeastLeaving(pb: Problem, accepted: seq<seq<Uuid>>, root: seq<Uuid>, p: seq<Uuid>)
    returns (c: seq<Uuid>)
    requires Leaves(pb, accepted, root, p)
    ensures SpurFound(pb, accepted, root, c)
    decreases |p|
  {
    hide Leaves;
    if q :| Leaves(pb, accepted, root, q) && |q| < |p| {
      c := LeastLeaving(pb, accepted, root, q);
    } else {
      c := p;
    }
  }

  lemma SpurredExists(pb: Problem, accepted: seq<seq<Uuid>>, root: seq<Uuid>, before: multiset<Entry>)
    returns (after: multiset<Entry>)
    ensures Spurred(pb, accepted, root, before, after)
  {
    if NoneLeaves(pb, accepted, root) {
      after := before;
    } else {
      var p :| Leaves(pb, accepted, root, p);
      var c := LeastLeaving(pb, accepted, root, p);
      CostIsTotal(pb.g.edges, pb.w, c);
      var e := Entry(c, Cost(pb.W(), c));
      assert Priced(pb, e);
      after := before + multiset{e};
    }
  }

  lemma {:induction false} PushedExists(pb: Problem, accepted: seq<seq<Uuid>>, last: seq<Uuid>, j: nat,
                                        before: multiset<Entry>)
    returns (after: multiset<Entry>)
    requires j <= |last|
    ensures Pushed(pb, accepted, last, j, before, after)
    decreases j
  {
    hide Spurred;
    if j == 0 {
      after := before;
    } else {
      var mid := PushedExists(pb, accepted, last, j - 1, before);
      after := SpurredExists(pb, accepted, last[..j], mid);
    }
  }

  lemma {:induction false} RunExists(pb: Problem, n: nat, first: seq<Uuid>)
    returns (accepted: seq<seq<Uuid>>, heap: multiset<Entry>)
    requires n >= 1 && LightestPath(PresentArcs(pb.g), pb.W(), first, pb.s, pb.t)
    ensures Trace(pb, accepted, heap) && 1 <= |accepted| <= n
    ensures |accepted| < n ==> Round(pb, accepted, heap, multiset{})
    decreases n
  {
    hide LightestPath, PresentArcs, Pushed;
    if n == 1 {
      accepted, heap := [first], multiset{};
    } else {
      accepted, heap := RunExists(pb, n - 1, first);
      if |accepted| == n - 1 {
        accepted, heap := RunFurther(pb, accepted, heap);
      }
    }
  }

  lemma TraceSnoc(pb: Problem, accepted: seq<seq<Uuid>>, h: multiset<Entry>, r: multiset<Entry>, c: Entry,
                  heap: multiset<Entry>)
    requires accepted != [] && Trace(pb, accepted, h) && Round(pb, accepted, h, r) && Pops(r, c, heap)
    ensures Trace(pb, accepted + [c.nodes], heap)
  {
    hide Round, Pops, LightestPath, PresentArcs;
    var now := accepted + [c.nodes];
    assert now[..|now| - 1] == accepted && c.nodes == now[|now| - 1];
  }

  lemma RunFurther(pb: Problem, accepted: seq<seq<Uuid>>, heap: multiset<Entry>)
    returns (now: seq<seq<Uuid>>, rest: multiset<Entry>)
    requires Trace(pb, accepted, heap) && accepted != []
    ensures Trace(pb, now, rest)
    ensures |now| == |accepted| + 1 || (now == accepted && Round(pb, now, rest, multiset{}))
  {
    hide Trace, Pushed, IsPath;
    var last := accepted[|accepted| - 1];
    assert last != [] by {
      TraceCovers(pb, accepted, heap);
      LastIsPath(pb, accepted);
    }
    var r := PushedExists(pb, accepted, last, |last| - 1, heap);
    if r == multiset{} {
      now, rest := accepted, heap;
    } else {
      var c := CheapestExists(r);
      now, rest := accepted + [c.nodes], r - multiset{c};
      TraceSnoc(pb, accepted, heap, r, c, rest);
    }
  }

  lemma LastIsPath(pb: Problem, accepted: seq<seq<Uuid>>)
    requires AllPaths(pb, accepted)
    ensures accepted != [] && IsPath(pb, accepted[|accepted| - 1]) && accepted[|accepted| - 1] != []
  {
  }

  /** Whenever there is a first path there is an outcome. */
  lemma OutcomeExists(pb: Problem, k: int, first: seq<Uuid>) returns (accepted: seq<seq<Uuid>>)
    requires LightestPath(PresentArcs(pb.g), pb.W(), first, pb.s, pb.t)
    ensures Outcome(pb, k, accepted)
  {
    hide Trace, LightestPath, Round;
    var n: nat := if k >= 1 then k else 1;
    var found, heap := RunExists(pb, n, first);
    accepted := found;
    assert Trace(pb, accepted, heap) && (|accepted| < k ==> Round(pb, accepted, heap, multiset{}));
  }
}
