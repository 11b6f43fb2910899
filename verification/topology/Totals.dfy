/** The weight that the analyzer reports for a path: one stored edge per step, an
    arbitrary one where several edges join the same two services. */
module Totals {
  import opened Domain
  import opened Sequences
  import opened Walks
  import opened Graph
  import opened WeightedSearch

  /** Some stored edge along `a` weighs `x`; a missing edge weighs one. */
  ghost predicate EdgeWeight(edges: map<Uuid, CallEdge>, w: WeightFunc, a: Arc, x: real) {
    if a in EdgeArcs(edges) then exists id :: id in edges && ArcOf(edges[id]) == a && w(edges[id]) == x
    else x == 1.0
  }

  /** `xs` are the weights of one edge for each step of `p`. */
  ghost predicate Pays(edges: map<Uuid, CallEdge>, w: WeightFunc, p: seq<Uuid>, xs: seq<real>) {
    && |p| == |xs| + 1
    && forall i :: 0 <= i < |xs| ==> EdgeWeight(edges, w, Arc(p[i], p[i + 1]), xs[i])
  }

  /** `total` is the sum for some choice of one edge for each step of `p`. */
  ghost predicate IsTotal(edges: map<Uuid, CallEdge>, w: WeightFunc, p: seq<Uuid>, total: real) {
    exists xs :: Pays(edges, w, p, xs) && Sum(xs) == total
  }

  /** Edges that join the same two services weigh the same. */
  ghost predicate ParallelEdgesAgree(edges: map<Uuid, CallEdge>, w: WeightFunc) {
    forall i, j :: i in edges && j in edges && ArcOf(edges[i]) == ArcOf(edges[j]) ==> w(edges[i]) == w(edges[j])
  }

  /** So they do without parallel edges, and under the default weights always. */
  lemma AgreementCases(g: Topology, w: WeightFunc)
    ensures NoParallelEdges(g) ==> ParallelEdgesAgree(g.edges, w)
    ensures ParallelEdgesAgree(g.edges, OrUnit(None))
  {
  }

  lemma EdgeWeightBounds(edges: map<Uuid, CallEdge>, w: WeightFunc, a: Arc, x: real)
    requires EdgeWeight(edges, w, a, x)
    ensures WeightOf(ArcWeights(edges, w), a) <= x
    ensures ParallelEdgesAgree(edges, w) ==> WeightOf(ArcWeights(edges, w), a) == x
  {
  }

  lemma {:induction false} PaysBounds(edges: map<Uuid, CallEdge>, w: WeightFunc, p: seq<Uuid>, xs: seq<real>)
    requires Pays(edges, w, p, xs)
    ensures Cost(ArcWeights(edges, w), p) <= Sum(xs)
    ensures ParallelEdgesAgree(edges, w) ==> Cost(ArcWeights(edges, w), p) == Sum(xs)
    decreases |xs|
  {
    hide EdgeWeight, ArcWeights, WeightOf, ParallelEdgesAgree;
    if xs == [] {
    } else {
      var n := |xs| - 1;
      PaysBounds(edges, w, p[..n + 1], xs[..n]);
      EdgeWeightBounds(edges, w, Arc(p[n], p[n + 1]), xs[n]);
      CostExtend(ArcWeights(edges, w), p[..n + 1], p[n + 1]);
      assert p[..n + 1] + [p[n + 1]] == p;
    }
  }

  /** A total is never less than the weight of the path, and equal to it when
      parallel edges agree. */
  lemma TotalBounds(edges: map<Uuid, CallEdge>, w: WeightFunc, p: seq<Uuid>, total: real)
    requires IsTotal(edges, w, p, total)
    ensures Cost(ArcWeights(edges, w), p) <= total
    ensures ParallelEdgesAgree(edges, w) ==> total == Cost(ArcWeights(edges, w), p)
  {
    var xs :| Pays(edges, w, p, xs) && Sum(xs) == total;
    PaysBounds(edges, w, p, xs);
  }

  lemma TotalStart(edges: map<Uuid, CallEdge>, w: WeightFunc, v: Uuid)
    ensures IsTotal(edges, w, [v], 0.0)
  {
    assert Pays(edges, w, [v], []) && Sum([]) == 0.0;
  }

  lemma TotalExtend(edges: map<Uuid, CallEdge>, w: WeightFunc, p: seq<Uuid>, total: real, v: Uuid, x: real)
    requires IsTotal(edges, w, p, total) && p != [] && EdgeWeight(edges, w, Arc(p[|p| - 1], v), x)
    ensures IsTotal(edges, w, p + [v], total + x)
  {
    hide EdgeWeight;
    var xs :| Pays(edges, w, p, xs) && Sum(xs) == total;
    var ys := xs + [x];
    assert ys[..|xs|] == xs;
    forall i | 0 <= i < |ys| ensures EdgeWeight(edges, w, Arc((p + [v])[i], (p + [v])[i + 1]), ys[i]) {
    }
    assert Pays(edges, w, p + [v], ys) && Sum(ys) == total + x;
  }

  lemma LightestIsStored(edges: map<Uuid, CallEdge>, w: WeightFunc, a: Arc)
    ensures EdgeWeight(edges, w, a, WeightOf(ArcWeights(edges, w), a))
  {
  }

  /** The bound is tight: choosing the lightest edges gives the weight of the path. */
  lemma {:induction false} CostIsTotal(edges: map<Uuid, CallEdge>, w: WeightFunc, p: seq<Uuid>)
    requires p != []
    ensures IsTotal(edges, w, p, Cost(ArcWeights(edges, w), p))
    decreases |p|
  {
    hide IsTotal, EdgeWeight, ArcWeights, WeightOf;
    if |p| == 1 {
      TotalStart(edges, w, p[0]);
      assert p == [p[0]];
    } else {
      var n := |p| - 1;
      CostIsTotal(edges, w, p[..n]);
      var W := ArcWeights(edges, w);
      LightestIsStored(edges, w, Arc(p[n - 1], p[n]));
      TotalExtend(edges, w, p[..n], Cost(W, p[..n]), p[n], WeightOf(W, Arc(p[n - 1], p[n])));
      assert p[..n] + [p[n]] == p;
    }
  }
}
