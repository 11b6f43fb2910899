/** Graphs rebuilt from records without any irregularity. */
module Rebuilds {
  import opened Domain
  import opened Walks
  import opened Graph
  import opened WeightedSearch
  import opened Totals

  function MakeEdge(id: nat, source: Uuid, target: Uuid, latency: real): CallEdge {
    CallEdge(Uuid(id), source, target, latency, 0.0)
  }

  function MakeNode(id: nat): ServiceNode {
    ServiceNode(Uuid(id), Healthy, 0.0, Normal, 0.0)
  }

  /** Distinct edge ids, and at most one record for each pair of services. */
  ghost predicate Plain(es: seq<CallEdge>) {
    && UniqueEdgeIds(es)
    && forall i, j :: 0 <= i < j < |es| ==> ArcOf(es[i]) != ArcOf(es[j])
  }

  /** Such records with both ends of every edge among the nodes. */
  ghost predicate Clean(ns: seq<ServiceNode>, es: seq<CallEdge>) {
    && Plain(es)
    && forall i :: 0 <= i < |es| ==> es[i].source in NodeTable(ns) && es[i].target in NodeTable(ns)
  }

  ghost function RecordArcs(es: seq<CallEdge>): set<Arc> {
    set i | 0 <= i < |es| :: ArcOf(es[i])
  }

  /** A rebuild from such records keeps every one of them. */
  lemma PlainGraph(ns: seq<ServiceNode>, es: seq<CallEdge>)
    requires Plain(es)
    ensures var g := Rebuilt(ns, es);
            && Transposed(g) && Keyed(g) && NoParallelEdges(g) && EdgeArcs(g.edges) == RecordArcs(es)
            && (forall i :: 0 <= i < |es| ==> es[i].id in g.edges && g.edges[es[i].id] == es[i])
            && (forall id :: id in g.edges ==> g.edges[id] in es)
  {
    RebuiltTransposed(ns, es);
    RebuiltKeyed(ns, es);
    EdgeTableEntries(es);
    hide EdgeTable, NodeTable;
    var edges := EdgeTable(es);
    forall i | 0 <= i < |es| ensures es[i].id in edges && edges[es[i].id] == es[i] {
      assert es[i] in es;
    }
    forall id | id in edges ensures exists i :: 0 <= i < |es| && es[i] == edges[id] {
      assert edges[id] in es;
    }
    assert EdgeArcs(edges) == RecordArcs(es);
  }

  lemma CleanGraph(ns: seq<ServiceNode>, es: seq<CallEdge>)
    requires Clean(ns, es)
    ensures var g := Rebuilt(ns, es);
            && Transposed(g) && Keyed(g) && NoParallelEdges(g) && SourcesPresent(g)
            && EdgeArcs(g.edges) == RecordArcs(es) && PresentArcs(g) == RecordArcs(es)
            && forall i :: 0 <= i < |es| ==> es[i].id in g.edges && g.edges[es[i].id] == es[i]
  {
    hide EdgeTable, NodeTable, Transposed, Keyed, NoParallelEdges, EdgeArcs;
    PlainGraph(ns, es);
  }

  lemma PlainWeight(ns: seq<ServiceNode>, es: seq<CallEdge>, w: WeightFunc, i: nat)
    requires Plain(es) && i < |es|
    ensures WeightOf(ArcWeights(Rebuilt(ns, es).edges, w), ArcOf(es[i])) == w(es[i])
  {
    hide Plain, ArcWeights, WeightOf;
    PlainGraph(ns, es);
    AgreementCases(Rebuilt(ns, es), w);
    var g := Rebuilt(ns, es);
    assert ArcOf(g.edges[es[i].id]) == ArcOf(es[i]);
    assert ArcOf(es[i]) in EdgeArcs(g.edges);
    EdgeWeightBounds(g.edges, w, ArcOf(es[i]), w(es[i]));
  }

  /** A detour over `a` read before the direct edge. */
  function TriangleRecords(s: Uuid, a: Uuid, t: Uuid, x: real, y: real, z: real): seq<CallEdge> {
    [CallEdge(Uuid(0), s, a, x, 0.0), CallEdge(Uuid(1), s, t, y, 0.0), CallEdge(Uuid(2), a, t, z, 0.0)]
  }
}
