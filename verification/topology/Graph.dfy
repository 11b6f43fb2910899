/** The in-memory graph: node and edge tables plus the forward and backward
    adjacency indexes, all rebuilt together. */
module Graph {
  import opened Domain
  import opened Walks

  type Adjacency = map<Uuid, seq<Uuid>>

  /** A snapshot of the graph, on which specifications are stated. */
  datatype Topology = Topology(
    nodes: map<Uuid, ServiceNode>,
    edges: map<Uuid, CallEdge>,
    adj: Adjacency,
    rev: Adjacency)

  function Neighbors(adj: Adjacency, u: Uuid): seq<Uuid> {
    if u in adj then adj[u] else []
  }

  ghost function Arcs(adj: Adjacency): set<Arc> {
    set u, v | u in adj && v in adj[u] :: Arc(u, v)
  }

  ghost function EdgeArcs(edges: map<Uuid, CallEdge>): set<Arc> {
    set id | id in edges :: Arc(edges[id].source, edges[id].target)
  }

  // ---- What Rebuild computes ----

  ghost function NodeTable(ns: seq<ServiceNode>): map<Uuid, ServiceNode> {
    if ns == [] then map[] else NodeTable(ns[..|ns| - 1])[ns[|ns| - 1].id := ns[|ns| - 1]]
  }

  ghost function EdgeTable(es: seq<CallEdge>): map<Uuid, CallEdge> {
    if es == [] then map[] else EdgeTable(es[..|es| - 1])[es[|es| - 1].id := es[|es| - 1]]
  }

  function AppendTo(adj: Adjacency, u: Uuid, v: Uuid): Adjacency {
    adj[u := Neighbors(adj, u) + [v]]
  }

  ghost function Forward(es: seq<CallEdge>): Adjacency {
    if es == [] then map[]
    else AppendTo(Forward(es[..|es| - 1]), es[|es| - 1].source, es[|es| - 1].target)
  }

  ghost function Backward(es: seq<CallEdge>): Adjacency {
    if es == [] then map[]
    else AppendTo(Backward(es[..|es| - 1]), es[|es| - 1].target, es[|es| - 1].source)
  }

  ghost function Rebuilt(ns: seq<ServiceNode>, es: seq<CallEdge>): Topology {
    Topology(NodeTable(ns), EdgeTable(es), Forward(es), Backward(es))
  }

  // ---- Properties of a snapshot ----

  /** Both indexes record every pair of identifiers equally often. */
  ghost predicate Transposed(g: Topology) {
    forall u, v :: multiset(Neighbors(g.adj, u))[v] == multiset(Neighbors(g.rev, v))[u]
  }

  /** Tables are keyed by the identifiers of their entries, and every stored
      edge is in the forward index. */
  ghost predicate Keyed(g: Topology) {
    && (forall id :: id in g.nodes ==> g.nodes[id].id == id)
    && (forall id :: id in g.edges ==> g.edges[id].id == id)
    && EdgeArcs(g.edges) <= Arcs(g.adj)
  }

  /** The edge table and the adjacency index describe the same arcs. */
  ghost predicate Agreeing(g: Topology) {
    Arcs(g.adj) == EdgeArcs(g.edges)
  }

  /** Every stored edge starts at a node of the graph. */
  ghost predicate SourcesPresent(g: Topology) {
    StartsIn(EdgeArcs(g.edges), g.nodes.Keys)
  }

  /** So does every entry of the forward index. */
  ghost predicate IndexedSourcesPresent(g: Topology) {
    StartsIn(Arcs(g.adj), g.nodes.Keys)
  }

  /** At most one edge joins any two services. */
  ghost predicate NoParallelEdges(g: Topology) {
    forall i, j :: (i in g.edges && j in g.edges && g.edges[i].source == g.edges[j].source
                    && g.edges[i].target == g.edges[j].target) ==> i == j
  }

  ghost predicate UniqueEdgeIds(es: seq<CallEdge>) {
    forall i, j :: 0 <= i < j < |es| ==> es[i].id != es[j].id
  }

  // ---- Facts about Rebuild ----

  lemma ArcsOf(adj: Adjacency, u: Uuid, v: Uuid)
    ensures Arc(u, v) in Arcs(adj) <==> v in Neighbors(adj, u)
  {
  }

  lemma NeighborArcs(adj: Adjacency, u: Uuid)
    ensures forall v :: v in Neighbors(adj, u) <==> Arc(u, v) in Arcs(adj)
  {
  }

  /** How many records join `u` to `v`. */
  ghost function RecordCount(es: seq<CallEdge>, u: Uuid, v: Uuid): nat {
    if es == [] then 0
    else
      var e := es[|es| - 1];
      RecordCount(es[..|es| - 1], u, v) + if e.source == u && e.target == v then 1 else 0
  }

  /** Both indexes list every pair once for each record that joins it. */
  lemma {:induction false} IndexesCountRecords(es: seq<CallEdge>, u: Uuid, v: Uuid)
    ensures multiset(Neighbors(Forward(es), u))[v] == RecordCount(es, u, v)
    ensures multiset(Neighbors(Backward(es), v))[u] == RecordCount(es, u, v)
    decreases |es|
  {
    if es == [] {
    } else {
      IndexesCountRecords(es[..|es| - 1], u, v);
    }
  }

  /** The indexes are exact transposes of each other after every rebuild,
      with multiplicities. */
  lemma RebuiltTransposed(ns: seq<ServiceNode>, es: seq<CallEdge>)
    ensures Transposed(Rebuilt(ns, es))
  {
    forall u, v ensures multiset(Neighbors(Forward(es), u))[v] == multiset(Neighbors(Backward(es), v))[u] {
      IndexesCountRecords(es, u, v);
    }
  }

  /** The reverse index holds exactly the reversed arcs. */
  lemma TransposedArcs(g: Topology)
    requires Transposed(g)
    ensures Arcs(g.rev) == Reverse(Arcs(g.adj))
  {
    forall u, v ensures Arc(v, u) in Arcs(g.rev) <==> Arc(v, u) in Reverse(Arcs(g.adj)) {
      assert multiset(Neighbors(g.adj, u))[v] == multiset(Neighbors(g.rev, v))[u];
      ArcsOf(g.adj, u, v);
      ArcsOf(g.rev, v, u);
      assert Arc(v, u) in Reverse(Arcs(g.adj)) <==> Arc(u, v) in Arcs(g.adj);
    }
    forall a ensures a in Arcs(g.rev) <==> a in Reverse(Arcs(g.adj)) {
      assert a == Arc(a.src, a.dst);
    }
  }

  lemma {:induction false} ForwardArcs(es: seq<CallEdge>)
    ensures Arcs(Forward(es)) == set e | e in es :: Arc(e.source, e.target)
    decreases |es|
  {
    var want := set e | e in es :: Arc(e.source, e.target);
    if es == [] {
    } else {
      var rest, e := es[..|es| - 1], es[|es| - 1];
      ForwardArcs(rest);
      forall u, v ensures Arc(u, v) in Arcs(Forward(es)) <==> Arc(u, v) in want {
        ArcsOf(Forward(es), u, v);
        ArcsOf(Forward(rest), u, v);
        assert es == rest + [e];
      }
      forall a ensures a in Arcs(Forward(es)) <==> a in want {
        assert a == Arc(a.src, a.dst);
      }
    }
  }

  lemma {:induction false} EdgeTableEntries(es: seq<CallEdge>)
    ensures forall id :: id in EdgeTable(es) ==> EdgeTable(es)[id] in es && EdgeTable(es)[id].id == id
    ensures UniqueEdgeIds(es) ==> forall e :: e in es ==> e.id in EdgeTable(es) && EdgeTable(es)[e.id] == e
    decreases |es|
  {
    if es == [] {
    } else {
      var rest, e := es[..|es| - 1], es[|es| - 1];
      EdgeTableEntries(rest);
      assert es == rest + [e];
      if UniqueEdgeIds(es) {
        forall x | x in es ensures x.id in EdgeTable(es) && EdgeTable(es)[x.id] == x {
          var i :| 0 <= i < |es| && es[i] == x;
          if i < |es| - 1 {
            assert x in rest;
          }
        }
      }
    }
  }

  lemma {:induction false} NodeTableKeys(ns: seq<ServiceNode>)
    ensures forall id :: id in NodeTable(ns) ==> NodeTable(ns)[id].id == id
    ensures forall n :: n in ns ==> n.id in NodeTable(ns)
    decreases |ns|
  {
    if ns == [] {
    } else {
      NodeTableKeys(ns[..|ns| - 1]);
      assert ns == ns[..|ns| - 1] + [ns[|ns| - 1]];
    }
  }

  /** `n` is the last record with its id. */
  ghost predicate IsLastNode(ns: seq<ServiceNode>, n: ServiceNode) {
    exists i :: 0 <= i < |ns| && ns[i] == n && forall j :: i < j < |ns| ==> ns[j].id != n.id
  }

  ghost predicate IsLastEdge(es: seq<CallEdge>, e: CallEdge) {
    exists i :: 0 <= i < |es| && es[i] == e && forall j :: i < j < |es| ==> es[j].id != e.id
  }

  lemma LastNodeNext(front: seq<ServiceNode>, last: ServiceNode, n: ServiceNode)
    ensures IsLastNode(front + [last], n) <==> n == last || (n.id != last.id && IsLastNode(front, n))
  {
    var all := front + [last];
    assert all[|front|] == last;
    assert forall i :: 0 <= i < |front| ==> all[i] == front[i];
  }

  /** The node table holds the last record of every id and nothing else. */
  lemma {:induction false} NodeTableLast(ns: seq<ServiceNode>, n: ServiceNode)
    ensures n.id in NodeTable(ns) && NodeTable(ns)[n.id] == n <==> IsLastNode(ns, n)
    decreases |ns|
  {
    if ns == [] {
    } else {
      var front, last := ns[..|ns| - 1], ns[|ns| - 1];
      NodeTableLast(front, n);
      LastNodeNext(front, last, n);
      assert ns == front + [last];
    }
  }

  lemma LastEdgeNext(front: seq<CallEdge>, last: CallEdge, e: CallEdge)
    ensures IsLastEdge(front + [last], e) <==> e == last || (e.id != last.id && IsLastEdge(front, e))
  {
    var all := front + [last];
    assert all[|front|] == last;
    assert forall i :: 0 <= i < |front| ==> all[i] == front[i];
  }

  /** So does the edge table. */
  lemma {:induction false} EdgeTableLast(es: seq<CallEdge>, e: CallEdge)
    ensures e.id in EdgeTable(es) && EdgeTable(es)[e.id] == e <==> IsLastEdge(es, e)
    decreases |es|
  {
    if es == [] {
    } else {
      var front, last := es[..|es| - 1], es[|es| - 1];
      EdgeTableLast(front, e);
      LastEdgeNext(front, last, e);
      assert es == front + [last];
    }
  }

  lemma ForwardNext(es: seq<CallEdge>, e: CallEdge, u: Uuid)
    ensures Neighbors(Forward(es + [e]), u) == Neighbors(Forward(es), u) + if e.source == u then [e.target] else []
  {
    assert (es + [e])[..|es|] == es;
  }

  lemma ForwardNone(u: Uuid)
    ensures Neighbors(Forward([]), u) == []
  {
  }

  lemma ForwardOne(e: CallEdge, u: Uuid)
    ensures Neighbors(Forward([e]), u) == if e.source == u then [e.target] else []
  {
    ForwardNext([], e, u);
    assert [] + [e] == [e];
  }

  /** The index lists the targets of the records of a service in their order. */
  lemma {:induction false} ForwardInOrder(es: seq<CallEdge>, fs: seq<CallEdge>, u: Uuid)
    ensures Neighbors(Forward(es + fs), u) == Neighbors(Forward(es), u) + Neighbors(Forward(fs), u)
    decreases |fs|
  {
    hide Forward, Neighbors;
    if fs == [] {
      assert es + fs == es;
      ForwardNone(u);
    } else {
      var front, e := fs[..|fs| - 1], fs[|fs| - 1];
      ForwardInOrder(es, front, u);
      ForwardNext(es + front, e, u);
      ForwardNext(front, e, u);
      assert fs == front + [e];
      assert es + fs == (es + front) + [e];
    }
  }

  lemma BackwardNext(es: seq<CallEdge>, e: CallEdge, u: Uuid)
    ensures Neighbors(Backward(es + [e]), u) == Neighbors(Backward(es), u) + if e.target == u then [e.source] else []
  {
    assert (es + [e])[..|es|] == es;
  }

  lemma BackwardNone(u: Uuid)
    ensures Neighbors(Backward([]), u) == []
  {
  }

  lemma BackwardOne(e: CallEdge, u: Uuid)
    ensures Neighbors(Backward([e]), u) == if e.target == u then [e.source] else []
  {
    BackwardNext([], e, u);
    assert [] + [e] == [e];
  }

  /** The reverse index lists their sources. */
  lemma {:induction false} BackwardInOrder(es: seq<CallEdge>, fs: seq<CallEdge>, u: Uuid)
    ensures Neighbors(Backward(es + fs), u) == Neighbors(Backward(es), u) + Neighbors(Backward(fs), u)
    decreases |fs|
  {
    hide Backward, Neighbors;
    if fs == [] {
      assert es + fs == es;
      BackwardNone(u);
    } else {
      var front, e := fs[..|fs| - 1], fs[|fs| - 1];
      BackwardInOrder(es, front, u);
      BackwardNext(es + front, e, u);
      BackwardNext(front, e, u);
      assert fs == front + [e];
      assert es + fs == (es + front) + [e];
    }
  }

  lemma {:induction false} EdgeTableKeys(es: seq<CallEdge>)
    ensures forall e :: e in es ==> e.id in EdgeTable(es)
    decreases |es|
  {
    if es == [] {
    } else {
      EdgeTableKeys(es[..|es| - 1]);
      assert es == es[..|es| - 1] + [es[|es| - 1]];
    }
  }

  /** The tables are those of the records: every id has an entry, the last of its records. */
  ghost predicate TablesFit(g: Topology, ns: seq<ServiceNode>, es: seq<CallEdge>) {
    && (forall n :: n in ns ==> n.id in g.nodes)
    && (forall id :: id in g.nodes ==> g.nodes[id].id == id && IsLastNode(ns, g.nodes[id]))
    && (forall e :: e in es ==> e.id in g.edges)
    && (forall id :: id in g.edges ==> g.edges[id].id == id && IsLastEdge(es, g.edges[id]))
  }

  lemma RebuiltTables(ns: seq<ServiceNode>, es: seq<CallEdge>)
    ensures TablesFit(Rebuilt(ns, es), ns, es)
  {
    hide IsLastNode, IsLastEdge, NodeTable, EdgeTable;
    NodeTableKeys(ns);
    EdgeTableKeys(es);
    EdgeTableEntries(es);
    forall id | id in NodeTable(ns) ensures IsLastNode(ns, NodeTable(ns)[id]) {
      NodeTableLast(ns, NodeTable(ns)[id]);
    }
    forall id | id in EdgeTable(es) ensures IsLastEdge(es, EdgeTable(es)[id]) {
      EdgeTableLast(es, EdgeTable(es)[id]);
    }
  }

  lemma RebuiltKeyed(ns: seq<ServiceNode>, es: seq<CallEdge>)
    ensures Keyed(Rebuilt(ns, es))
  {
    NodeTableKeys(ns);
    EdgeTableEntries(es);
    ForwardArcs(es);
  }

  /** When no two records share an edge id, the edge table loses nothing, so
      scanning it and following the adjacency index see the same arcs. */
  lemma UniqueIdsAgree(ns: seq<ServiceNode>, es: seq<CallEdge>)
    requires UniqueEdgeIds(es)
    ensures Agreeing(Rebuilt(ns, es))
  {
    EdgeTableEntries(es);
    ForwardArcs(es);
    var table := EdgeTable(es);
    forall e | e in es ensures Arc(e.source, e.target) in EdgeArcs(table) {
      assert e.id in table && table[e.id] == e;
    }
  }

  class InMemoryGraph {
    var nodes: map<Uuid, ServiceNode>
    var edges: map<Uuid, CallEdge>
    var adjList: map<Uuid, seq<Uuid>>
    var reverseAdj: map<Uuid, seq<Uuid>>
    var version: int

    ghost function View(): Topology
      reads this
    {
      Topology(nodes, edges, adjList, reverseAdj)
    }

    ghost predicate Valid()
      reads this
    {
      Transposed(View()) && Keyed(View())
    }

    constructor ()
      ensures Valid()
      ensures View() == Rebuilt([], []) && version == 0
    {
      nodes, edges, adjList, reverseAdj, version := map[], map[], map[], map[], 0;
    }

    /** Replaces the whole graph. */
    method Rebuild(ns: seq<ServiceNode>, es: seq<CallEdge>)
      modifies this
      ensures View() == Rebuilt(ns, es)
      ensures TablesFit(View(), ns, es)
      ensures Valid()
      ensures version == old(version) + 1
    {
      nodes, edges, adjList, reverseAdj := map[], map[], map[], map[];
      for i := 0 to |ns|
        invariant nodes == NodeTable(ns[..i])
        invariant edges == map[] && adjList == map[] && reverseAdj == map[]
        invariant version == old(version)
      {
        assert ns[..i + 1][..i] == ns[..i];
        nodes := nodes[ns[i].id := ns[i]];
      }
      assert ns[..|ns|] == ns;
      for i := 0 to |es|
        invariant nodes == NodeTable(ns)
        invariant edges == EdgeTable(es[..i])
        invariant adjList == Forward(es[..i]) && reverseAdj == Backward(es[..i])
        invariant version == old(version)
      {
        assert es[..i + 1][..i] == es[..i];
        var e := es[i];
        edges := edges[e.id := e];
        adjList := adjList[e.source := Neighbors(adjList, e.source) + [e.target]];
        reverseAdj := reverseAdj[e.target := Neighbors(reverseAdj, e.target) + [e.source]];
      }
      assert es[..|es|] == es;
      version := version + 1;
      RebuiltTransposed(ns, es);
      RebuiltKeyed(ns, es);
      RebuiltTables(ns, es);
    }

    function GetNode(id: Uuid): (n: Option<ServiceNode>)
      reads this
      ensures n.Some? <==> id in View().nodes
      ensures n.Some? ==> n.value == View().nodes[id]
    {
      if id in nodes then Some(nodes[id]) else None
    }

    function GetDownstreamIDs(id: Uuid): seq<Uuid>
      reads this
    {
      Neighbors(adjList, id)
    }

    function GetUpstreamIDs(id: Uuid): seq<Uuid>
      reads this
    {
      Neighbors(reverseAdj, id)
    }

    /** All nodes, in an order that the caller cannot predict. */
    method GetAllNodes() returns (all: seq<ServiceNode>)
      requires Valid()
      ensures forall n :: n in all <==> n.id in nodes && nodes[n.id] == n
      ensures forall i, j :: 0 <= i < j < |all| ==> all[i].id != all[j].id
    {
      all := [];
      var rest := nodes.Keys;
      while rest != {}
        invariant rest <= nodes.Keys
        invariant forall n :: n in all <==> n.id in nodes && nodes[n.id] == n && n.id !in rest
        invariant forall i, j :: 0 <= i < j < |all| ==> all[i].id != all[j].id
        decreases rest
      {
        var id :| id in rest;
        assert forall i :: 0 <= i < |all| ==> all[i] in all;
        all := all + [nodes[id]];
        rest := rest - {id};
      }
    }

    /** All stored edges, in an order that the caller cannot predict. */
    method GetAllEdges() returns (all: seq<CallEdge>)
      requires Valid()
      ensures forall e :: e in all <==> e.id in edges && edges[e.id] == e
      ensures forall i, j :: 0 <= i < j < |all| ==> all[i].id != all[j].id
    {
      all := [];
      var rest := edges.Keys;
      while rest != {}
        invariant rest <= edges.Keys
        invariant forall e :: e in all <==> e.id in edges && edges[e.id] == e && e.id !in rest
        invariant forall i, j :: 0 <= i < j < |all| ==> all[i].id != all[j].id
        decreases rest
      {
        var id :| id in rest;
        assert forall i :: 0 <= i < |all| ==> all[i] in all;
        all := all + [edges[id]];
        rest := rest - {id};
      }
    }

    /** Some stored edge from `source` to `target`, if there is one. */
    method GetEdge(source: Uuid, target: Uuid) returns (e: Option<CallEdge>)
      requires Valid()
      ensures e.Some? ==> e.value.source == source && e.value.target == target
      ensures e.Some? ==> e.value.id in edges && edges[e.value.id] == e.value
      ensures e.Some? <==> Arc(source, target) in EdgeArcs(edges)
    {
      var rest := edges.Keys;
      while rest != {}
        invariant rest <= edges.Keys
        invariant forall id :: id in edges && id !in rest ==>
          edges[id].source != source || edges[id].target != target
        decreases rest
      {
        var id :| id in rest;
        if edges[id].source == source && edges[id].target == target {
          return Some(edges[id]);
        }
        rest := rest - {id};
      }
      e := None;
    }
  }
}
