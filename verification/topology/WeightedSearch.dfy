/** Least-weight paths: Dijkstra's search with lazy deletion and A* with a closed
    set.  Both keep one invariant; Dijkstra is the case of the zero heuristic. */
module WeightedSearch {
  import opened Domain
  import opened Walks
  import opened Graph

  type WeightFunc = CallEdge -> real
  type Heuristic = Uuid -> real

  /** A tentative distance; `Infinite` stands for the initial infinity. */
  datatype Score = Infinite | Finite(value: real)

  /** A heap entry: a partial path and its priority. */
  datatype Entry = Entry(nodes: seq<Uuid>, cost: real)

  /** Scores, closed identifiers and the heap.  The heap is a multiset: its
      layout decides only which of several cheapest entries is popped. */
  datatype Search = Search(score: map<Uuid, Score>, closed: set<Uuid>, open: multiset<Entry>)

  // ---- Weights of arcs and paths ----

  function UnitWeight(e: CallEdge): real { 1.0 }

  function Latency(e: CallEdge): real { e.latency }

  function OrUnit(w: Option<WeightFunc>): WeightFunc {
    match w
    case None => UnitWeight
    case Some(f) => f
  }

  function ArcOf(e: CallEdge): Arc { Arc(e.source, e.target) }

  /** The least weight among the edges `ids` along the arc `a`. */
  ghost function Lightest(edges: map<Uuid, CallEdge>, ids: set<Uuid>, w: WeightFunc, a: Arc): (m: real)
    requires ids <= edges.Keys && exists id :: id in ids && ArcOf(edges[id]) == a
    ensures exists id :: id in ids && ArcOf(edges[id]) == a && w(edges[id]) == m
    ensures forall id :: id in ids && ArcOf(edges[id]) == a ==> m <= w(edges[id])
    decreases ids
  {
    var id :| id in ids && ArcOf(edges[id]) == a;
    var rest := ids - {id};
    if exists j :: j in rest && ArcOf(edges[j]) == a then
      var m := Lightest(edges, rest, w, a);
      if w(edges[id]) <= m then w(edges[id]) else m
    else w(edges[id])
  }

  /** Every arc of the edge table with the weight of its lightest edge. */
  ghost function ArcWeights(edges: map<Uuid, CallEdge>, w: WeightFunc): (W: map<Arc, real>)
    ensures W.Keys == EdgeArcs(edges)
    ensures forall id :: id in edges ==> W[ArcOf(edges[id])] <= w(edges[id])
    ensures forall a :: a in W ==> exists id :: id in edges && ArcOf(edges[id]) == a && w(edges[id]) == W[a]
  {
    assert forall a :: a in EdgeArcs(edges) ==> exists id :: id in edges.Keys && ArcOf(edges[id]) == a;
    map a | a in EdgeArcs(edges) :: Lightest(edges, edges.Keys, w, a)
  }

  ghost function WeightOf(W: map<Arc, real>, a: Arc): real {
    if a in W then W[a] else 1.0
  }

  ghost function Cost(W: map<Arc, real>, p: seq<Uuid>): real {
    if |p| <= 1 then 0.0
    else Cost(W, p[..|p| - 1]) + WeightOf(W, Arc(p[|p| - 2], p[|p| - 1]))
  }

  lemma CostExtend(W: map<Arc, real>, p: seq<Uuid>, v: Uuid)
    requires p != []
    ensures Cost(W, p + [v]) == Cost(W, p) + WeightOf(W, Arc(p[|p| - 1], v))
  {
    assert (p + [v])[..|p|] == p;
  }

  lemma TwoArcCost(W: map<Arc, real>, u: Uuid, v: Uuid, x: Uuid)
    ensures Cost(W, [u, v]) == WeightOf(W, Arc(u, v))
    ensures Cost(W, [u, v, x]) == WeightOf(W, Arc(u, v)) + WeightOf(W, Arc(v, x))
  {
    assert Cost(W, [u]) == 0.0 && [u] + [v] == [u, v] && [u, v] + [x] == [u, v, x];
    CostExtend(W, [u], v);
    CostExtend(W, [u, v], x);
  }

  /** Where one walk goes on from the end of another their costs add up. */
  lemma {:induction false} CostJoins(W: map<Arc, real>, p: seq<Uuid>, q: seq<Uuid>)
    requires p != [] && q != [] && p[|p| - 1] == q[0]
    ensures Cost(W, p + q[1..]) == Cost(W, p) + Cost(W, q)
    decreases |q|
  {
    if |q| == 1 {
      assert p + q[1..] == p;
    } else {
      hide Cost, WeightOf;
      var front, v := q[..|q| - 1], q[|q| - 1];
      var longer := p + front[1..];
      CostJoins(W, p, front);
      CostExtend(W, longer, v);
      CostExtend(W, front, v);
      assert p + q[1..] == longer + [v] && q == front + [v];
      assert longer[|longer| - 1] == front[|front| - 1];
    }
  }

  /** With unit weights the cost of a walk is its number of arcs. */
  lemma {:induction false} UnitCost(edges: map<Uuid, CallEdge>, p: seq<Uuid>)
    requires p != []
    ensures Cost(ArcWeights(edges, UnitWeight), p) == (|p| - 1) as real
    decreases |p|
  {
    if |p| <= 1 {
    } else {
      UnitCost(edges, p[..|p| - 1]);
    }
  }

  ghost predicate NonNegative(edges: map<Uuid, CallEdge>, w: WeightFunc) {
    forall id :: id in edges ==> w(edges[id]) >= 0.0
  }

  /** The heuristic never drops by more than the weight of an edge between
      present nodes. */
  ghost predicate Consistent(g: Topology, w: WeightFunc, h: Heuristic) {
    forall id :: id in g.edges && g.edges[id].source in g.nodes && g.edges[id].target in g.nodes ==>
      h(g.edges[id].source) <= w(g.edges[id]) + h(g.edges[id].target)
  }

  /** The arcs that the searches follow: those between present nodes. */
  ghost function PresentArcs(g: Topology): set<Arc> {
    Within(EdgeArcs(g.edges), g.nodes.Keys)
  }

  ghost predicate ArcConsistent(E: set<Arc>, W: map<Arc, real>, h: Heuristic) {
    forall a :: a in E ==> h(a.src) <= WeightOf(W, a) + h(a.dst)
  }

  /** A simple path of least weight among all walks. */
  ghost predicate LightestPath(E: set<Arc>, W: map<Arc, real>, p: seq<Uuid>, s: Uuid, t: Uuid) {
    SimplePath(E, p, s, t) && forall q :: WalkFromTo(E, q, s, t) ==> Cost(W, p) <= Cost(W, q)
  }

  // ---- The search invariant ----

  function ScoreOf(score: map<Uuid, Score>, v: Uuid): Score {
    if v in score then score[v] else Finite(0.0)
  }

  predicate Improves(c: real, s: Score) {
    s.Infinite? || c < s.value
  }

  ghost predicate Scored(score: map<Uuid, Score>, v: Uuid) {
    v in score && score[v].Finite?
  }

  ghost predicate EntryOk(E: set<Arc>, W: map<Arc, real>, s: Uuid, h: Heuristic, score: map<Uuid, Score>,
                          closed: set<Uuid>, e: Entry)
  {
    && e.nodes != []
    && var v := e.nodes[|e.nodes| - 1];
       && SimplePath(E, e.nodes, s, v)
       && (forall i :: 0 <= i < |e.nodes| - 1 ==> e.nodes[i] in closed)
       && Scored(score, v) && score[v].value + h(v) <= e.cost && Cost(W, e.nodes) + h(v) <= e.cost
  }

  ghost predicate Pending(open: multiset<Entry>, v: Uuid, cost: real) {
    exists e :: e in open && e.nodes != [] && e.nodes[|e.nodes| - 1] == v && e.cost == cost
  }

  /** `d` is no more than the weight of any walk to `u`. */
  ghost predicate LowerBound(E: set<Arc>, W: map<Arc, real>, s: Uuid, u: Uuid, d: real) {
    forall q :: WalkFromTo(E, q, s, u) ==> d <= Cost(W, q)
  }

  ghost predicate Relaxed(E: set<Arc>, W: map<Arc, real>, score: map<Uuid, Score>, u: Uuid) {
    Scored(score, u) && forall v :: Arc(u, v) in E ==>
      Scored(score, v) && score[v].value <= score[u].value + WeightOf(W, Arc(u, v))
  }

  ghost predicate Scores(N: set<Uuid>, s: Uuid, score: map<Uuid, Score>, closed: set<Uuid>) {
    && score.Keys == N && closed <= N
    && Scored(score, s) && score[s].value == 0.0
    && forall v :: Scored(score, v) ==> score[v].value >= 0.0
  }

  ghost predicate Entries(E: set<Arc>, W: map<Arc, real>, s: Uuid, h: Heuristic, st: Search) {
    forall e :: e in st.open ==> EntryOk(E, W, s, h, st.score, st.closed, e)
  }

  /** Every scored identifier that is not closed waits in the heap at its
      current score. */
  ghost predicate Waiting(h: Heuristic, st: Search) {
    forall v :: Scored(st.score, v) && v !in st.closed ==> Pending(st.open, v, st.score[v].value + h(v))
  }

  /** The scores of closed identifiers are final. */
  ghost predicate Final(E: set<Arc>, W: map<Arc, real>, s: Uuid, score: map<Uuid, Score>, closed: set<Uuid>) {
    forall u :: u in closed ==> Scored(score, u) && LowerBound(E, W, s, u, score[u].value)
  }

  /** The invariant, with the arcs out of the members of `busy` still to be followed. */
  ghost predicate SearchInv(N: set<Uuid>, E: set<Arc>, W: map<Arc, real>, s: Uuid, h: Heuristic, st: Search,
                            busy: set<Uuid>)
  {
    && Scores(N, s, st.score, st.closed)
    && Entries(E, W, s, h, st)
    && Waiting(h, st)
    && Final(E, W, s, st.score, st.closed)
    && forall u :: u in st.closed && u !in busy ==> Relaxed(E, W, st.score, u)
  }

  lemma StartSearch(N: set<Uuid>, E: set<Arc>, W: map<Arc, real>, s: Uuid, h: Heuristic, score: map<Uuid, Score>)
    requires s in N && score == (map v | v in N :: Infinite)[s := Finite(0.0)]
    ensures SearchInv(N, E, W, s, h, Search(score, {}, multiset{Entry([s], h(s))}), {})
  {
    assert Entry([s], h(s)) in multiset{Entry([s], h(s))};
  }

  /** On any walk to an identifier that is not closed, the first one that is not
      closed is scored no higher than the walk so far. */
  lemma FirstOpen(N: set<Uuid>, E: set<Arc>, W: map<Arc, real>, s: Uuid, h: Heuristic, st: Search, q: seq<Uuid>)
    returns (i: nat)
    requires SearchInv(N, E, W, s, h, st, {})
    requires IsWalk(E, q) && q[0] == s && q[|q| - 1] !in st.closed
    ensures i < |q| && q[i] !in st.closed && Scored(st.score, q[i]) && st.score[q[i]].value <= Cost(W, q[..i + 1])
  {
    hide SearchInv, Cost, Scored;
    i := 0;
    while q[i] in st.closed
      invariant i < |q|
      invariant i > 0 ==> q[i - 1] in st.closed
      decreases |q| - i
    {
      i := i + 1;
    }
    if i == 0 {
      StartScored(N, E, W, s, h, st);
      assert q[..1] == [s];
    } else {
      var u := q[i - 1];
      ClosedFacts(N, E, W, s, h, st, u);
      assert WalkFromTo(E, q[..i], s, u);
      FollowArc(E, W, s, st.score, q[..i], u, q[i]);
      assert q[..i + 1] == q[..i] + [q[i]];
    }
  }

  lemma StartScored(N: set<Uuid>, E: set<Arc>, W: map<Arc, real>, s: Uuid, h: Heuristic, st: Search)
    requires SearchInv(N, E, W, s, h, st, {})
    ensures Scored(st.score, s) && st.score[s].value <= Cost(W, [s])
  {
  }

  lemma ClosedFacts(N: set<Uuid>, E: set<Arc>, W: map<Arc, real>, s: Uuid, h: Heuristic, st: Search, u: Uuid)
    requires SearchInv(N, E, W, s, h, st, {}) && u in st.closed
    ensures Scored(st.score, u) && LowerBound(E, W, s, u, st.score[u].value) && Relaxed(E, W, st.score, u)
  {
    hide LowerBound, Relaxed, EntryOk, Pending;
  }

  lemma FollowArc(E: set<Arc>, W: map<Arc, real>, s: Uuid, score: map<Uuid, Score>, p: seq<Uuid>, u: Uuid, v: Uuid)
    requires WalkFromTo(E, p, s, u) && Arc(u, v) in E
    requires Scored(score, u) && LowerBound(E, W, s, u, score[u].value) && Relaxed(E, W, score, u)
    ensures Scored(score, v) && score[v].value <= Cost(W, p + [v])
  {
    CostExtend(W, p, v);
  }

  /** Along a walk, the weight so far plus the heuristic never decreases. */
  lemma {:induction false} EstimateGrows(E: set<Arc>, W: map<Arc, real>, h: Heuristic, q: seq<Uuid>, i: nat)
    requires IsWalk(E, q) && ArcConsistent(E, W, h) && i < |q|
    ensures Cost(W, q[..i + 1]) + h(q[i]) <= Cost(W, q) + h(q[|q| - 1])
    decreases |q| - i
  {
    if i == |q| - 1 {
      assert q[..i + 1] == q;
    } else {
      EstimateGrows(E, W, h, q, i + 1);
      assert q[..i + 2] == q[..i + 1] + [q[i + 1]];
      CostExtend(W, q[..i + 1], q[i + 1]);
      assert Arc(q[i], q[i + 1]) in E;
    }
  }

  /** A cheapest entry whose end is not closed carries the least weight. */
  lemma PopOptimal(N: set<Uuid>, E: set<Arc>, W: map<Arc, real>, s: Uuid, h: Heuristic, st: Search, e: Entry, v: Uuid)
    requires SearchInv(N, E, W, s, h, st, {}) && ArcConsistent(E, W, h)
    requires e in st.open && forall x :: x in st.open ==> e.cost <= x.cost
    requires e.nodes != [] && v == e.nodes[|e.nodes| - 1] && v !in st.closed
    ensures LowerBound(E, W, s, v, e.cost - h(v))
    ensures Scored(st.score, v) && st.score[v].value == e.cost - h(v)
    ensures LightestPath(E, W, e.nodes, s, v) && Cost(W, e.nodes) == e.cost - h(v)
  {
    assert EntryOk(E, W, s, h, st.score, st.closed, e);
    assert Pending(st.open, v, st.score[v].value + h(v));
    forall q | WalkFromTo(E, q, s, v) ensures e.cost - h(v) <= Cost(W, q) {
      var i := FirstOpen(N, E, W, s, h, st, q);
      assert Pending(st.open, q[i], st.score[q[i]].value + h(q[i]));
      EstimateGrows(E, W, h, q, i);
    }
  }

  /** Dropping an entry whose end is already closed. */
  lemma DropEntry(N: set<Uuid>, E: set<Arc>, W: map<Arc, real>, s: Uuid, h: Heuristic, st: Search, e: Entry)
    requires SearchInv(N, E, W, s, h, st, {})
    requires e in st.open && e.nodes != [] && e.nodes[|e.nodes| - 1] in st.closed
    ensures SearchInv(N, E, W, s, h, Search(st.score, st.closed, st.open - multiset{e}), {})
  {
    hide EntryOk, LowerBound, Relaxed;
    PendingWithout(h, st, e, st.closed);
  }

  lemma PendingWithout(h: Heuristic, st: Search, e: Entry, closed: set<Uuid>)
    requires Waiting(h, st) && st.closed <= closed
    requires e in st.open && e.nodes != [] && e.nodes[|e.nodes| - 1] in closed
    ensures Waiting(h, Search(st.score, closed, st.open - multiset{e}))
  {
    forall v | Scored(st.score, v) && v !in closed
      ensures Pending(st.open - multiset{e}, v, st.score[v].value + h(v))
    {
      assert Pending(st.open, v, st.score[v].value + h(v));
      var x :| x in st.open && x.nodes != [] && x.nodes[|x.nodes| - 1] == v && x.cost == st.score[v].value + h(v);
      assert x != e;
      assert x in st.open - multiset{e};
    }
  }

  /** Closing the end of a cheapest entry, with its arcs still to be followed. */
  lemma CloseEntry(N: set<Uuid>, E: set<Arc>, W: map<Arc, real>, s: Uuid, h: Heuristic, st: Search, e: Entry, v: Uuid)
    requires SearchInv(N, E, W, s, h, st, {}) && ArcConsistent(E, W, h)
    requires e in st.open && forall x :: x in st.open ==> e.cost <= x.cost
    requires e.nodes != [] && v == e.nodes[|e.nodes| - 1] && v !in st.closed
    ensures var r := Search(st.score, st.closed + {v}, st.open - multiset{e});
            SearchInv(N, E, W, s, h, r, {v}) && Expanding(E, W, s, r, e, v)
  {
    PopOptimal(N, E, W, s, h, st, e, v);
    PendingWithout(h, st, e, st.closed + {v});
    assert EntryOk(E, W, s, h, st.score, st.closed, e);
    forall x | x in st.open ensures EntryOk(E, W, s, h, st.score, st.closed + {v}, x) {
      assert EntryOk(E, W, s, h, st.score, st.closed, x);
    }
  }

  /** `e` is the path along which `v` was just closed. */
  ghost predicate Expanding(E: set<Arc>, W: map<Arc, real>, s: Uuid, st: Search, e: Entry, v: Uuid) {
    && SimplePath(E, e.nodes, s, v) && (forall i :: 0 <= i < |e.nodes| ==> e.nodes[i] in st.closed)
    && v in st.closed && Scored(st.score, v) && Cost(W, e.nodes) <= st.score[v].value
  }

  // ---- Following the edges out of the closed identifier ----

  ghost function Relax(st: Search, e: Entry, v: Uuid, edge: CallEdge, w: WeightFunc, h: Heuristic): Search
    requires Scored(st.score, v)
  {
    var tentative := st.score[v].value + w(edge);
    if edge.source == v && Improves(tentative, ScoreOf(st.score, edge.target)) then
      Search(st.score[edge.target := Finite(tentative)], st.closed,
             st.open + multiset{Entry(e.nodes + [edge.target], tentative + h(edge.target))})
    else st
  }

  ghost function RelaxAll(st: Search, e: Entry, v: Uuid, es: seq<CallEdge>, w: WeightFunc, h: Heuristic): (r: Search)
    requires Scored(st.score, v)
    ensures Scored(r.score, v) && r.closed == st.closed
  {
    if es == [] then st
    else Relax(RelaxAll(st, e, v, es[..|es| - 1], w, h), e, v, es[|es| - 1], w, h)
  }

  lemma RelaxNext(st: Search, e: Entry, v: Uuid, es: seq<CallEdge>, i: nat, w: WeightFunc, h: Heuristic)
    requires Scored(st.score, v) && i < |es|
    ensures RelaxAll(st, e, v, es[..i + 1], w, h) == Relax(RelaxAll(st, e, v, es[..i], w, h), e, v, es[i], w, h)
  {
    assert es[..i + 1][..i] == es[..i];
  }

  ghost predicate EdgeRelaxed(N: set<Uuid>, score: map<Uuid, Score>, v: Uuid, edge: CallEdge, w: WeightFunc) {
    edge.source == v && edge.target in N ==>
      Scored(score, v) && Scored(score, edge.target) && score[edge.target].value <= score[v].value + w(edge)
  }

  /** An edge can lower only the score of an identifier that is still open. */
  lemma ImprovesOnlyOpen(N: set<Uuid>, E: set<Arc>, W: map<Arc, real>, s: Uuid, h: Heuristic, st: Search, e: Entry,
                         v: Uuid,
                         edge: CallEdge, w: WeightFunc)
    requires SearchInv(N, E, W, s, h, st, {v}) && Expanding(E, W, s, st, e, v)
    requires edge.source == v && w(edge) >= 0.0
    requires edge.target in N ==> ArcOf(edge) in E && WeightOf(W, ArcOf(edge)) <= w(edge)
    requires Improves(st.score[v].value + w(edge), ScoreOf(st.score, edge.target))
    ensures edge.target in N && edge.target !in st.closed
    ensures SimplePath(E, e.nodes + [edge.target], s, edge.target)
    ensures Cost(W, e.nodes + [edge.target]) <= st.score[v].value + w(edge)
  {
    var x, p := edge.target, e.nodes + [edge.target];
    assert x in N;
    CostExtend(W, e.nodes, x);
    assert WalkFromTo(E, p, s, x);
  }

  lemma RelaxKeeps(N: set<Uuid>, E: set<Arc>, W: map<Arc, real>, s: Uuid, h: Heuristic, st: Search, e: Entry, v: Uuid,
                   edge: CallEdge, w: WeightFunc)
    requires SearchInv(N, E, W, s, h, st, {v}) && Expanding(E, W, s, st, e, v) && w(edge) >= 0.0
    requires edge.source == v && edge.target in N ==> ArcOf(edge) in E && WeightOf(W, ArcOf(edge)) <= w(edge)
    ensures var r := Relax(st, e, v, edge, w, h);
            && SearchInv(N, E, W, s, h, r, {v}) && Expanding(E, W, s, r, e, v)
            && EdgeRelaxed(N, r.score, v, edge, w)
            && (forall u :: Scored(st.score, u) ==> Scored(r.score, u) && r.score[u].value <= st.score[u].value)
            && r.score[v] == st.score[v]
  {
    hide Waiting, Entries, Final, LowerBound, Relaxed;
    var tentative := st.score[v].value + w(edge);
    if edge.source == v && Improves(tentative, ScoreOf(st.score, edge.target)) {
      ImprovesOnlyOpen(N, E, W, s, h, st, e, v, edge, w);
      LowerScore(N, E, W, s, h, st, Entry(e.nodes + [edge.target], tentative + h(edge.target)), edge.target, tentative, {v});
    }
  }

  /** Lowering the score of an open identifier and pushing the path that earns it. */
  lemma LowerScore(N: set<Uuid>, E: set<Arc>, W: map<Arc, real>, s: Uuid, h: Heuristic, st: Search, e: Entry, x: Uuid,
                   c: real, busy: set<Uuid>)
    requires SearchInv(N, E, W, s, h, st, busy)
    requires x in N && x !in st.closed && c >= 0.0 && Improves(c, st.score[x])
    requires SimplePath(E, e.nodes, s, x) && forall i :: 0 <= i < |e.nodes| - 1 ==> e.nodes[i] in st.closed
    requires Cost(W, e.nodes) <= c && e.cost == c + h(x)
    ensures SearchInv(N, E, W, s, h, Search(st.score[x := Finite(c)], st.closed, st.open + multiset{e}), busy)
  {
    hide LowerBound, SimplePath, Relaxed, EntryOk, Pending;
    LowerEntries(E, W, s, h, st, e, x, c);
    LowerWaiting(E, s, h, st, e, x, c);
    forall u | u in st.closed && u !in busy ensures Relaxed(E, W, st.score[x := Finite(c)], u) {
      LowerRelaxed(E, W, st.score, u, x, c);
    }
  }

  lemma LowerEntries(E: set<Arc>, W: map<Arc, real>, s: Uuid, h: Heuristic, st: Search, e: Entry, x: Uuid, c: real)
    requires Entries(E, W, s, h, st) && x in st.score && Improves(c, st.score[x])
    requires SimplePath(E, e.nodes, s, x) && forall i :: 0 <= i < |e.nodes| - 1 ==> e.nodes[i] in st.closed
    requires Cost(W, e.nodes) <= c && e.cost == c + h(x)
    ensures Entries(E, W, s, h, Search(st.score[x := Finite(c)], st.closed, st.open + multiset{e}))
  {
    forall y | y in st.open + multiset{e} ensures EntryOk(E, W, s, h, st.score[x := Finite(c)], st.closed, y) {
      if y != e {
        assert EntryOk(E, W, s, h, st.score, st.closed, y);
      }
    }
  }

  lemma LowerWaiting(E: set<Arc>, s: Uuid, h: Heuristic, st: Search, e: Entry, x: Uuid, c: real)
    requires Waiting(h, st) && SimplePath(E, e.nodes, s, x) && e.cost == c + h(x)
    ensures Waiting(h, Search(st.score[x := Finite(c)], st.closed, st.open + multiset{e}))
  {
    var score, open := st.score[x := Finite(c)], st.open + multiset{e};
    forall y | Scored(score, y) && y !in st.closed ensures Pending(open, y, score[y].value + h(y)) {
      if y == x {
        assert e in open;
      } else {
        assert Pending(st.open, y, st.score[y].value + h(y));
      }
    }
  }

  lemma LowerRelaxed(E: set<Arc>, W: map<Arc, real>, score: map<Uuid, Score>, u: Uuid, x: Uuid, c: real)
    requires Relaxed(E, W, score, u) && u != x && x in score && Improves(c, score[x])
    ensures Relaxed(E, W, score[x := Finite(c)], u)
  {
  }

  lemma {:induction false} RelaxAllKeeps(N: set<Uuid>, E: set<Arc>, W: map<Arc, real>, s: Uuid, h: Heuristic,
                                         st: Search,
                                         e: Entry, v: Uuid, es: seq<CallEdge>, w: WeightFunc)
    requires SearchInv(N, E, W, s, h, st, {v}) && Expanding(E, W, s, st, e, v)
    requires forall x :: x in es ==> w(x) >= 0.0
    requires forall x :: x in es && x.source == v && x.target in N ==> ArcOf(x) in E && WeightOf(W, ArcOf(x)) <= w(x)
    ensures var r := RelaxAll(st, e, v, es, w, h);
            && SearchInv(N, E, W, s, h, r, {v}) && Expanding(E, W, s, r, e, v)
            && forall x :: x in es ==> EdgeRelaxed(N, r.score, v, x, w)
    decreases |es|
  {
    hide SearchInv, Relax, Expanding, EdgeRelaxed;
    assert Scored(st.score, v) by { ExpandingScored(E, W, s, st, e, v); }
    if es == [] {
    } else {
      var n := |es| - 1;
      var mid := RelaxAll(st, e, v, es[..n], w, h);
      RelaxAllKeeps(N, E, W, s, h, st, e, v, es[..n], w);
      RelaxKeeps(N, E, W, s, h, mid, e, v, es[n], w);
      assert es == es[..n] + [es[n]];
      var r := Relax(mid, e, v, es[n], w, h);
      forall x | x in es ensures EdgeRelaxed(N, r.score, v, x, w) {
        if x in es[..n] {
          EdgeStaysRelaxed(N, mid.score, r.score, v, x, w);
        }
      }
    }
  }

  lemma ExpandingScored(E: set<Arc>, W: map<Arc, real>, s: Uuid, st: Search, e: Entry, v: Uuid)
    requires Expanding(E, W, s, st, e, v)
    ensures Scored(st.score, v)
  {
  }

  lemma EdgeStaysRelaxed(N: set<Uuid>, score: map<Uuid, Score>, lower: map<Uuid, Score>, v: Uuid, edge: CallEdge,
                         w: WeightFunc)
    requires EdgeRelaxed(N, score, v, edge, w)
    requires forall u :: Scored(score, u) ==> Scored(lower, u) && lower[u].value <= score[u].value
    requires Scored(score, v) && Scored(lower, v) && lower[v] == score[v]
    ensures EdgeRelaxed(N, lower, v, edge, w)
  {
  }

  /** When all edges have been scanned nothing is left busy. */
  lemma FinishClosing(g: Topology, w: WeightFunc, s: Uuid, h: Heuristic, st: Search, e: Entry, v: Uuid,
                      es: seq<CallEdge>)
    requires var E, W := PresentArcs(g), ArcWeights(g.edges, w);
             SearchInv(g.nodes.Keys, E, W, s, h, st, {v}) && Expanding(E, W, s, st, e, v)
    requires NonNegative(g.edges, w) && Keyed(g)
    requires forall x :: x in es <==> x.id in g.edges && g.edges[x.id] == x
    requires Scored(st.score, v)
    ensures SearchInv(g.nodes.Keys, PresentArcs(g), ArcWeights(g.edges, w), s, h, RelaxAll(st, e, v, es, w, h), {})
  {
    var N, E, W := g.nodes.Keys, PresentArcs(g), ArcWeights(g.edges, w);
    var r := RelaxAll(st, e, v, es, w, h);
    assert v in N && Scored(st.score, v);
    forall x | x in es && x.source == v && x.target in N
      ensures ArcOf(x) in E && WeightOf(W, ArcOf(x)) <= w(x)
    {
      assert ArcOf(g.edges[x.id]) in EdgeArcs(g.edges);
    }
    RelaxAllKeeps(N, E, W, s, h, st, e, v, es, w);
    forall y | Arc(v, y) in E
      ensures Scored(r.score, y) && r.score[y].value <= r.score[v].value + WeightOf(W, Arc(v, y))
    {
      assert Arc(v, y) in W;
      var id :| id in g.edges && ArcOf(g.edges[id]) == Arc(v, y) && w(g.edges[id]) == W[Arc(v, y)];
      assert g.edges[id] in es;
      assert EdgeRelaxed(N, r.score, v, g.edges[id], w);
    }
    assert Relaxed(E, W, r.score, v);
  }

  /** An empty heap means that the target cannot be reached. */
  lemma Exhausted(N: set<Uuid>, E: set<Arc>, W: map<Arc, real>, s: Uuid, h: Heuristic, st: Search, t: Uuid)
    requires SearchInv(N, E, W, s, h, st, {}) && st.open == multiset{} && t !in st.closed
    ensures !Reachable(E, s, t)
  {
    assert forall v, c :: !Pending(st.open, v, c);
    forall n: nat ensures !Steps(E, s, t, n) {
      if Steps(E, s, t, n) {
        var q := StepsWalk(E, s, t, n);
        var i := FirstOpen(N, E, W, s, h, st, q);
      }
    }
  }

  lemma LightestReached(E: set<Arc>, W: map<Arc, real>, p: seq<Uuid>, s: Uuid, t: Uuid)
    requires LightestPath(E, W, p, s, t)
    ensures Reachable(E, s, t)
  {
    WalkSteps(E, p, s, t);
  }

  lemma ConsistentArcs(g: Topology, w: WeightFunc, h: Heuristic)
    requires Consistent(g, w, h)
    ensures ArcConsistent(PresentArcs(g), ArcWeights(g.edges, w), h)
  {
    var W := ArcWeights(g.edges, w);
    forall a | a in PresentArcs(g) ensures h(a.src) <= WeightOf(W, a) + h(a.dst) {
      var id :| id in g.edges && ArcOf(g.edges[id]) == a && w(g.edges[id]) == W[a];
    }
  }

  // ---- The heap ----

  /** `c` is a cheapest entry, and `after` is what a pop of it leaves. */
  ghost predicate Pops(before: multiset<Entry>, c: Entry, after: multiset<Entry>) {
    c in before && (forall x :: x in before ==> c.cost <= x.cost) && after == before - multiset{c}
  }

  lemma {:induction false} CheapestExists(open: multiset<Entry>) returns (e: Entry)
    requires open != multiset{}
    ensures e in open && forall x :: x in open ==> e.cost <= x.cost
    decreases |open|
  {
    e :| e in open;
    var rest := open - multiset{e};
    assert forall x :: x in open <==> x == e || x in rest;
    if rest != multiset{} {
      var r := CheapestExists(rest);
      if r.cost < e.cost {
        e := r;
      }
    }
  }

  /** Removes some entry of least cost. */
  method HeapPop(open: multiset<Entry>) returns (e: Entry, rest: multiset<Entry>)
    requires open != multiset{}
    ensures e in open && forall x :: x in open ==> e.cost <= x.cost
    ensures rest == open - multiset{e}
  {
    ghost var _ := CheapestExists(open);
    e :| e in open && forall x :: x in open ==> e.cost <= x.cost;
    rest := open - multiset{e};
  }

  // ---- Dijkstra ----

  function NoHeuristic(v: Uuid): real { 0.0 }

  method InitialScores(graph: InMemoryGraph, source: Uuid) returns (score: map<Uuid, Score>)
    requires graph.Valid()
    ensures score == (map v | v in graph.nodes.Keys :: Infinite)[source := Finite(0.0)]
  {
    score := map[];
    var all := graph.GetAllNodes();
    for i := 0 to |all|
      invariant forall v :: v in score ==> v in graph.nodes && score[v] == Infinite
      invariant forall j :: 0 <= j < i ==> all[j].id in score
    {
      assert all[i] in all;
      score := score[all[i].id := Infinite];
    }
    forall v | v in graph.nodes ensures v in score {
      assert graph.nodes[v] in all;
    }
    score := score[source := Finite(0.0)];
  }

  /** One edge of the scan after `v` is closed, as Dijkstra's search treats it. */
  method RelaxEdge(ghost st: Search, dist: map<Uuid, Score>, pq: multiset<Entry>, current: Entry, v: Uuid,
                   edge: CallEdge, w: WeightFunc)
    returns (dist': map<Uuid, Score>, pq': multiset<Entry>)
    requires Scored(st.score, v) && dist == st.score && pq == st.open
    ensures var r := Relax(st, current, v, edge, w, NoHeuristic); dist' == r.score && pq' == r.open
  {
    dist', pq' := dist, pq;
    if edge.source == v {
      var newDist := dist[v].value + w(edge);
      if Improves(newDist, ScoreOf(dist, edge.target)) {
        dist' := dist[edge.target := Finite(newDist)];
        pq' := pq + multiset{Entry(current.nodes + [edge.target], newDist)};
      }
    }
  }

  method RelaxEdges(ghost st: Search, dist0: map<Uuid, Score>, pq0: multiset<Entry>, current: Entry, v: Uuid,
                    es: seq<CallEdge>, w: WeightFunc)
    returns (dist: map<Uuid, Score>, pq: multiset<Entry>)
    requires Scored(st.score, v) && dist0 == st.score && pq0 == st.open
    ensures var r := RelaxAll(st, current, v, es, w, NoHeuristic); dist == r.score && pq == r.open
  {
    hide Relax;
    dist, pq := dist0, pq0;
    ghost var now := st;
    for i := 0 to |es|
      invariant now == RelaxAll(st, current, v, es[..i], w, NoHeuristic)
      invariant dist == now.score && pq == now.open
    {
      RelaxNext(st, current, v, es, i, w, NoHeuristic);
      dist, pq := RelaxEdge(now, dist, pq, current, v, es[i], w);
      now := Relax(now, current, v, es[i], w, NoHeuristic);
    }
    assert es[..|es|] == es;
  }

  /** A least-weight path through present nodes, or an error exactly when there is none. */
  method FindShortestPathWeighted(graph: InMemoryGraph?, source: Uuid, target: Uuid, weightFunc: Option<WeightFunc>)
    returns (res: Result<seq<Uuid>>)
    requires graph != null ==> graph.Valid() && NonNegative(graph.edges, OrUnit(weightFunc))
    ensures graph == null ==> res == Err(GraphNotReady)
    ensures graph != null && (source !in graph.nodes || target !in graph.nodes) ==> res == Err(NodeNotFound)
    ensures graph != null && source in graph.nodes && target in graph.nodes ==>
              if Reachable(PresentArcs(graph.View()), source, target)
              then res.Ok? && LightestPath(PresentArcs(graph.View()), ArcWeights(graph.edges, OrUnit(weightFunc)),
                                           res.value, source, target)
              else res == Err(PathNotFound)
  {
    hide SearchInv, Expanding, LightestPath, LowerBound, Reachable, RelaxAll;
    if graph == null {
      return Err(GraphNotReady);
    }
    if graph.GetNode(source).None? || graph.GetNode(target).None? {
      return Err(NodeNotFound);
    }
    var w := OrUnit(weightFunc);
    ghost var g := graph.View();
    ghost var N, E, W, h := g.nodes.Keys, PresentArcs(g), ArcWeights(g.edges, w), NoHeuristic;
    ConsistentArcs(g, w, h);
    var dist := InitialScores(graph, source);
    var visited: set<Uuid> := {};
    var pq := multiset{Entry([source], 0.0)};
    StartSearch(N, E, W, source, h, dist);
    while |pq| > 0
      invariant SearchInv(N, E, W, source, h, Search(dist, visited, pq), {})
      invariant target !in visited && visited <= N
      decreases N - visited, |pq|
    {
      ghost var st := Search(dist, visited, pq);
      var current, rest := HeapPop(pq);
      pq := rest;
      EntryEnds(N, E, W, source, h, st, current);
      var v := current.nodes[|current.nodes| - 1];
      if v in visited {
        DropEntry(N, E, W, source, h, st, current);
        continue;
      }
      CloseEntry(N, E, W, source, h, st, current, v);
      assert v in N - visited;
      visited := visited + {v};
      if v == target {
        PopOptimal(N, E, W, source, h, st, current, v);
        LightestReached(E, W, current.nodes, source, target);
        return Ok(current.nodes);
      }
      var es := graph.GetAllEdges();
      ghost var closing := Search(dist, visited, pq);
      ExpandingScored(E, W, source, closing, current, v);
      FinishClosing(g, w, source, h, closing, current, v, es);
      dist, pq := RelaxEdges(closing, dist, pq, current, v, es, w);
    }
    Exhausted(N, E, W, source, h, Search(dist, visited, pq), target);
    res := Err(PathNotFound);
  }

  lemma EntryEnds(N: set<Uuid>, E: set<Arc>, W: map<Arc, real>, s: Uuid, h: Heuristic, st: Search, e: Entry)
    requires SearchInv(N, E, W, s, h, st, {}) && e in st.open
    ensures e.nodes != [] && e.nodes[|e.nodes| - 1] in N
  {
    assert EntryOk(E, W, s, h, st.score, st.closed, e);
  }
}
