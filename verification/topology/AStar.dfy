/** A* with a closed set that is never reopened.  For any heuristic it finds a simple
    path whenever there is one; for a consistent heuristic that path is a lightest one. */
module AStar {
  import opened Domain
  import opened Sequences
  import opened Walks
  import opened Graph
  import opened WeightedSearch

  // ---- What holds for every heuristic ----

  ghost predicate LoopFree(E: set<Arc>, s: Uuid, score: map<Uuid, Score>, closed: set<Uuid>, e: Entry) {
    && e.nodes != []
    && var n := |e.nodes| - 1;
       && WalkFromTo(E, e.nodes, s, e.nodes[n]) && Scored(score, e.nodes[n])
       && Distinct(e.nodes[..n]) && forall i :: 0 <= i < n ==> e.nodes[i] in closed
  }

  ghost predicate HasEntry(open: multiset<Entry>, v: Uuid) {
    exists e :: e in open && e.nodes != [] && e.nodes[|e.nodes| - 1] == v
  }

  ghost predicate LeadsOn(E: set<Arc>, score: map<Uuid, Score>, u: Uuid) {
    forall v :: Arc(u, v) in E ==> Scored(score, v)
  }

  /** The invariant that needs no assumption on the heuristic, with the arcs out of
      the members of `busy` still to be followed. */
  ghost predicate BasicInv(N: set<Uuid>, E: set<Arc>, s: Uuid, st: Search, busy: set<Uuid>) {
    && st.score.Keys == N && st.closed <= N && Scored(st.score, s)
    && (forall v :: Scored(st.score, v) ==> st.score[v].value >= 0.0)
    && (forall u :: u in st.closed ==> Scored(st.score, u))
    && (forall e :: e in st.open ==> LoopFree(E, s, st.score, st.closed, e))
    && (forall v :: Scored(st.score, v) && v !in st.closed ==> HasEntry(st.open, v))
    && (forall u :: u in st.closed && u !in busy ==> LeadsOn(E, st.score, u))
  }

  /** `e` is the simple path along which `v` was just closed. */
  ghost predicate Growing(E: set<Arc>, s: Uuid, st: Search, e: Entry, v: Uuid) {
    && SimplePath(E, e.nodes, s, v) && (forall i :: 0 <= i < |e.nodes| ==> e.nodes[i] in st.closed)
    && v in st.closed && Scored(st.score, v)
  }

  lemma BasicStart(N: set<Uuid>, E: set<Arc>, s: Uuid, score: map<Uuid, Score>, cost: real)
    requires s in N && score == (map v | v in N :: Infinite)[s := Finite(0.0)]
    ensures BasicInv(N, E, s, Search(score, {}, multiset{Entry([s], cost)}), {})
  {
    assert Entry([s], cost) in multiset{Entry([s], cost)};
  }

  lemma BasicEntry(N: set<Uuid>, E: set<Arc>, s: Uuid, st: Search, e: Entry)
    requires BasicInv(N, E, s, st, {}) && e in st.open
    ensures e.nodes != [] && e.nodes[|e.nodes| - 1] in N
    ensures e.nodes[|e.nodes| - 1] !in st.closed ==> SimplePath(E, e.nodes, s, e.nodes[|e.nodes| - 1])
  {
    assert LoopFree(E, s, st.score, st.closed, e);
    var n := |e.nodes| - 1;
    if e.nodes[n] !in st.closed {
      assert forall i :: 0 <= i < n ==> e.nodes[..n][i] == e.nodes[i];
      assert Distinct(e.nodes);
    }
  }

  lemma EntryLeft(open: multiset<Entry>, e: Entry, v: Uuid)
    requires HasEntry(open, v) && e.nodes != [] && e.nodes[|e.nodes| - 1] != v
    ensures HasEntry(open - multiset{e}, v)
  {
    var x :| x in open && x.nodes != [] && x.nodes[|x.nodes| - 1] == v;
    assert x in open - multiset{e};
  }

  lemma BasicDrop(N: set<Uuid>, E: set<Arc>, s: Uuid, st: Search, e: Entry)
    requires BasicInv(N, E, s, st, {}) && e in st.open && e.nodes != [] && e.nodes[|e.nodes| - 1] in st.closed
    ensures BasicInv(N, E, s, Search(st.score, st.closed, st.open - multiset{e}), {})
  {
    hide LoopFree, LeadsOn, HasEntry;
    forall v | Scored(st.score, v) && v !in st.closed ensures HasEntry(st.open - multiset{e}, v) {
      EntryLeft(st.open, e, v);
    }
  }

  lemma BasicClose(N: set<Uuid>, E: set<Arc>, s: Uuid, st: Search, e: Entry, v: Uuid)
    requires BasicInv(N, E, s, st, {}) && e in st.open
    requires e.nodes != [] && v == e.nodes[|e.nodes| - 1] && v !in st.closed
    ensures var r := Search(st.score, st.closed + {v}, st.open - multiset{e});
            BasicInv(N, E, s, r, {v}) && Growing(E, s, r, e, v)
  {
    BasicEntry(N, E, s, st, e);
    assert LoopFree(E, s, st.score, st.closed, e);
    forall x | x in st.open ensures LoopFree(E, s, st.score, st.closed + {v}, x) {
      assert LoopFree(E, s, st.score, st.closed, x);
    }
    hide LeadsOn, HasEntry, LoopFree;
    forall x | Scored(st.score, x) && x !in st.closed + {v} ensures HasEntry(st.open - multiset{e}, x) {
      EntryLeft(st.open, e, x);
    }
  }

  lemma BasicRelax(N: set<Uuid>, E: set<Arc>, s: Uuid, st: Search, e: Entry, v: Uuid, edge: CallEdge, w: WeightFunc,
                   h: Heuristic)
    requires BasicInv(N, E, s, st, {v}) && Growing(E, s, st, e, v) && Scored(st.score, v) && w(edge) >= 0.0
    requires edge.source == v && edge.target in N ==> ArcOf(edge) in E
    ensures var r := Relax(st, e, v, edge, w, h);
            BasicInv(N, E, s, r, {v}) && Growing(E, s, r, e, v)
  {
    hide BasicInv, Growing;
    ScoresKnown(N, E, s, st, v);
    var tentative := st.score[v].value + w(edge);
    if edge.source == v && Improves(tentative, ScoreOf(st.score, edge.target)) {
      BasicPush(N, E, s, st, e, v, edge.target, tentative, tentative + h(edge.target));
    }
  }

  /** A scanned edge leaves its target scored, and no score is lost. */
  lemma RelaxScores(N: set<Uuid>, st: Search, e: Entry, v: Uuid, edge: CallEdge, w: WeightFunc, h: Heuristic)
    requires st.score.Keys == N && Scored(st.score, v)
    ensures var r := Relax(st, e, v, edge, w, h);
            && (forall u :: Scored(st.score, u) ==> Scored(r.score, u))
            && (edge.source == v && edge.target in N ==> Scored(r.score, edge.target))
  {
  }

  lemma ScoresKnown(N: set<Uuid>, E: set<Arc>, s: Uuid, st: Search, v: Uuid)
    requires BasicInv(N, E, s, st, {v}) && Scored(st.score, v)
    ensures st.score.Keys == N && st.score[v].value >= 0.0
  {
  }

  lemma BasicPush(N: set<Uuid>, E: set<Arc>, s: Uuid, st: Search, e: Entry, v: Uuid, x: Uuid, c: real, cost: real)
    requires BasicInv(N, E, s, st, {v}) && Growing(E, s, st, e, v)
    requires c >= 0.0 && x in N && Arc(v, x) in E
    ensures var r := Search(st.score[x := Finite(c)], st.closed, st.open + multiset{Entry(e.nodes + [x], cost)});
            BasicInv(N, E, s, r, {v}) && Growing(E, s, r, e, v)
  {
    hide LoopFree, WalkFromTo, SimplePath;
    var added := Entry(e.nodes + [x], cost);
    var r := Search(st.score[x := Finite(c)], st.closed, st.open + multiset{added});
    assert added in r.open;
    GrowLoopFree(E, s, st, e, v, x, c, cost);
    forall y | y in r.open ensures LoopFree(E, s, r.score, r.closed, y) {
      if y != added {
        LoopFreeOn(E, s, st.score, st.closed, y, x, c);
      }
    }
    forall y | Scored(r.score, y) && y !in r.closed ensures HasEntry(r.open, y) {
      if y != x {
        assert HasEntry(st.open, y);
        var z :| z in st.open && z.nodes != [] && z.nodes[|z.nodes| - 1] == y;
        assert z in r.open;
      }
    }
    forall u | u in r.closed && u != v ensures LeadsOn(E, r.score, u) {
      assert LeadsOn(E, st.score, u);
    }
  }

  lemma GrowLoopFree(E: set<Arc>, s: Uuid, st: Search, e: Entry, v: Uuid, x: Uuid, c: real, cost: real)
    requires Growing(E, s, st, e, v) && Arc(v, x) in E
    ensures LoopFree(E, s, st.score[x := Finite(c)], st.closed, Entry(e.nodes + [x], cost))
  {
    var nodes := e.nodes + [x];
    assert nodes[..|e.nodes|] == e.nodes;
  }

  lemma LoopFreeOn(E: set<Arc>, s: Uuid, score: map<Uuid, Score>, closed: set<Uuid>, y: Entry, x: Uuid, c: real)
    requires LoopFree(E, s, score, closed, y)
    ensures LoopFree(E, s, score[x := Finite(c)], closed, y)
  {
  }

  lemma {:induction false} BasicRelaxAll(N: set<Uuid>, E: set<Arc>, s: Uuid, st: Search, e: Entry, v: Uuid,
                                         es: seq<CallEdge>,
                                         w: WeightFunc, h: Heuristic)
    requires BasicInv(N, E, s, st, {v}) && Growing(E, s, st, e, v)
    requires forall x :: x in es ==> w(x) >= 0.0 && (x.source == v && x.target in N ==> ArcOf(x) in E)
    requires Scored(st.score, v)
    ensures var r := RelaxAll(st, e, v, es, w, h);
            && BasicInv(N, E, s, r, {v}) && Growing(E, s, r, e, v)
            && forall x :: x in es && x.source == v && x.target in N ==> Scored(r.score, x.target)
    decreases |es|
  {
    hide BasicInv, Growing, Relax;
    if es == [] {
    } else {
      var n := |es| - 1;
      BasicRelaxAll(N, E, s, st, e, v, es[..n], w, h);
      var mid := RelaxAll(st, e, v, es[..n], w, h);
      BasicRelax(N, E, s, mid, e, v, es[n], w, h);
      ScoresKnown(N, E, s, mid, v);
      RelaxScores(N, mid, e, v, es[n], w, h);
      assert es == es[..n] + [es[n]];
    }
  }

  lemma BasicFinish(g: Topology, w: WeightFunc, s: Uuid, h: Heuristic, st: Search, e: Entry, v: Uuid, es: seq<CallEdge>)
    requires BasicInv(g.nodes.Keys, PresentArcs(g), s, st, {v}) && Growing(PresentArcs(g), s, st, e, v)
    requires NonNegative(g.edges, w) && Keyed(g)
    requires forall x :: x in es <==> x.id in g.edges && g.edges[x.id] == x
    requires Scored(st.score, v)
    ensures BasicInv(g.nodes.Keys, PresentArcs(g), s, RelaxAll(st, e, v, es, w, h), {})
  {
    var N, E := g.nodes.Keys, PresentArcs(g);
    var r := RelaxAll(st, e, v, es, w, h);
    forall x | x in es && x.source == v && x.target in N ensures ArcOf(x) in E {
      assert ArcOf(g.edges[x.id]) in EdgeArcs(g.edges);
    }
    BasicRelaxAll(N, E, s, st, e, v, es, w, h);
    forall y | Arc(v, y) in E ensures Scored(r.score, y) {
      var id :| id in g.edges && Arc(g.edges[id].source, g.edges[id].target) == Arc(v, y);
      assert g.edges[id] in es;
    }
    assert LeadsOn(E, r.score, v);
  }

  lemma BasicExhausted(N: set<Uuid>, E: set<Arc>, s: Uuid, st: Search, t: Uuid)
    requires BasicInv(N, E, s, st, {}) && st.open == multiset{} && t !in st.closed
    ensures !Reachable(E, s, t)
  {
    assert forall v :: !HasEntry(st.open, v);
    forall n: nat ensures !Steps(E, s, t, n) {
      if Steps(E, s, t, n) {
        forall a | a in E && a.src in st.closed ensures a.dst in st.closed {
          assert LeadsOn(E, st.score, a.src) && a == Arc(a.src, a.dst);
        }
        ClosedKeepsReachable(E, st.closed, s, t, n);
      }
    }
  }

  // ---- The runs of the search ----

  ghost function StartOf(g: Topology, h: Heuristic, s: Uuid): Search {
    Search((map v | v in g.nodes.Keys :: Infinite)[s := Finite(0.0)], {}, multiset{Entry([s], h(s))})
  }

  /** All stored edges, each once, in some order. */
  ghost predicate Enumerates(g: Topology, es: seq<CallEdge>) {
    && (forall e :: e in es <==> e.id in g.edges && g.edges[e.id] == e)
    && (forall i, j :: 0 <= i < j < |es| ==> es[i].id != es[j].id)
  }

  /** The entry `e` ends at `v`. */
  ghost predicate EndsAt(e: Entry, v: Uuid) {
    e.nodes != [] && e.nodes[|e.nodes| - 1] == v
  }

  /** One turn that pops `e`, which does not end at the target: it is dropped when its
      end is closed; else its end is closed and all edges are scanned. */
  ghost predicate TurnOn(g: Topology, w: WeightFunc, h: Heuristic, t: Uuid, st: Search, e: Entry,
                         rest: multiset<Entry>, next: Search)
  {
    && Pops(st.open, e, rest) && e.nodes != [] && !EndsAt(e, t)
    && var v := e.nodes[|e.nodes| - 1];
       if v in st.closed then next == Search(st.score, st.closed, rest)
       else
         && Scored(st.score, v)
         && exists es :: Enumerates(g, es) && next == RelaxAll(Search(st.score, st.closed + {v}, rest), e, v, es, w, h)
  }

  /** The search can be in state `st` after `n` turns. */
  ghost predicate Turns(g: Topology, w: WeightFunc, h: Heuristic, s: Uuid, t: Uuid, n: nat, st: Search)
    decreases n
  {
    if n == 0 then st == StartOf(g, h, s)
    else exists before, e, rest :: Turns(g, w, h, s, t, n - 1, before) && TurnOn(g, w, h, t, before, e, rest, st)
  }

  /** The search can answer with `path`. */
  ghost predicate Answers(g: Topology, w: WeightFunc, h: Heuristic, s: Uuid, t: Uuid, path: seq<Uuid>) {
    exists n: nat, st, e: Entry, rest :: Turns(g, w, h, s, t, n, st) && Pops(st.open, e, rest) && EndsAt(e, t) && e.nodes == path
  }

  lemma TurnKeeps(g: Topology, w: WeightFunc, h: Heuristic, s: Uuid, t: Uuid, st: Search, e: Entry,
                  rest: multiset<Entry>, next: Search)
    requires Keyed(g) && NonNegative(g.edges, w) && Consistent(g, w, h)
    requires SearchInv(g.nodes.Keys, PresentArcs(g), ArcWeights(g.edges, w), s, h, st, {})
    requires TurnOn(g, w, h, t, st, e, rest, next)
    ensures SearchInv(g.nodes.Keys, PresentArcs(g), ArcWeights(g.edges, w), s, h, next, {})
  {
    hide SearchInv, Consistent, Expanding, RelaxAll, NonNegative, Keyed, PresentArcs, ArcWeights;
    var N, E, W, v := g.nodes.Keys, PresentArcs(g), ArcWeights(g.edges, w), e.nodes[|e.nodes| - 1];
    ConsistentArcs(g, w, h);
    if v in st.closed {
      DropEntry(N, E, W, s, h, st, e);
    } else {
      var closing := Search(st.score, st.closed + {v}, rest);
      var es :| Enumerates(g, es) && next == RelaxAll(closing, e, v, es, w, h);
      CloseEntry(N, E, W, s, h, st, e, v);
      FinishClosing(g, w, s, h, closing, e, v, es);
    }
  }

  lemma {:induction false} TurnsKeep(g: Topology, w: WeightFunc, h: Heuristic, s: Uuid, t: Uuid, n: nat, st: Search)
    requires Keyed(g) && NonNegative(g.edges, w) && Consistent(g, w, h) && s in g.nodes && Turns(g, w, h, s, t, n, st)
    ensures SearchInv(g.nodes.Keys, PresentArcs(g), ArcWeights(g.edges, w), s, h, st, {})
    decreases n
  {
    hide SearchInv, Consistent, TurnOn, NonNegative, Keyed, PresentArcs, ArcWeights;
    if n == 0 {
      StartSearch(g.nodes.Keys, PresentArcs(g), ArcWeights(g.edges, w), s, h, st.score);
    } else {
      var before, e, rest :| Turns(g, w, h, s, t, n - 1, before) && TurnOn(g, w, h, t, before, e, rest, st);
      TurnsKeep(g, w, h, s, t, n - 1, before);
      TurnKeeps(g, w, h, s, t, before, e, rest, st);
    }
  }

  /** For a consistent heuristic every answer is a lightest path. */
  lemma AnswersLightest(g: Topology, w: WeightFunc, h: Heuristic, s: Uuid, t: Uuid, path: seq<Uuid>)
    requires Keyed(g) && NonNegative(g.edges, w) && Consistent(g, w, h) && s in g.nodes && Answers(g, w, h, s, t, path)
    ensures LightestPath(PresentArcs(g), ArcWeights(g.edges, w), path, s, t)
  {
    hide SearchInv, Consistent, Turns, NonNegative, Keyed, PresentArcs, ArcWeights, LightestPath;
    var n: nat, st, e: Entry, rest :| Turns(g, w, h, s, t, n, st) && Pops(st.open, e, rest) && EndsAt(e, t) && e.nodes == path;
    TurnsKeep(g, w, h, s, t, n, st);
    TargetOpen(g, w, h, s, t, n, st);
    ConsistentArcs(g, w, h);
    PopOptimal(g.nodes.Keys, PresentArcs(g), ArcWeights(g.edges, w), s, h, st, e, t);
  }

  lemma {:induction false} TargetOpen(g: Topology, w: WeightFunc, h: Heuristic, s: Uuid, t: Uuid, n: nat, st: Search)
    requires Turns(g, w, h, s, t, n, st)
    ensures t !in st.closed
    decreases n
  {
    hide Enumerates, Pops, RelaxAll;
    if n == 0 {
    } else {
      var before, e, rest :| Turns(g, w, h, s, t, n - 1, before) && TurnOn(g, w, h, t, before, e, rest, st);
      TargetOpen(g, w, h, s, t, n - 1, before);
    }
  }

  // ---- The search ----

  /** One edge of the scan after `v` is closed, as A* treats it. */
  method RelaxEstimate(ghost st: Search, gScore: map<Uuid, Score>, open: multiset<Entry>, current: Entry, v: Uuid,
                       edge: CallEdge, w: WeightFunc, heuristic: Heuristic)
    returns (gScore': map<Uuid, Score>, open': multiset<Entry>)
    requires Scored(st.score, v) && gScore == st.score && open == st.open
    ensures var r := Relax(st, current, v, edge, w, heuristic); gScore' == r.score && open' == r.open
  {
    gScore', open' := gScore, open;
    if edge.source != v {
      return;
    }
    var tentative := gScore[v].value + w(edge);
    if Improves(tentative, ScoreOf(gScore, edge.target)) {
      gScore' := gScore[edge.target := Finite(tentative)];
      open' := open + multiset{Entry(current.nodes + [edge.target], tentative + heuristic(edge.target))};
    }
  }

  method RelaxEstimates(ghost st: Search, gScore0: map<Uuid, Score>, open0: multiset<Entry>, current: Entry, v: Uuid,
                        es: seq<CallEdge>, w: WeightFunc, heuristic: Heuristic)
    returns (gScore: map<Uuid, Score>, open: multiset<Entry>)
    requires Scored(st.score, v) && gScore0 == st.score && open0 == st.open
    ensures var r := RelaxAll(st, current, v, es, w, heuristic); gScore == r.score && open == r.open
  {
    hide Relax;
    gScore, open := gScore0, open0;
    ghost var now := st;
    for i := 0 to |es|
      invariant now == RelaxAll(st, current, v, es[..i], w, heuristic)
      invariant gScore == now.score && open == now.open
    {
      RelaxNext(st, current, v, es, i, w, heuristic);
      gScore, open := RelaxEstimate(now, gScore, open, current, v, es[i], w, heuristic);
      now := Relax(now, current, v, es[i], w, heuristic);
    }
    assert es[..|es|] == es;
  }

  /** Finds a simple path through present nodes exactly when there is one; with a
      consistent heuristic the closed set loses nothing and the path is a lightest one. */
  method FindShortestPathAStar(graph: InMemoryGraph?, source: Uuid, target: Uuid, weightFunc: Option<WeightFunc>,
                               heuristic: Heuristic)
    returns (res: Result<seq<Uuid>>)
    requires graph != null ==> graph.Valid() && NonNegative(graph.edges, OrUnit(weightFunc))
    ensures graph == null ==> res == Err(GraphNotReady)
    ensures graph != null && (source !in graph.nodes || target !in graph.nodes) ==> res == Err(NodeNotFound)
    ensures graph != null && source in graph.nodes && target in graph.nodes ==>
              if Reachable(PresentArcs(graph.View()), source, target)
              then res.Ok? && SimplePath(PresentArcs(graph.View()), res.value, source, target)
              else res == Err(PathNotFound)
    ensures res.Ok? ==> Answers(graph.View(), OrUnit(weightFunc), heuristic, source, target, res.value)
    ensures res.Ok? && Consistent(graph.View(), OrUnit(weightFunc), heuristic) ==>
              LightestPath(PresentArcs(graph.View()), ArcWeights(graph.edges, OrUnit(weightFunc)), res.value, source, target)
  {
    hide LightestPath, Reachable, RelaxAll, BasicInv, Growing, SimplePath, Consistent, Turns, TurnOn, Answers,
         Enumerates, Pops, Keyed, Transposed, NonNegative, PresentArcs, ArcWeights, StartOf;
    if graph == null {
      return Err(GraphNotReady);
    }
    if graph.GetNode(source).None? || graph.GetNode(target).None? {
      return Err(NodeNotFound);
    }
    var w := OrUnit(weightFunc);
    ghost var g := graph.View();
    ghost var N, E := g.nodes.Keys, PresentArcs(g);
    ghost var n: nat := 0;
    var gScore := InitialScores(graph, source);
    var closed: set<Uuid> := {};
    var open := multiset{Entry([source], heuristic(source))};
    BasicStart(N, E, source, gScore, heuristic(source));
    TurnsStart(g, w, heuristic, source, target, gScore);
    while |open| > 0
      invariant BasicInv(N, E, source, Search(gScore, closed, open), {})
      invariant Turns(g, w, heuristic, source, target, n, Search(gScore, closed, open))
      invariant target !in closed && closed <= N
      decreases N - closed, |open|
    {
      ghost var st := Search(gScore, closed, open);
      var current, rest := HeapPop(open);
      open := rest;
      assert Pops(st.open, current, rest) by { PopsAs(st.open, current, rest); }
      BasicEntry(N, E, source, st, current);
      var v := current.nodes[|current.nodes| - 1];
      if v == target {
        TurnsAnswer(g, w, heuristic, source, target, n, st, current, rest);
        if Consistent(g, w, heuristic) {
          AnswersLightest(g, w, heuristic, source, target, current.nodes);
        }
        SimpleReached(E, current.nodes, source, target);
        return Ok(current.nodes);
      }
      if v in closed {
        BasicDrop(N, E, source, st, current);
        DropTurn(g, w, heuristic, source, target, n, st, current, rest, v);
        n := n + 1;
        continue;
      }
      BasicClose(N, E, source, st, current, v);
      assert v in N - closed;
      closed := closed + {v};
      var es := graph.GetAllEdges();
      ghost var closing := Search(gScore, closed, open);
      GrowingScored(E, source, closing, current, v);
      BasicFinish(g, w, source, heuristic, closing, current, v, es);
      EnumeratesAs(g, es);
      ScanTurn(g, w, heuristic, source, target, n, st, current, rest, v, es);
      n := n + 1;
      gScore, open := RelaxEstimates(closing, gScore, open, current, v, es, w, heuristic);
    }
    BasicExhausted(N, E, source, Search(gScore, closed, open), target);
    res := Err(PathNotFound);
  }

  lemma PopsAs(before: multiset<Entry>, c: Entry, after: multiset<Entry>)
    requires c in before && (forall x :: x in before ==> c.cost <= x.cost) && after == before - multiset{c}
    ensures Pops(before, c, after)
  {
  }

  lemma EnumeratesAs(g: Topology, es: seq<CallEdge>)
    requires forall e :: e in es <==> e.id in g.edges && g.edges[e.id] == e
    requires forall i, j :: 0 <= i < j < |es| ==> es[i].id != es[j].id
    ensures Enumerates(g, es)
  {
  }

  lemma TurnsStart(g: Topology, w: WeightFunc, h: Heuristic, s: Uuid, t: Uuid, score: map<Uuid, Score>)
    requires score == (map v | v in g.nodes.Keys :: Infinite)[s := Finite(0.0)]
    ensures Turns(g, w, h, s, t, 0, Search(score, {}, multiset{Entry([s], h(s))}))
  {
  }

  lemma TurnsAnswer(g: Topology, w: WeightFunc, h: Heuristic, s: Uuid, t: Uuid, n: nat, st: Search, e: Entry,
                    rest: multiset<Entry>)
    requires Turns(g, w, h, s, t, n, st) && Pops(st.open, e, rest) && EndsAt(e, t)
    ensures Answers(g, w, h, s, t, e.nodes)
  {
  }

  lemma DropTurn(g: Topology, w: WeightFunc, h: Heuristic, s: Uuid, t: Uuid, n: nat, st: Search, e: Entry,
                 rest: multiset<Entry>, v: Uuid)
    requires Turns(g, w, h, s, t, n, st) && Pops(st.open, e, rest) && EndsAt(e, v) && v != t && v in st.closed
    ensures Turns(g, w, h, s, t, n + 1, Search(st.score, st.closed, rest))
  {
    hide Pops;
    assert TurnOn(g, w, h, t, st, e, rest, Search(st.score, st.closed, rest));
  }

  lemma ScanTurn(g: Topology, w: WeightFunc, h: Heuristic, s: Uuid, t: Uuid, n: nat, st: Search, e: Entry,
                 rest: multiset<Entry>,
                 v: Uuid, es: seq<CallEdge>)
    requires Turns(g, w, h, s, t, n, st) && Pops(st.open, e, rest) && EndsAt(e, v) && v != t && v !in st.closed
    requires Scored(st.score, v) && Enumerates(g, es)
    ensures Turns(g, w, h, s, t, n + 1, RelaxAll(Search(st.score, st.closed + {v}, rest), e, v, es, w, h))
  {
    hide Pops, Enumerates, RelaxAll;
    assert TurnOn(g, w, h, t, st, e, rest, RelaxAll(Search(st.score, st.closed + {v}, rest), e, v, es, w, h));
  }

  lemma GrowingScored(E: set<Arc>, s: Uuid, st: Search, e: Entry, v: Uuid)
    requires Growing(E, s, st, e, v)
    ensures Scored(st.score, v)
  {
  }

  lemma SimpleReached(E: set<Arc>, p: seq<Uuid>, s: Uuid, t: Uuid)
    requires SimplePath(E, p, s, t)
    ensures Reachable(E, s, t)
  {
    WalkSteps(E, p, s, t);
  }

  /** The smallest positive weight below one, or one: the value of the constant
      heuristic that callers are offered. */
  method DefaultHeuristicValue(graph: InMemoryGraph, weightFunc: Option<WeightFunc>) returns (minWeight: real)
    requires graph.Valid()
    ensures 0.0 < minWeight <= 1.0
    ensures forall id :: id in graph.edges && OrUnit(weightFunc)(graph.edges[id]) > 0.0 ==>
              minWeight <= OrUnit(weightFunc)(graph.edges[id])
    ensures minWeight == 1.0 || exists id :: id in graph.edges && OrUnit(weightFunc)(graph.edges[id]) == minWeight
  {
    var w := OrUnit(weightFunc);
    minWeight := 1.0;
    var es := graph.GetAllEdges();
    for i := 0 to |es|
      invariant 0.0 < minWeight <= 1.0
      invariant forall j :: 0 <= j < i && w(es[j]) > 0.0 ==> minWeight <= w(es[j])
      invariant minWeight == 1.0 || exists id :: id in graph.edges && w(graph.edges[id]) == minWeight
    {
      var weight := w(es[i]);
      if weight > 0.0 && weight < minWeight {
        minWeight := weight;
        assert es[i] in es;
        assert w(graph.edges[es[i].id]) == minWeight;
      }
    }
    forall id | id in graph.edges && w(graph.edges[id]) > 0.0 ensures minWeight <= w(graph.edges[id]) {
      assert graph.edges[id] in es;
    }
  }

  /** Any constant is consistent, whatever its value at the target, as long as
      no weight is negative. */
  lemma ConstantConsistent(g: Topology, w: WeightFunc, c: real)
    requires NonNegative(g.edges, w)
    ensures Consistent(g, w, _ => c)
  {
  }
}
