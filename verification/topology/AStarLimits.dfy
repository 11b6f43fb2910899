/** Which heuristics A* with a closed set can be trusted with on every graph. */
module AStarLimits {
  import opened Domain
  import opened Walks
  import opened Graph
  import opened WeightedSearch
  import opened Rebuilds
  import opened AStar

  /** A request that meets every precondition of the search, on a rebuild from
      records without any irregularity. */
  ghost predicate RegularRequest(g: Topology, w: WeightFunc, s: Uuid, t: Uuid) {
    && (exists ns, es :: Clean(ns, es) && g == Rebuilt(ns, es))
    && NonNegative(g.edges, w) && s in g.nodes && t in g.nodes
  }

  /** Every answer on every regular request is a lightest path. */
  ghost predicate Trustworthy(h: Heuristic) {
    forall g, w, s, t, path :: RegularRequest(g, w, s, t) && Answers(g, w, h, s, t, path) ==>
      LightestPath(PresentArcs(g), ArcWeights(g.edges, w), path, s, t)
  }

  // ---- Where the heuristic drops too far ----

  /** Two free edges over `u`, and a direct one of weight `c`. */
  ghost function Shortcut(s: Uuid, u: Uuid, v: Uuid, c: real): Topology {
    Rebuilt([Node(s), Node(u), Node(v)], TriangleRecords(s, u, v, 0.0, c, 0.0))
  }

  function Node(id: Uuid): ServiceNode {
    ServiceNode(id, Healthy, 0.0, Normal, 0.0)
  }

  ghost predicate Misled(h: Heuristic, s: Uuid, u: Uuid, v: Uuid, c: real) {
    s != u && s != v && u != v && 0.0 < c < h(u) - h(v)
  }

  lemma ShortcutNodes(s: Uuid, u: Uuid, v: Uuid)
    ensures NodeTable([Node(s), Node(u), Node(v)]).Keys == {s, u, v}
  {
    var one, two, ns := [Node(s)], [Node(s), Node(u)], [Node(s), Node(u), Node(v)];
    assert one[..0] == [] && two[..1] == one && ns[..2] == two;
    assert NodeTable(one).Keys == {s};
    assert NodeTable(two).Keys == {s, u};
  }

  lemma ShortcutGraph(s: Uuid, u: Uuid, v: Uuid, c: real)
    requires s != u && s != v && u != v && c >= 0.0
    ensures var g := Shortcut(s, u, v, c);
            && RegularRequest(g, Latency, s, v) && g.nodes.Keys == {s, u, v}
            && PresentArcs(g) == {Arc(s, u), Arc(s, v), Arc(u, v)}
            && Enumerates(g, TriangleRecords(s, u, v, 0.0, c, 0.0))
  {
    hide NodeTable, EdgeTable, PresentArcs, EdgeArcs, Keyed, Transposed, NoParallelEdges, StartsIn;
    var ns, es := [Node(s), Node(u), Node(v)], TriangleRecords(s, u, v, 0.0, c, 0.0);
    ShortcutNodes(s, u, v);
    assert Clean(ns, es);
    CleanGraph(ns, es);
    PlainGraph(ns, es);
    assert RecordArcs(es) == {Arc(s, u), Arc(s, v), Arc(u, v)} by {
      assert ArcOf(es[0]) == Arc(s, u) && ArcOf(es[1]) == Arc(s, v) && ArcOf(es[2]) == Arc(u, v);
    }
    assert forall i :: 0 <= i < 3 ==> es[i] in es;
  }

  lemma ShortcutCosts(s: Uuid, u: Uuid, v: Uuid, c: real)
    requires s != u && s != v && u != v && c >= 0.0
    ensures var W := ArcWeights(Shortcut(s, u, v, c).edges, Latency);
            Cost(W, [s, v]) == c && Cost(W, [s, u, v]) == 0.0
  {
    hide NodeTable, EdgeTable, ArcWeights, Cost, WeightOf;
    var ns, es := [Node(s), Node(u), Node(v)], TriangleRecords(s, u, v, 0.0, c, 0.0);
    var W := ArcWeights(Shortcut(s, u, v, c).edges, Latency);
    forall i: nat | i < 3 ensures WeightOf(W, ArcOf(es[i])) == es[i].latency {
      PlainWeight(ns, es, Latency, i);
    }
    assert ArcOf(es[0]) == Arc(s, u) && ArcOf(es[1]) == Arc(s, v) && ArcOf(es[2]) == Arc(u, v);
    TwoArcCost(W, s, u, v);
    TwoArcCost(W, s, v, v);
  }

  /** The search after the source was closed and some of its edges were scanned: the
      one to `u`, the one to `v`, both or none. */
  ghost function Scanned(h: Heuristic, s: Uuid, u: Uuid, v: Uuid, c: real, toU: bool, toV: bool): Search {
    Search(map[s := Finite(0.0), u := if toU then Finite(0.0) else Infinite, v := if toV then Finite(c) else Infinite], {s},
           (if toU then multiset{Entry([s, u], h(u))} else multiset{})
           + (if toV then multiset{Entry([s, v], c + h(v))} else multiset{}))
  }

  /** Scanning an edge of weight `x` from the closed source to an open service. */
  lemma RelaxPushes(h: Heuristic, st: Search, s: Uuid, edge: CallEdge)
    requires edge.source == s && s in st.score && st.score[s] == Finite(0.0)
    requires edge.target in st.score && st.score[edge.target].Infinite?
    ensures Relax(st, Entry([s], h(s)), s, edge, Latency, h)
         == Search(st.score[edge.target := Finite(edge.latency)], st.closed,
                   st.open + multiset{Entry([s, edge.target], edge.latency + h(edge.target))})
  {
    assert [s] + [edge.target] == [s, edge.target];
  }

  lemma ScanToU(h: Heuristic, s: Uuid, u: Uuid, v: Uuid, c: real, toV: bool)
    requires Misled(h, s, u, v, c)
    ensures Scored(Scanned(h, s, u, v, c, false, toV).score, s)
    ensures Relax(Scanned(h, s, u, v, c, false, toV), Entry([s], h(s)), s,
                  TriangleRecords(s, u, v, 0.0, c, 0.0)[0], Latency, h)
         == Scanned(h, s, u, v, c, true, toV)
  {
    hide Relax;
    RelaxPushes(h, Scanned(h, s, u, v, c, false, toV), s, TriangleRecords(s, u, v, 0.0, c, 0.0)[0]);
  }

  lemma ScanToV(h: Heuristic, s: Uuid, u: Uuid, v: Uuid, c: real, toU: bool)
    requires Misled(h, s, u, v, c)
    ensures Scored(Scanned(h, s, u, v, c, toU, false).score, s)
    ensures Relax(Scanned(h, s, u, v, c, toU, false), Entry([s], h(s)), s,
                  TriangleRecords(s, u, v, 0.0, c, 0.0)[1], Latency, h)
         == Scanned(h, s, u, v, c, toU, true)
  {
    hide Relax;
    RelaxPushes(h, Scanned(h, s, u, v, c, toU, false), s, TriangleRecords(s, u, v, 0.0, c, 0.0)[1]);
  }

  lemma ScanFromU(h: Heuristic, s: Uuid, u: Uuid, v: Uuid, c: real, toU: bool, toV: bool)
    requires Misled(h, s, u, v, c)
    ensures Relax(Scanned(h, s, u, v, c, toU, toV), Entry([s], h(s)), s,
                  TriangleRecords(s, u, v, 0.0, c, 0.0)[2], Latency, h)
         == Scanned(h, s, u, v, c, toU, toV)
  {
  }

  /** In whatever order the edges are scanned. */
  lemma {:induction false} ScanPrefix(h: Heuristic, s: Uuid, u: Uuid, v: Uuid, c: real, es: seq<CallEdge>, n: nat)
    requires Misled(h, s, u, v, c) && n <= |es|
    requires forall x :: x in es ==> x in TriangleRecords(s, u, v, 0.0, c, 0.0)
    requires forall i, j :: 0 <= i < j < |es| ==> es[i].id != es[j].id
    ensures var e := TriangleRecords(s, u, v, 0.0, c, 0.0);
            RelaxAll(Scanned(h, s, u, v, c, false, false), Entry([s], h(s)), s, es[..n], Latency, h)
            == Scanned(h, s, u, v, c, e[0] in es[..n], e[1] in es[..n])
    decreases n
  {
    hide Relax, RelaxAll, Misled, Scanned, TriangleRecords, Scored;
    var first := Scanned(h, s, u, v, c, false, false);
    ScannedSource(h, s, u, v, c);
    if n == 0 {
      assert es[..0] == [];
      NoneRelaxed(first, Entry([s], h(s)), s, h);
    } else {
      var x := es[n - 1];
      ScanPrefix(h, s, u, v, c, es, n - 1);
      RelaxNext(first, Entry([s], h(s)), s, es, n - 1, Latency, h);
      assert es[..n] == es[..n - 1] + [x] && x in es && x !in es[..n - 1];
      ScanStep(h, s, u, v, c, es[..n - 1], x);
    }
  }

  lemma ScannedSource(h: Heuristic, s: Uuid, u: Uuid, v: Uuid, c: real)
    requires Misled(h, s, u, v, c)
    ensures forall toU, toV :: Scored(Scanned(h, s, u, v, c, toU, toV).score, s)
  {
  }

  lemma ScanStep(h: Heuristic, s: Uuid, u: Uuid, v: Uuid, c: real, es: seq<CallEdge>, x: CallEdge)
    requires Misled(h, s, u, v, c) && x in TriangleRecords(s, u, v, 0.0, c, 0.0) && x !in es
    ensures var e := TriangleRecords(s, u, v, 0.0, c, 0.0);
            && Scored(Scanned(h, s, u, v, c, e[0] in es, e[1] in es).score, s)
            && Relax(Scanned(h, s, u, v, c, e[0] in es, e[1] in es), Entry([s], h(s)), s, x, Latency, h)
               == Scanned(h, s, u, v, c, e[0] in es + [x], e[1] in es + [x])
  {
    hide Relax, Scanned, Misled, Scored;
    var e := TriangleRecords(s, u, v, 0.0, c, 0.0);
    ScannedSource(h, s, u, v, c);
    assert forall y :: y in es + [x] <==> y in es || y == x;
    if x == e[0] {
      ScanToU(h, s, u, v, c, e[1] in es);
    } else if x == e[1] {
      ScanToV(h, s, u, v, c, e[0] in es);
    } else {
      ScanFromU(h, s, u, v, c, e[0] in es, e[1] in es);
    }
  }

  lemma NoneRelaxed(st: Search, e: Entry, v: Uuid, h: Heuristic)
    requires Scored(st.score, v)
    ensures RelaxAll(st, e, v, [], Latency, h) == st
  {
  }

  lemma StartScan(h: Heuristic, s: Uuid, u: Uuid, v: Uuid, c: real)
    requires Misled(h, s, u, v, c)
    ensures var st := StartOf(Shortcut(s, u, v, c), h, s);
            && Search(st.score, {s}, multiset{}) == Scanned(h, s, u, v, c, false, false)
            && st.closed == {} && st.open == multiset{Entry([s], h(s))}
  {
    hide EdgeTable, NodeTable, Forward, Backward;
    ShortcutNodes(s, u, v);
  }

  /** Every enumeration of the edges leaves the same state. */
  lemma ScanAll(h: Heuristic, s: Uuid, u: Uuid, v: Uuid, c: real, es: seq<CallEdge>)
    requires Misled(h, s, u, v, c) && Enumerates(Shortcut(s, u, v, c), es)
    ensures RelaxAll(Scanned(h, s, u, v, c, false, false), Entry([s], h(s)), s, es, Latency, h)
         == Scanned(h, s, u, v, c, true, true)
  {
    hide RelaxAll, Scanned, EdgeTable, NodeTable, Misled;
    var records := TriangleRecords(s, u, v, 0.0, c, 0.0);
    assert s != u && s != v && u != v && c >= 0.0 by { MisledApart(h, s, u, v, c); }
    ShortcutGraph(s, u, v, c);
    assert forall x :: x in es <==> x in records;
    assert es[..|es|] == es;
    ScanPrefix(h, s, u, v, c, es, |es|);
    assert records[0] in es && records[1] in es;
  }

  lemma MisledApart(h: Heuristic, s: Uuid, u: Uuid, v: Uuid, c: real)
    requires Misled(h, s, u, v, c)
    ensures s != u && s != v && u != v && c > 0.0
  {
  }

  /** What every run on this graph looks like: the source first, and then the target
      by the direct edge, before `u` is looked at. */
  lemma {:induction false} MisledTurns(h: Heuristic, s: Uuid, u: Uuid, v: Uuid, c: real, n: nat, st: Search)
    requires Misled(h, s, u, v, c) && Turns(Shortcut(s, u, v, c), Latency, h, s, v, n, st)
    ensures n <= 1
    ensures n == 0 ==> st == StartOf(Shortcut(s, u, v, c), h, s)
    ensures n == 1 ==> st == Scanned(h, s, u, v, c, true, true)
    decreases n
  {
    hide TurnOn, Shortcut, StartOf, Scanned, Misled;
    if n == 0 {
    } else {
      var g := Shortcut(s, u, v, c);
      var before, e, rest :| Turns(g, Latency, h, s, v, n - 1, before) && TurnOn(g, Latency, h, v, before, e, rest, st);
      MisledTurns(h, s, u, v, c, n - 1, before);
      if n == 1 {
        FirstTurn(h, s, u, v, c, e, rest, st);
      } else {
        NoSecondTurn(h, s, u, v, c, e, rest, st);
      }
    }
  }

  lemma FirstTurn(h: Heuristic, s: Uuid, u: Uuid, v: Uuid, c: real, e: Entry, rest: multiset<Entry>, next: Search)
    requires Misled(h, s, u, v, c)
    requires TurnOn(Shortcut(s, u, v, c), Latency, h, v, StartOf(Shortcut(s, u, v, c), h, s), e, rest, next)
    ensures next == Scanned(h, s, u, v, c, true, true)
  {
    hide Shortcut, StartOf, Scanned, Misled, RelaxAll, Enumerates;
    var g := Shortcut(s, u, v, c);
    var st := StartOf(g, h, s);
    StartScan(h, s, u, v, c);
    assert e == Entry([s], h(s)) && rest == multiset{};
    var es :| Enumerates(g, es) && next == RelaxAll(Search(st.score, st.closed + {s}, rest), e, s, es, Latency, h);
    assert st.closed + {s} == {s};
    ScanAll(h, s, u, v, c, es);
  }

  lemma OnlyDirect(h: Heuristic, s: Uuid, u: Uuid, v: Uuid, c: real, e: Entry, rest: multiset<Entry>)
    requires Misled(h, s, u, v, c) && Pops(Scanned(h, s, u, v, c, true, true).open, e, rest)
    ensures e.nodes == [s, v]
  {
    assert Entry([s, v], c + h(v)) in Scanned(h, s, u, v, c, true, true).open;
  }

  lemma NoSecondTurn(h: Heuristic, s: Uuid, u: Uuid, v: Uuid, c: real, e: Entry, rest: multiset<Entry>, next: Search)
    requires Misled(h, s, u, v, c)
    ensures !TurnOn(Shortcut(s, u, v, c), Latency, h, v, Scanned(h, s, u, v, c, true, true), e, rest, next)
  {
    hide Shortcut, Scanned, Misled, RelaxAll, Enumerates, Pops;
    if TurnOn(Shortcut(s, u, v, c), Latency, h, v, Scanned(h, s, u, v, c, true, true), e, rest, next) {
      OnlyDirect(h, s, u, v, c, e, rest);
    }
  }

  /** With a heuristic that drops from `u` to `v` by more than the direct edge weighs,
      the search must answer with that edge, although the way over `u` is free. */
  lemma MisledAnswer(h: Heuristic, s: Uuid, u: Uuid, v: Uuid, c: real, path: seq<Uuid>)
    requires Misled(h, s, u, v, c)
    ensures var g := Shortcut(s, u, v, c);
            && (Answers(g, Latency, h, s, v, path) <==> path == [s, v])
            && !LightestPath(PresentArcs(g), ArcWeights(g.edges, Latency), [s, v], s, v)
  {
    hide Shortcut, StartOf, Scanned, Misled, Turns, Cost, ArcWeights, PresentArcs, Pops, RegularRequest, Enumerates;
    var g := Shortcut(s, u, v, c);
    MisledApart(h, s, u, v, c);
    ShortcutGraph(s, u, v, c);
    ShortcutCosts(s, u, v, c);
    assert WalkFromTo(PresentArcs(g), [s, u, v], s, v);
    if Answers(g, Latency, h, s, v, path) {
      var n: nat, st, e: Entry, rest :|
        Turns(g, Latency, h, s, v, n, st) && Pops(st.open, e, rest) && EndsAt(e, v) && e.nodes == path;
      MisledTurns(h, s, u, v, c, n, st);
      if n == 0 {
        StartPops(h, s, u, v, c, e, rest);
      } else {
        OnlyDirect(h, s, u, v, c, e, rest);
      }
    }
    DirectAnswer(h, s, u, v, c);
  }

  lemma StartPops(h: Heuristic, s: Uuid, u: Uuid, v: Uuid, c: real, e: Entry, rest: multiset<Entry>)
    requires Misled(h, s, u, v, c) && Pops(StartOf(Shortcut(s, u, v, c), h, s).open, e, rest)
    ensures e.nodes == [s] && !EndsAt(e, v)
  {
    hide Shortcut;
  }

  lemma DirectAnswer(h: Heuristic, s: Uuid, u: Uuid, v: Uuid, c: real)
    requires Misled(h, s, u, v, c)
    ensures Answers(Shortcut(s, u, v, c), Latency, h, s, v, [s, v])
  {
    hide Shortcut, StartOf, Turns, Enumerates, RelaxAll, TurnOn, Scanned, Misled, Pops, Answers, PresentArcs, RegularRequest;
    MisledApart(h, s, u, v, c);
    ScannedSource(h, s, u, v, c);
    var g, es := Shortcut(s, u, v, c), TriangleRecords(s, u, v, 0.0, c, 0.0);
    var st := StartOf(g, h, s);
    ShortcutGraph(s, u, v, c);
    StartScan(h, s, u, v, c);
    StartIs(g, h, s);
    TurnsStart(g, Latency, h, s, v, st.score);
    assert st.closed == {} && st.closed + {s} == {s};
    OnePop(Entry([s], h(s)));
    ScanTurn(g, Latency, h, s, v, 0, st, Entry([s], h(s)), multiset{}, s, es);
    ScanAll(h, s, u, v, c, es);
    var now, e := Scanned(h, s, u, v, c, true, true), Entry([s, v], c + h(v));
    DirectPops(h, s, u, v, c);
    TurnsAnswer(g, Latency, h, s, v, 1, now, e, now.open - multiset{e});
  }

  lemma OnePop(e: Entry)
    ensures Pops(multiset{e}, e, multiset{})
  {
  }

  lemma DirectPops(h: Heuristic, s: Uuid, u: Uuid, v: Uuid, c: real)
    requires Misled(h, s, u, v, c)
    ensures var now, e := Scanned(h, s, u, v, c, true, true), Entry([s, v], c + h(v));
            Pops(now.open, e, now.open - multiset{e})
  {
  }

  lemma StartIs(g: Topology, h: Heuristic, s: Uuid)
    ensures StartOf(g, h, s).score == (map v | v in g.nodes.Keys :: Infinite)[s := Finite(0.0)]
    ensures StartOf(g, h, s) == Search(StartOf(g, h, s).score, {}, multiset{Entry([s], h(s))})
  {
  }

  // ---- Only constant heuristics ----

  /** Every answer on every regular request is a lightest path if and only if the
      heuristic is constant. */
  lemma TrustworthyIff(h: Heuristic)
    ensures Trustworthy(h) <==> forall u, v :: h(u) == h(v)
  {
    hide Answers, LightestPath, RegularRequest, Misled;
    forall u, v | h(u) > h(v) ensures !Trustworthy(h) {
      DropFails(h, u, v);
    }
    if forall u, v :: h(u) == h(v) {
      forall g, w, s, t, path | RegularRequest(g, w, s, t) && Answers(g, w, h, s, t, path)
        ensures LightestPath(PresentArcs(g), ArcWeights(g.edges, w), path, s, t)
      {
        ConstantAnswers(g, w, h, s, t, path);
      }
    }
  }

  lemma DropFails(h: Heuristic, u: Uuid, v: Uuid)
    requires h(u) > h(v)
    ensures !Trustworthy(h)
  {
    hide Answers, LightestPath, RegularRequest, Shortcut, Misled, Trustworthy, PresentArcs, ArcWeights, Enumerates;
    var s, c := Uuid(u.bits + v.bits + 1), (h(u) - h(v)) / 2.0;
    HalfTheDrop(h, s, u, v, c);
    MisledApart(h, s, u, v, c);
    ShortcutGraph(s, u, v, c);
    MisledAnswer(h, s, u, v, c, [s, v]);
    if Trustworthy(h) {
      TrustGives(h, Shortcut(s, u, v, c), Latency, s, v, [s, v]);
    }
  }

  lemma HalfTheDrop(h: Heuristic, s: Uuid, u: Uuid, v: Uuid, c: real)
    requires h(u) > h(v) && s == Uuid(u.bits + v.bits + 1) && c == (h(u) - h(v)) / 2.0
    ensures Misled(h, s, u, v, c)
  {
  }

  lemma TrustGives(h: Heuristic, g: Topology, w: WeightFunc, s: Uuid, t: Uuid, path: seq<Uuid>)
    requires Trustworthy(h) && RegularRequest(g, w, s, t) && Answers(g, w, h, s, t, path)
    ensures LightestPath(PresentArcs(g), ArcWeights(g.edges, w), path, s, t)
  {
    hide Answers, RegularRequest, LightestPath;
  }

  lemma ConstantAnswers(g: Topology, w: WeightFunc, h: Heuristic, s: Uuid, t: Uuid, path: seq<Uuid>)
    requires RegularRequest(g, w, s, t) && Answers(g, w, h, s, t, path) && forall u, v :: h(u) == h(v)
    ensures LightestPath(PresentArcs(g), ArcWeights(g.edges, w), path, s, t)
  {
    hide Answers, LightestPath, Clean, Rebuilt;
    var ns, es :| Clean(ns, es) && g == Rebuilt(ns, es);
    CleanGraph(ns, es);
    AnswersLightest(g, w, h, s, t, path);
  }
}
