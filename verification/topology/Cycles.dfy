/** Cycle detection by depth-first search with a recursion stack. */
module Cycles {
  import opened Domain
  import opened Sequences
  import opened Walks
  import opened Graph

  /** A directed cycle without repeats, including its closing arc. */
  ghost predicate IsCycle(E: set<Arc>, c: seq<Uuid>) {
    IsWalk(E, c) && Distinct(c) && Arc(c[|c| - 1], c[0]) in E
  }

  ghost predicate ReachableFrom(E: set<Arc>, roots: set<Uuid>, v: Uuid) {
    exists r :: r in roots && Reachable(E, r, v)
  }

  /** What a search has seen: the path it is on, the identifiers it has finished in
      that order, and the cycles reported so far. */
  datatype State = State(visited: set<Uuid>, path: seq<Uuid>, finished: seq<Uuid>, cycles: seq<seq<Uuid>>)

  /** Each finished identifier comes after everything its arcs lead to: the
      finishing order is a reversed topological order. */
  ghost predicate Ordered(E: set<Arc>, finished: seq<Uuid>) {
    forall i, v :: 0 <= i < |finished| && Arc(finished[i], v) in E ==> v in finished[..i]
  }

  ghost predicate OnPath(E: set<Arc>, path: seq<Uuid>) {
    Distinct(path) && forall i :: 0 <= i < |path| - 1 ==> Arc(path[i], path[i + 1]) in E
  }

  ghost predicate Partitioned(visited: set<Uuid>, path: seq<Uuid>, finished: seq<Uuid>) {
    && (forall v :: v in visited <==> v in path || v in finished)
    && (forall v :: v in path ==> v !in finished)
  }

  ghost predicate FinishedClosed(E: set<Arc>, visited: set<Uuid>, finished: seq<Uuid>) {
    forall u, v :: u in finished && Arc(u, v) in E ==> v in visited
  }

  ghost predicate Reported(E: set<Arc>, visited: set<Uuid>, cycles: seq<seq<Uuid>>) {
    forall i :: 0 <= i < |cycles| ==> IsCycle(E, cycles[i]) && cycles[i][0] in visited
  }

  ghost predicate AllReachable(E: set<Arc>, roots: set<Uuid>, visited: set<Uuid>) {
    forall v :: v in visited ==> ReachableFrom(E, roots, v)
  }

  /** The arc that closes each reported cycle. */
  ghost function ClosingArcs(cycles: seq<seq<Uuid>>): set<Arc> {
    set i | 0 <= i < |cycles| && cycles[i] != [] :: Arc(cycles[i][|cycles[i]| - 1], cycles[i][0])
  }

  /** What is left of the relation once each reported cycle is cut where it closes. */
  ghost function Cut(E: set<Arc>, cycles: seq<seq<Uuid>>): set<Arc> {
    E - ClosingArcs(cycles)
  }

  /** The cycle closes by going from `u` to `v`. */
  ghost predicate ClosesBy(c: seq<Uuid>, u: Uuid, v: Uuid) {
    c != [] && c[|c| - 1] == u && c[0] == v
  }

  /** How many of the reported cycles close by going from `u` to `v`. */
  ghost function CloseCount(cycles: seq<seq<Uuid>>, u: Uuid, v: Uuid): nat {
    if cycles == [] then 0
    else CloseCount(cycles[..|cycles| - 1], u, v) + if ClosesBy(cycles[|cycles| - 1], u, v) then 1 else 0
  }

  ghost predicate SearchInv(E: set<Arc>, roots: set<Uuid>, st: State) {
    && OnPath(E, st.path)
    && Partitioned(st.visited, st.path, st.finished)
    && FinishedClosed(E, st.visited, st.finished)
    && Reported(E, st.visited, st.cycles)
    && AllReachable(E, roots, st.visited)
    && Ordered(Cut(E, st.cycles), st.finished)
  }

  /** `next` may be entered from the end of the path. */
  ghost predicate CanEnter(E: set<Arc>, roots: set<Uuid>, st: State, next: Uuid) {
    && next !in st.visited && ReachableFrom(E, roots, next)
    && (st.path != [] ==> Arc(st.path[|st.path| - 1], next) in E)
  }

  lemma Enter(E: set<Arc>, roots: set<Uuid>, st: State, v: Uuid)
    requires SearchInv(E, roots, st) && CanEnter(E, roots, st, v)
    ensures SearchInv(E, roots, State(st.visited + {v}, st.path + [v], st.finished, st.cycles))
  {
    hide IsCycle, ReachableFrom, Ordered, Cut;
  }

  /** All arcs of the end of the path have been followed. */
  ghost predicate Followed(E: set<Arc>, st: State, v: Uuid) {
    forall x :: Arc(v, x) in E ==> x in st.visited && (Arc(v, x) in ClosingArcs(st.cycles) || x in st.finished)
  }

  lemma Leave(E: set<Arc>, roots: set<Uuid>, st: State, path: seq<Uuid>, v: Uuid)
    requires SearchInv(E, roots, st) && st.path == path + [v] && Followed(E, st, v)
    ensures SearchInv(E, roots, State(st.visited, path, st.finished + [v], st.cycles)) && v !in path
  {
    hide IsCycle, ReachableFrom, ClosingArcs;
    var finished := st.finished + [v];
    var E' := Cut(E, st.cycles);
    assert forall x :: x in st.path <==> x in path || x == v;
    assert v !in path by {
      assert st.path[|path|] == v && forall i :: 0 <= i < |path| ==> path[i] == st.path[i];
    }
    assert OnPath(E, path) by {
      assert forall i :: 0 <= i < |path| ==> path[i] == st.path[i];
    }
    forall i, x | 0 <= i < |finished| && Arc(finished[i], x) in E' ensures x in finished[..i] {
      if i < |st.finished| {
        assert finished[..i] == st.finished[..i];
      } else {
        assert finished[..i] == st.finished;
      }
    }
  }

  /** So far the entries `done` have been followed. */
  ghost predicate FollowedSome(st: State, u: Uuid, done: seq<Uuid>) {
    forall x :: x in done ==> x in st.visited && (Arc(u, x) in ClosingArcs(st.cycles) || x in st.finished)
  }

  lemma FollowedNone(st: State, u: Uuid)
    ensures FollowedSome(st, u, [])
  {
  }

  lemma FollowedAll(adj: Adjacency, st: State, u: Uuid)
    requires FollowedSome(st, u, Neighbors(adj, u))
    ensures Followed(Arcs(adj), st, u)
  {
    hide Neighbors, Arcs, ClosingArcs;
    NeighborArcs(adj, u);
  }

  lemma FollowedNext(before: State, after: State, u: Uuid, done: seq<Uuid>, x: Uuid)
    requires FollowedSome(before, u, done)
    requires before.visited <= after.visited && before.cycles <= after.cycles
    requires forall v :: v in before.finished ==> v in after.finished
    requires x in after.visited && (Arc(u, x) in ClosingArcs(after.cycles) || x in after.finished)
    ensures FollowedSome(after, u, done + [x])
  {
    hide ClosingArcs;
    ClosingGrows(before.cycles, after.cycles);
  }

  /** A longer report closes at least the same arcs. */
  lemma ClosingGrows(cycles: seq<seq<Uuid>>, more: seq<seq<Uuid>>)
    requires cycles <= more
    ensures ClosingArcs(cycles) <= ClosingArcs(more)
  {
    forall i | 0 <= i < |cycles| && cycles[i] != []
      ensures Arc(cycles[i][|cycles[i]| - 1], cycles[i][0]) in ClosingArcs(more)
    {
      assert more[i] == cycles[i];
    }
  }

  lemma OrderedWithin(E: set<Arc>, F: set<Arc>, finished: seq<Uuid>)
    requires E <= F && Ordered(F, finished)
    ensures Ordered(E, finished)
  {
  }

  /** An arc back to the path closes a cycle. */
  lemma Report(E: set<Arc>, roots: set<Uuid>, st: State, k: nat)
    requires SearchInv(E, roots, st) && k < |st.path| && Arc(st.path[|st.path| - 1], st.path[k]) in E
    ensures SearchInv(E, roots, State(st.visited, st.path, st.finished, st.cycles + [st.path[k..]]))
  {
    hide ReachableFrom, Ordered, ClosingArcs;
    var c := st.path[k..];
    assert c[0] == st.path[k] && c[|c| - 1] == st.path[|st.path| - 1];
    assert c[0] in st.path;
    assert IsCycle(E, c);
    var more := st.cycles + [c];
    ClosingGrows(st.cycles, more);
    OrderedWithin(Cut(E, more), Cut(E, st.cycles), st.finished);
  }

  // ---- How often a cycle is reported ----

  /** No cycle closes at an unvisited identifier; at a finished one either none closes
      with a given neighbour, or one for each time the neighbour is listed. */
  ghost predicate Tallied(adj: Adjacency, visited: set<Uuid>, finished: seq<Uuid>, cycles: seq<seq<Uuid>>) {
    && (forall u, v :: u !in visited ==> CloseCount(cycles, u, v) == 0)
    && (forall u, v :: u in finished ==>
          CloseCount(cycles, u, v) == 0 || CloseCount(cycles, u, v) == multiset(Neighbors(adj, u))[v])
  }

  /** The neighbours `done` of `u` have been followed: those on the path closed a
      cycle for each time they are listed, the others none. */
  ghost predicate Closed(cycles: seq<seq<Uuid>>, path: seq<Uuid>, u: Uuid, done: seq<Uuid>) {
    forall v :: CloseCount(cycles, u, v) == if v in path then multiset(done)[v] else 0
  }

  /** From `before` to `after` no cycle has been added that closes at one of `us`. */
  ghost predicate SameCounts(us: set<Uuid>, before: seq<seq<Uuid>>, after: seq<seq<Uuid>>) {
    forall u, v :: u in us ==> CloseCount(after, u, v) == CloseCount(before, u, v)
  }

  lemma CountNext(cycles: seq<seq<Uuid>>, c: seq<Uuid>, u: Uuid, v: Uuid)
    ensures CloseCount(cycles + [c], u, v) == CloseCount(cycles, u, v) + if ClosesBy(c, u, v) then 1 else 0
  {
    assert (cycles + [c])[..|cycles|] == cycles;
  }

  lemma EnterTally(adj: Adjacency, visited: set<Uuid>, finished: seq<Uuid>, cycles: seq<seq<Uuid>>, path: seq<Uuid>,
                   u: Uuid)
    requires Tallied(adj, visited, finished, cycles) && u !in visited
    ensures Tallied(adj, visited + {u}, finished, cycles) && Closed(cycles, path, u, [])
  {
  }

  /** Following an entry that is not on the path closes nothing at `u`. */
  lemma ClosedPast(us: set<Uuid>, before: seq<seq<Uuid>>, after: seq<seq<Uuid>>, path: seq<Uuid>, u: Uuid,
                   done: seq<Uuid>, v: Uuid)
    requires Closed(before, path, u, done) && SameCounts(us, before, after) && u in us && v !in path
    ensures Closed(after, path, u, done + [v])
  {
    assert multiset(done + [v]) == multiset(done) + multiset{v};
  }

  /** Following one that is closes one cycle. */
  lemma ClosedHere(adj: Adjacency, visited: set<Uuid>, finished: seq<Uuid>, cycles: seq<seq<Uuid>>, path: seq<Uuid>,
                   done: seq<Uuid>, k: nat)
    requires k < |path| && path[|path| - 1] in visited && path[|path| - 1] !in finished
    requires Tallied(adj, visited, finished, cycles) && Closed(cycles, path, path[|path| - 1], done)
    ensures var more, u := cycles + [path[k..]], path[|path| - 1];
            Tallied(adj, visited, finished, more) && Closed(more, path, u, done + [path[k]])
            && SameCounts(visited - {u}, cycles, more)
  {
    hide CloseCount;
    var u := path[|path| - 1];
    assert multiset(done + [path[k]]) == multiset(done) + multiset{path[k]};
    forall x, y ensures CloseCount(cycles + [path[k..]], x, y)
                     == CloseCount(cycles, x, y) + if x == u && y == path[k] then 1 else 0
    {
      CountNext(cycles, path[k..], x, y);
    }
  }

  lemma LeaveTally(adj: Adjacency, visited: set<Uuid>, finished: seq<Uuid>, cycles: seq<seq<Uuid>>, path: seq<Uuid>,
                   u: Uuid)
    requires Tallied(adj, visited, finished, cycles) && Closed(cycles, path, u, Neighbors(adj, u))
    ensures Tallied(adj, visited, finished + [u], cycles)
  {
    hide CloseCount;
  }

  lemma CountsOn(us: set<Uuid>, vs: set<Uuid>, a: seq<seq<Uuid>>, b: seq<seq<Uuid>>, c: seq<seq<Uuid>>)
    requires SameCounts(us, a, b) && SameCounts(vs, b, c) && us <= vs
    ensures SameCounts(us, a, c)
  {
    hide CloseCount;
  }

  lemma CountsStart(us: set<Uuid>, cycles: seq<seq<Uuid>>)
    ensures SameCounts(us, cycles, cycles)
  {
  }

  lemma CountsWithin(us: set<Uuid>, vs: set<Uuid>, a: seq<seq<Uuid>>, b: seq<seq<Uuid>>)
    requires SameCounts(vs, a, b) && us <= vs
    ensures SameCounts(us, a, b)
  {
    hide CloseCount;
  }

  ghost predicate SameStack(path: seq<Uuid>, recStack: map<Uuid, bool>) {
    forall v :: v in path <==> v in recStack && recStack[v]
  }

  lemma StackEnter(path: seq<Uuid>, recStack: map<Uuid, bool>, v: Uuid)
    requires SameStack(path, recStack)
    ensures SameStack(path + [v], recStack[v := true])
  {
  }

  lemma StackLeave(path: seq<Uuid>, recStack: map<Uuid, bool>, v: Uuid)
    requires SameStack(path + [v], recStack) && v !in path
    ensures SameStack(path, recStack[v := false])
  {
    assert forall x :: x in path + [v] <==> x in path || x == v;
  }

  class CycleSearch {
    var visited: set<Uuid>
    var recStack: map<Uuid, bool>
    var path: seq<Uuid>
    var cycles: seq<seq<Uuid>>
    ghost var finished: seq<Uuid>

    ghost function View(): State
      reads this
    {
      State(visited, path, finished, cycles)
    }

    /** `path` and `recStack` always describe the same identifiers. */
    ghost predicate StackMatches()
      reads this
    {
      SameStack(path, recStack)
    }

    constructor ()
      ensures View() == State({}, [], [], []) && StackMatches()
    {
      visited, recStack, path, cycles, finished := {}, map[], [], [], [];
    }

    /** What holds before and after every call, whatever has been found by then. */
    ghost predicate Searching(graph: InMemoryGraph, roots: set<Uuid>)
      reads this, graph
    {
      && SearchInv(Arcs(graph.adjList), roots, View()) && StackMatches()
      && Tallied(graph.adjList, visited, finished, cycles)
    }

    method DfsCycle(graph: InMemoryGraph, current: Uuid, ghost roots: set<Uuid>)
      requires Searching(graph, roots)
      requires CanEnter(Arcs(graph.adjList), roots, View(), current)
      modifies this
      ensures Searching(graph, roots)
      ensures path == old(path) && old(visited) + {current} <= visited
      ensures current in finished && (forall v :: v in old(finished) ==> v in finished)
      ensures old(cycles) <= cycles && SameCounts(old(visited), old(cycles), cycles)
      decreases Universe(Arcs(graph.adjList), roots) - visited, 0
    {
      hide SearchInv, Universe, ReachableFrom, Arcs, Neighbors, ClosingArcs, Tallied, Closed, SameCounts,
        FollowedSome, Followed, SameStack;
      ghost var E := Arcs(graph.adjList);
      InUniverse(E, roots, View(), current);
      Enter(E, roots, View(), current);
      EnterTally(graph.adjList, visited, finished, cycles, path + [current], current);
      StackEnter(path, recStack, current);
      visited := visited + {current};
      recStack := recStack[current := true];
      path := path + [current];
      FollowArcs(graph, current, roots);
      assert old(visited) + {current} - {current} == old(visited);
      assert path == old(path) + [current];
      Leave(E, roots, View(), old(path), current);
      LeaveTally(graph.adjList, visited, finished, cycles, path, current);
      StackLeave(old(path), recStack, current);
      path := path[..|path| - 1];
      recStack := recStack[current := false];
      finished := finished + [current];
    }

    /** The loop over the list of `current`. */
    method FollowArcs(graph: InMemoryGraph, current: Uuid, ghost roots: set<Uuid>)
      requires Searching(graph, roots) && path != [] && path[|path| - 1] == current
      requires Closed(cycles, path, current, [])
      modifies this
      ensures Searching(graph, roots)
      ensures path == old(path) && old(visited) <= visited
      ensures forall v :: v in old(finished) ==> v in finished
      ensures old(cycles) <= cycles && SameCounts(old(visited) - {current}, old(cycles), cycles)
      ensures Closed(cycles, path, current, Neighbors(graph.adjList, current))
      ensures Followed(Arcs(graph.adjList), View(), current)
      decreases Universe(Arcs(graph.adjList), roots) - visited, 2
    {
      hide SearchInv, Universe, ReachableFrom, Arcs, Neighbors, ClosingArcs, Tallied, Closed, SameCounts,
        FollowedSome, Followed;
      ghost var others := visited - {current};
      var downstream := graph.GetDownstreamIDs(current);
      CountsStart(others, cycles);
      FollowedNone(View(), current);
      NeighborArcs(graph.adjList, current);
      assert downstream[..0] == [];
      for i := 0 to |downstream|
        invariant Searching(graph, roots)
        invariant path == old(path) && old(visited) <= visited
        invariant forall v :: v in old(finished) ==> v in finished
        invariant old(cycles) <= cycles && SameCounts(others, old(cycles), cycles)
        invariant Closed(cycles, path, current, downstream[..i])
        invariant FollowedSome(View(), current, downstream[..i])
      {
        ghost var before, seen := cycles, visited;
        FollowArc(graph, current, downstream[i], roots, downstream[..i]);
        assert downstream[..i + 1] == downstream[..i] + [downstream[i]];
        CountsOn(others, seen - {current}, old(cycles), before, cycles);
      }
      assert downstream[..|downstream|] == downstream;
      FollowedAll(graph.adjList, View(), current);
    }

    /** The loop body: follows one entry of the list of `current`, of which `done` came
        before. */
    method FollowArc(graph: InMemoryGraph, current: Uuid, next: Uuid, ghost roots: set<Uuid>, ghost done: seq<Uuid>)
      requires Searching(graph, roots)
      requires path != [] && path[|path| - 1] == current && Arc(current, next) in Arcs(graph.adjList)
      requires Closed(cycles, path, current, done) && FollowedSome(View(), current, done)
      modifies this
      ensures Searching(graph, roots)
      ensures path == old(path) && old(visited) <= visited
      ensures forall v :: v in old(finished) ==> v in finished
      ensures old(cycles) <= cycles && SameCounts(old(visited) - {current}, old(cycles), cycles)
      ensures Closed(cycles, path, current, done + [next]) && FollowedSome(View(), current, done + [next])
      decreases Universe(Arcs(graph.adjList), roots) - visited, 1
    {
      hide SearchInv, Universe, ReachableFrom, Arcs, Neighbors, ClosingArcs, Tallied, Closed, SameCounts,
        FollowedSome, Followed;
      ghost var E := Arcs(graph.adjList);
      ghost var was, before, seen := View(), cycles, visited;
      PathVisited(E, roots, View());
      if next !in visited {
        NextReachable(E, roots, View(), current, next);
        DfsCycle(graph, next, roots);
        ClosedPast(seen, before, cycles, path, current, done, next);
        CountsWithin(seen - {current}, seen, before, cycles);
      } else if next in recStack && recStack[next] {
        FollowPath(next, roots, E, graph.adjList, done);
      } else {
        VisitedSplit(E, roots, View(), next);
        CountsStart(seen, cycles);
        ClosedPast(seen, cycles, cycles, path, current, done, next);
        CountsWithin(seen - {current}, seen, cycles, cycles);
      }
      FollowedNext(was, View(), current, done, next);
    }

    /** Reports the part of the path from `next` on. */
    method FollowPath(next: Uuid, ghost roots: set<Uuid>, ghost E: set<Arc>, ghost adj: Adjacency, ghost done: seq<Uuid>)
      requires SearchInv(E, roots, View()) && next in path
      requires Arc(path[|path| - 1], next) in E
      requires Tallied(adj, visited, finished, cycles) && Closed(cycles, path, path[|path| - 1], done)
      modifies this`cycles
      ensures exists k :: 0 <= k < |path| && path[k] == next && cycles == old(cycles) + [path[k..]]
      ensures SearchInv(E, roots, View())
      ensures Arc(path[|path| - 1], next) in ClosingArcs(cycles)
      ensures Tallied(adj, visited, finished, cycles) && Closed(cycles, path, path[|path| - 1], done + [next])
      ensures SameCounts(visited - {path[|path| - 1]}, old(cycles), cycles)
    {
      hide SearchInv, Tallied, Closed, SameCounts, ClosingArcs;
      var cycleStart := -1;
      for i := 0 to |path|
        invariant cycleStart == -1 && next !in path[..i]
      {
        if path[i] == next {
          cycleStart := i;
          break;
        }
      }
      assert path[..|path|] == path;
      PathVisited(E, roots, View());
      Report(E, roots, View(), cycleStart);
      ClosedHere(adj, visited, finished, cycles, path, done, cycleStart);
      ClosesLast(cycles, path, cycleStart);
      cycles := cycles + [path[cycleStart..]];
      assert path[cycleStart] == next;
    }
  }

  lemma ClosesLast(cycles: seq<seq<Uuid>>, path: seq<Uuid>, k: nat)
    requires k < |path|
    ensures Arc(path[|path| - 1], path[k]) in ClosingArcs(cycles + [path[k..]])
  {
    var more := cycles + [path[k..]];
    assert more[|cycles|] == path[k..];
  }

  lemma PathVisited(E: set<Arc>, roots: set<Uuid>, st: State)
    requires SearchInv(E, roots, st)
    ensures forall v :: v in st.path ==> v in st.visited && v !in st.finished
  {
  }

  ghost function Universe(E: set<Arc>, roots: set<Uuid>): set<Uuid> {
    roots + set a | a in E :: a.dst
  }

  lemma InUniverse(E: set<Arc>, roots: set<Uuid>, st: State, v: Uuid)
    requires CanEnter(E, roots, st, v)
    ensures v in Universe(E, roots) - st.visited
  {
    var r :| r in roots && Reachable(E, r, v);
    var n: nat :| Steps(E, r, v, n);
    if n > 0 {
      var u :| Steps(E, r, u, n - 1) && Arc(u, v) in E;
    }
  }

  lemma NextReachable(E: set<Arc>, roots: set<Uuid>, st: State, current: Uuid, next: Uuid)
    requires SearchInv(E, roots, st) && current in st.visited && Arc(current, next) in E
    ensures ReachableFrom(E, roots, next)
  {
    assert ReachableFrom(E, roots, current);
    var r :| r in roots && Reachable(E, r, current);
    var n: nat :| Steps(E, r, current, n);
    assert Steps(E, r, next, n + 1);
  }

  lemma VisitedSplit(E: set<Arc>, roots: set<Uuid>, st: State, v: Uuid)
    requires SearchInv(E, roots, st) && v in st.visited && v !in st.path
    ensures v in st.finished
  {
  }

  // ---- The report is empty exactly when there is no reachable cycle ----

  lemma {:induction false} Descends(E: set<Arc>, finished: seq<Uuid>, i: nat, v: Uuid, n: nat) returns (j: nat)
    requires Ordered(E, finished) && i < |finished| && Steps(E, finished[i], v, n)
    ensures j + n <= i && finished[j] == v
    decreases n
  {
    if n == 0 {
      j := i;
    } else {
      var u :| Steps(E, finished[i], u, n - 1) && Arc(u, v) in E;
      var k := Descends(E, finished, i, u, n - 1);
      assert v in finished[..k];
      j :| 0 <= j < k && finished[j] == v;
    }
  }

  /** An ordered finishing sequence leaves no room for a cycle. */
  lemma {:induction false} OrderedNoCycle(E: set<Arc>, finished: seq<Uuid>, i: nat, n: nat)
    requires Ordered(E, finished) && i < |finished| && n > 0
    ensures !Steps(E, finished[i], finished[i], n)
    decreases i
  {
    if Steps(E, finished[i], finished[i], n) {
      var j := Descends(E, finished, i, finished[i], n);
      OrderedNoCycle(E, finished, j, n);
    }
  }

  lemma CycleNotFinished(E: set<Arc>, finished: seq<Uuid>, c: seq<Uuid>)
    requires IsCycle(E, c) && Ordered(E, finished)
    ensures c[0] !in finished
  {
    WalkSteps(E, c, c[0], c[|c| - 1]);
    assert Steps(E, c[0], c[0], |c|);
    forall i | 0 <= i < |finished| ensures finished[i] != c[0] {
      OrderedNoCycle(E, finished, i, |c|);
    }
  }

  /** When all roots are visited so is everything they reach. */
  lemma AllVisited(E: set<Arc>, roots: set<Uuid>, st: State, v: Uuid)
    requires SearchInv(E, roots, st) && st.path == [] && roots <= st.visited && ReachableFrom(E, roots, v)
    ensures v in st.finished
  {
    var r :| r in roots && Reachable(E, r, v);
    var n: nat :| Steps(E, r, v, n);
    ClosedKeepsReachable(E, st.visited, r, v, n);
  }

  ghost predicate ReachableCycle(E: set<Arc>, roots: set<Uuid>, c: seq<Uuid>) {
    IsCycle(E, c) && ReachableFrom(E, roots, c[0])
  }

  /** Every reported list is a cycle reachable from a listed node; cutting each of
      them where it closes leaves no reachable cycle; so the report is empty exactly
      when there is none. */
  ghost predicate ExactReport(E: set<Arc>, roots: set<Uuid>, cycles: seq<seq<Uuid>>) {
    && (forall i :: 0 <= i < |cycles| ==> ReachableCycle(E, roots, cycles[i]))
    && (forall c :: ReachableCycle(E, roots, c) ==> !IsCycle(Cut(E, cycles), c))
    && (cycles == [] <==> !exists c :: ReachableCycle(E, roots, c))
  }

  /** Each listed neighbour that a path leads back to is reported once per listing, and
      no other: the number of cycles that close by going from `u` to `v`. */
  ghost predicate ReportedOncePerListing(adj: Adjacency, cycles: seq<seq<Uuid>>) {
    forall u, v :: CloseCount(cycles, u, v) == 0 || CloseCount(cycles, u, v) == multiset(Neighbors(adj, u))[v]
  }

  /** No two reported cycles close with the same arc. */
  ghost predicate ClosedApart(cycles: seq<seq<Uuid>>) {
    forall i, j :: 0 <= i < j < |cycles| ==>
      !(exists u, v :: ClosesBy(cycles[i], u, v) && ClosesBy(cycles[j], u, v))
  }

  ghost predicate ListsOnce(adj: Adjacency) {
    forall u :: Distinct(Neighbors(adj, u))
  }

  lemma {:induction false} CountAtLeast(cycles: seq<seq<Uuid>>, u: Uuid, v: Uuid, i: nat)
    requires i < |cycles| && ClosesBy(cycles[i], u, v)
    ensures CloseCount(cycles, u, v) >= 1
    decreases |cycles|
  {
    if i == |cycles| - 1 {
    } else {
      CountAtLeast(cycles[..|cycles| - 1], u, v, i);
    }
  }

  lemma {:induction false} CountTwo(cycles: seq<seq<Uuid>>, u: Uuid, v: Uuid, i: nat, j: nat)
    requires i < j < |cycles| && ClosesBy(cycles[i], u, v) && ClosesBy(cycles[j], u, v)
    ensures CloseCount(cycles, u, v) >= 2
    decreases |cycles|
  {
    var front := cycles[..|cycles| - 1];
    if j == |cycles| - 1 {
      CountAtLeast(front, u, v, i);
    } else {
      CountTwo(front, u, v, i, j);
    }
  }

  lemma {:induction false} DistinctCount(s: seq<Uuid>, v: Uuid)
    requires Distinct(s)
    ensures multiset(s)[v] <= 1
    decreases |s|
  {
    if s == [] {
    } else {
      var front, last := s[..|s| - 1], s[|s| - 1];
      assert s == front + [last];
      DistinctCount(front, v);
      assert v in front ==> v in multiset(front);
      assert v in multiset(front) ==> v in front;
      assert v == last ==> v !in front;
    }
  }

  /** When no adjacency list repeats an entry, no two reported cycles close alike; in
      particular none is reported twice. */
  lemma ListedOnceReportedOnce(adj: Adjacency, cycles: seq<seq<Uuid>>)
    requires ReportedOncePerListing(adj, cycles) && ListsOnce(adj)
    ensures ClosedApart(cycles)
  {
    hide CloseCount, ClosesBy, Distinct, Neighbors;
    forall i, j | 0 <= i < j < |cycles| ensures !(exists u, v :: ClosesBy(cycles[i], u, v) && ClosesBy(cycles[j], u, v)) {
      if u, v :| ClosesBy(cycles[i], u, v) && ClosesBy(cycles[j], u, v) {
        CountTwo(cycles, u, v, i, j);
        DistinctCount(Neighbors(adj, u), v);
      }
    }
  }

  /** At the end of the search every identifier is finished or unvisited. */
  lemma AllTallied(E: set<Arc>, roots: set<Uuid>, st: State, adj: Adjacency)
    requires SearchInv(E, roots, st) && st.path == [] && Tallied(adj, st.visited, st.finished, st.cycles)
    ensures ReportedOncePerListing(adj, st.cycles)
  {
    hide CloseCount, Neighbors;
  }

  lemma ReportIsExact(E: set<Arc>, roots: set<Uuid>, st: State)
    requires SearchInv(E, roots, st) && st.path == [] && roots <= st.visited
    ensures ExactReport(E, roots, st.cycles)
  {
    forall i | 0 <= i < |st.cycles| ensures ReachableCycle(E, roots, st.cycles[i]) {
      hide ReachableFrom;
      assert st.cycles[i][0] in st.visited;
    }
    forall c | ReachableCycle(E, roots, c) ensures !IsCycle(Cut(E, st.cycles), c) {
      AllVisited(E, roots, st, c[0]);
      if IsCycle(Cut(E, st.cycles), c) {
        CycleNotFinished(Cut(E, st.cycles), st.finished, c);
      }
    }
    if st.cycles == [] {
      assert Cut(E, st.cycles) == E;
    } else {
      assert ReachableCycle(E, roots, st.cycles[0]);
    }
  }

  method DetectCycles(graph: InMemoryGraph) returns (cycles: seq<seq<Uuid>>)
    requires graph.Valid()
    ensures ExactReport(Arcs(graph.adjList), graph.nodes.Keys, cycles)
    ensures ReportedOncePerListing(graph.adjList, cycles)
    ensures ListsOnce(graph.adjList) ==> ClosedApart(cycles)
  {
    hide SearchInv, ReachableFrom, ExactReport, Tallied, ReportedOncePerListing, ListsOnce, ClosedApart, SameCounts;
    ghost var E := Arcs(graph.adjList);
    ghost var roots := graph.nodes.Keys;
    var search := new CycleSearch();
    StartSearch(E, roots, graph.adjList);
    var all := graph.GetAllNodes();
    for i := 0 to |all|
      invariant search.Searching(graph, roots) && search.path == []
      invariant forall j :: 0 <= j < i ==> all[j].id in search.visited
    {
      assert all[i] in all;
      if all[i].id !in search.visited {
        CanStart(E, roots, search.View(), all[i].id);
        search.DfsCycle(graph, all[i].id, roots);
      }
    }
    forall v | v in roots ensures v in search.visited {
      assert graph.nodes[v] in all;
    }
    ReportIsExact(E, roots, search.View());
    AllTallied(E, roots, search.View(), graph.adjList);
    cycles := search.cycles;
    if ListsOnce(graph.adjList) {
      ListedOnceReportedOnce(graph.adjList, cycles);
    }
  }

  lemma CanStart(E: set<Arc>, roots: set<Uuid>, st: State, r: Uuid)
    requires r in roots && r !in st.visited && st.path == []
    ensures CanEnter(E, roots, st, r)
  {
    assert Steps(E, r, r, 0);
  }

  lemma StartSearch(E: set<Arc>, roots: set<Uuid>, adj: Adjacency)
    ensures SearchInv(E, roots, State({}, [], [], [])) && Tallied(adj, {}, [], [])
  {
  }
}
