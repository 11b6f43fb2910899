/** The k-paths search compares a new candidate with accepted paths only.  A graph on
    which, asked for more than three paths, it must return one of them twice. */
module KPathsRepeats {
  import opened Domain
  import opened Sequences
  import opened Walks
  import opened Graph
  import opened WeightedSearch
  import opened Totals
  import opened Rebuilds
  import opened Deviations
  import opened KPathsLimits

  const A := Uuid(2)
  const B := Uuid(3)
  const C := Uuid(4)
  const D := Uuid(5)
  const E := Uuid(6)

  const SHORT := [SOURCE, A, TARGET]
  const MIDDLE := [SOURCE, A, B, TARGET]
  const LONG := [SOURCE, C, D, E, TARGET]

  ghost const ARCS: set<Arc> := {
    Arc(SOURCE, A), Arc(A, TARGET), Arc(A, B), Arc(B, TARGET),
    Arc(SOURCE, C), Arc(C, D), Arc(D, E), Arc(E, TARGET)}

  /** Any request from end to end of these arcs, whatever the records behind them,
      under the default weights. */
  ghost predicate IsExample(pb: Problem) {
    && pb.s == SOURCE && pb.t == TARGET && pb.w == OrUnit(None)
    && pb.E() == ARCS && PresentArcs(pb.g) == ARCS && TARGET in pb.g.nodes
  }

  /** The three walks from end to end. */
  lemma ExampleWalks(p: seq<Uuid>)
    ensures WalkFromTo(ARCS, p, SOURCE, TARGET) <==> p == SHORT || p == MIDDLE || p == LONG
    ensures WalkFromTo(ARCS, p, SOURCE, TARGET) ==> Distinct(p)
  {
    if WalkFromTo(ARCS, p, SOURCE, TARGET) {
      assert |p| > 2 && Arc(p[0], p[1]) in ARCS && Arc(p[1], p[2]) in ARCS;
      if p[1] == A {
        if p[2] == TARGET {
          WalkEnds(p, 2);
        } else {
          assert |p| > 3 && Arc(p[2], p[3]) in ARCS;
          WalkEnds(p, 3);
        }
      } else {
        assert |p| > 3 && Arc(p[2], p[3]) in ARCS;
        assert |p| > 4 && Arc(p[3], p[4]) in ARCS;
        WalkEnds(p, 4);
      }
    }
  }

  lemma WalkEnds(p: seq<Uuid>, i: nat)
    requires IsWalk(ARCS, p) && i < |p| && p[i] == TARGET
    ensures |p| == i + 1
  {
    WalkStops(ARCS, p, i);
  }

  lemma ExamplePaths(pb: Problem)
    requires IsExample(pb)
    ensures forall p :: IsPath(pb, p) <==> p == SHORT || p == MIDDLE || p == LONG
  {
    hide ARCS, SHORT, MIDDLE, LONG, WalkFromTo, Distinct;
    forall p ensures IsPath(pb, p) <==> p == SHORT || p == MIDDLE || p == LONG {
      ExampleWalks(p);
    }
  }

  lemma ExampleOrderly(pb: Problem)
    requires IsExample(pb)
    ensures Orderly(pb)
  {
    hide HopMonotone, ParallelEdgesAgree, PresentIsLightest, ARCS;
    assert SourcesPresent(pb.g) by {
      assert forall a :: a in pb.E() ==> a in PresentArcs(pb.g);
    }
    DefaultWeights(pb.g, pb.s, pb.t);
    SourcesPresentLightest(pb);
  }

  /** Unit weights: a path weighs its number of edges. */
  lemma ExampleCosts(pb: Problem, p: seq<Uuid>)
    requires IsExample(pb) && p != []
    ensures Cost(pb.W(), p) == (|p| - 1) as real
  {
    hide Cost, ArcWeights, ARCS;
    UnitCost(pb.g.edges, p);
  }

  lemma ShortIsFirst(pb: Problem, p: seq<Uuid>)
    requires IsExample(pb)
    ensures LightestPath(PresentArcs(pb.g), pb.W(), p, pb.s, pb.t) <==> p == SHORT
  {
    hide Cost, IsWalk, ARCS, ArcWeights, PresentArcs, EdgeArcs;
    ExampleCosts(pb, SHORT);
    ExampleCosts(pb, MIDDLE);
    ExampleCosts(pb, LONG);
    forall q ensures WalkFromTo(ARCS, q, SOURCE, TARGET) <==> q == SHORT || q == MIDDLE || q == LONG {
      ExampleWalks(q);
    }
    ExampleWalks(SHORT);
  }

  // ---- Every run on the example ----

  ghost function EntryOf(p: seq<Uuid>): Entry {
    Entry(p, (|p| - 1) as real)
  }

  lemma SpurOnly(pb: Problem, accepted: seq<seq<Uuid>>, root: seq<Uuid>, p: seq<Uuid>, before: multiset<Entry>,
                 after: multiset<Entry>)
    requires IsExample(pb) && Spurred(pb, accepted, root, before, after)
    requires p != [] && forall x :: Leaves(pb, accepted, root, x) <==> x == p
    ensures after == before + multiset{EntryOf(p)}
  {
    hide Spurred, Leaves, Orderly, IsPath, IsExample, Cost;
    ExampleOrderly(pb);
    SpurredOnly(pb, accepted, root, p, before, after);
    ExampleCosts(pb, p);
  }

  lemma PushedNone(pb: Problem, accepted: seq<seq<Uuid>>, last: seq<Uuid>, before: multiset<Entry>,
                   after: multiset<Entry>)
    requires Pushed(pb, accepted, last, 0, before, after)
    ensures after == before
  {
  }

  lemma Prefixes()
    ensures [SOURCE] < SHORT && [SOURCE] < MIDDLE && [SOURCE] < LONG
    ensures SHORT[..2] == [SOURCE, A] && MIDDLE[..2] == [SOURCE, A] && LONG[..2] == [SOURCE, C]
    ensures [SOURCE, A] < SHORT && [SOURCE, A] < MIDDLE && !([SOURCE, A] < LONG)
    ensures SHORT[..3] == SHORT && MIDDLE[..3] == [SOURCE, A, B]
    ensures !([SOURCE, A, B] < SHORT) && [SOURCE, A, B] < MIDDLE && !([SOURCE, A, B] < LONG)
    ensures MIDDLE[..4] == MIDDLE && |SHORT| == 3 && |MIDDLE| == 4 && |LONG| == 5
  {
    assert LONG[1] != A && SHORT[2] != B;
  }

  lemma SharedShort()
    ensures Shared([SHORT], [SOURCE, A]) && Shared([SHORT], SHORT)
    ensures !Shared([SHORT], [SOURCE, C]) && !Shared([SHORT], [SOURCE, A, B])
  {
    assert [SHORT][0] == SHORT && [SOURCE, A] <= SHORT;
    assert [SOURCE, A, B][2] != SHORT[2] && [SOURCE, C][1] != SHORT[1];
  }

  lemma SharedMiddle()
    ensures Shared([SHORT, MIDDLE], [SOURCE, A]) && Shared([SHORT, MIDDLE], SHORT)
    ensures Shared([SHORT, MIDDLE], [SOURCE, A, B]) && Shared([SHORT, MIDDLE], MIDDLE)
    ensures !Shared([SHORT, MIDDLE], [SOURCE, C])
  {
    var accepted := [SHORT, MIDDLE];
    assert accepted[0] == SHORT && accepted[1] == MIDDLE && [SOURCE, A] <= SHORT && [SOURCE, A, B] <= MIDDLE;
    assert [SOURCE, C][1] != SHORT[1] && [SOURCE, C][1] != MIDDLE[1];
  }

  /** Which path leaves where, when only the short one is accepted. */
  lemma LeavesShort(pb: Problem, p: seq<Uuid>)
    requires IsExample(pb)
    ensures Leaves(pb, [SHORT], [SOURCE], p) <==> p == LONG
    ensures Leaves(pb, [SHORT], [SOURCE, A], p) <==> p == MIDDLE
  {
    hide IsPath, Shared, SHORT, MIDDLE, LONG, IsExample;
    ExamplePaths(pb);
    Prefixes();
    SharedShort();
  }

  /** Which path leaves where, when the short and the middle one are. */
  lemma LeavesMiddle(pb: Problem, p: seq<Uuid>)
    requires IsExample(pb)
    ensures Leaves(pb, [SHORT, MIDDLE], [SOURCE], p) <==> p == LONG
    ensures !Leaves(pb, [SHORT, MIDDLE], [SOURCE, A], p)
    ensures !Leaves(pb, [SHORT, MIDDLE], [SOURCE, A, B], p)
  {
    hide IsPath, Shared, SHORT, MIDDLE, LONG, IsExample;
    ExamplePaths(pb);
    Prefixes();
    SharedMiddle();
  }

  lemma FirstRound(pb: Problem, after: multiset<Entry>)
    requires IsExample(pb) && Round(pb, [SHORT], multiset{}, after)
    ensures after == multiset{EntryOf(LONG), EntryOf(MIDDLE)}
  {
    hide Leaves, Spurred, Pushed, IsExample;
    assert SHORT[..1] == [SOURCE] && SHORT[..2] == [SOURCE, A];
    var m1 := PushedLast(pb, [SHORT], SHORT, 2, multiset{}, after);
    var m0 := PushedLast(pb, [SHORT], SHORT, 1, multiset{}, m1);
    PushedNone(pb, [SHORT], SHORT, multiset{}, m0);
    forall p
      ensures Leaves(pb, [SHORT], [SOURCE], p) <==> p == LONG
      ensures Leaves(pb, [SHORT], [SOURCE, A], p) <==> p == MIDDLE
    {
      LeavesShort(pb, p);
    }
    SpurOnly(pb, [SHORT], [SOURCE], LONG, m0, m1);
    SpurOnly(pb, [SHORT], [SOURCE, A], MIDDLE, m1, after);
  }

  /** The second round finds the long path again. */
  lemma SecondRound(pb: Problem, before: multiset<Entry>, after: multiset<Entry>)
    requires IsExample(pb) && Round(pb, [SHORT, MIDDLE], before, after)
    ensures after == before + multiset{EntryOf(LONG)}
  {
    hide Leaves, Spurred, Pushed, IsExample;
    var accepted := [SHORT, MIDDLE];
    assert MIDDLE[..1] == [SOURCE] && MIDDLE[..2] == [SOURCE, A] && MIDDLE[..3] == [SOURCE, A, B];
    var m2 := PushedLast(pb, accepted, MIDDLE, 3, before, after);
    var m1 := PushedLast(pb, accepted, MIDDLE, 2, before, m2);
    var m0 := PushedLast(pb, accepted, MIDDLE, 1, before, m1);
    PushedNone(pb, accepted, MIDDLE, before, m0);
    forall p
      ensures Leaves(pb, accepted, [SOURCE], p) <==> p == LONG
      ensures !Leaves(pb, accepted, [SOURCE, A], p) && !Leaves(pb, accepted, [SOURCE, A, B], p)
    {
      LeavesMiddle(pb, p);
    }
    SpurOnly(pb, accepted, [SOURCE], LONG, m0, m1);
    SpurredNone(pb, accepted, [SOURCE, A], m1, m2);
    SpurredNone(pb, accepted, [SOURCE, A, B], m2, after);
  }

  ghost predicate HoldsAll(accepted: seq<seq<Uuid>>) {
    SHORT in accepted && MIDDLE in accepted && LONG in accepted
  }

  /** With all paths accepted no spur search finds anything. */
  lemma {:induction false} LaterPushes(pb: Problem, accepted: seq<seq<Uuid>>, last: seq<Uuid>, j: nat,
                                       before: multiset<Entry>, after: multiset<Entry>)
    requires IsExample(pb) && HoldsAll(accepted) && j <= |last| && Pushed(pb, accepted, last, j, before, after)
    ensures after == before
    decreases j
  {
    hide Spurred, Leaves, IsPath, IsExample;
    if j == 0 {
      PushedNone(pb, accepted, last, before, after);
    } else {
      var mid := PushedLast(pb, accepted, last, j, before, after);
      LaterPushes(pb, accepted, last, j - 1, before, mid);
      forall p ensures !Leaves(pb, accepted, last[..j], p) {
        NoneLeft(pb, accepted, last[..j], p);
      }
      SpurredNone(pb, accepted, last[..j], mid, after);
    }
  }

  lemma NoneLeft(pb: Problem, accepted: seq<seq<Uuid>>, root: seq<Uuid>, p: seq<Uuid>)
    requires IsExample(pb) && HoldsAll(accepted)
    ensures !Leaves(pb, accepted, root, p)
  {
    hide IsPath, IsExample;
    ExamplePaths(pb);
    if Leaves(pb, accepted, root, p) {
      LeavesNew(pb, accepted, root, p);
    }
  }

  lemma LaterRound(pb: Problem, accepted: seq<seq<Uuid>>, before: multiset<Entry>, after: multiset<Entry>)
    requires IsExample(pb) && HoldsAll(accepted) && Round(pb, accepted, before, after)
    ensures after == before
  {
    hide Pushed, IsExample;
    var last := accepted[|accepted| - 1];
    LaterPushes(pb, accepted, last, |last| - 1, before, after);
  }

  // ---- The long path comes twice ----

  ghost predicate Shape(accepted: seq<seq<Uuid>>, heap: multiset<Entry>) {
    || (accepted == [SHORT] && heap == multiset{})
    || (accepted == [SHORT, MIDDLE] && heap == multiset{EntryOf(LONG)})
    || (accepted == [SHORT, MIDDLE, LONG] && heap == multiset{EntryOf(LONG)})
    || (accepted == [SHORT, MIDDLE, LONG, LONG] && heap == multiset{})
  }

  /** What a round on a reachable state pushes. */
  lemma RoundShape(pb: Problem, accepted: seq<seq<Uuid>>, before: multiset<Entry>, after: multiset<Entry>)
    requires IsExample(pb) && Shape(accepted, before) && Round(pb, accepted, before, after)
    ensures |accepted| == 1 ==> after == multiset{EntryOf(LONG), EntryOf(MIDDLE)}
    ensures |accepted| == 2 ==> after == multiset{EntryOf(LONG), EntryOf(LONG)}
    ensures |accepted| == 3 ==> after == multiset{EntryOf(LONG)}
    ensures |accepted| == 4 ==> after == multiset{}
    ensures |accepted| < 4 ==> EntryOf(LONG) in after
  {
    hide Round, SHORT, MIDDLE, LONG, EntryOf, IsExample;
    if |accepted| == 1 {
      FirstRound(pb, after);
    } else if |accepted| == 2 {
      SecondRound(pb, before, after);
    } else {
      LaterRound(pb, accepted, before, after);
    }
  }

  lemma PopShape(pb: Problem, accepted: seq<seq<Uuid>>, before: multiset<Entry>, after: multiset<Entry>, c: Entry,
                 heap: multiset<Entry>)
    requires IsExample(pb) && Shape(accepted, before) && Round(pb, accepted, before, after) && Pops(after, c, heap)
    ensures Shape(accepted + [c.nodes], heap)
  {
    hide Round, SHORT, MIDDLE, LONG, EntryOf, Pops, IsExample;
    RoundShape(pb, accepted, before, after);
    PopCases(|accepted|, after, c, heap);
  }

  lemma PopCases(n: nat, before: multiset<Entry>, c: Entry, after: multiset<Entry>)
    requires 1 <= n <= 4 && Pops(before, c, after)
    requires n == 1 ==> before == multiset{EntryOf(LONG), EntryOf(MIDDLE)}
    requires n == 2 ==> before == multiset{EntryOf(LONG), EntryOf(LONG)}
    requires n == 3 ==> before == multiset{EntryOf(LONG)}
    requires n == 4 ==> before == multiset{}
    ensures n < 4
    ensures c.nodes == if n == 1 then MIDDLE else LONG
    ensures after == if n == 3 then multiset{} else multiset{EntryOf(LONG)}
  {
    assert EntryOf(MIDDLE).cost < EntryOf(LONG).cost;
    assert n == 1 ==> EntryOf(MIDDLE) in before;
  }

  lemma {:induction false} TraceShape(pb: Problem, accepted: seq<seq<Uuid>>, heap: multiset<Entry>)
    requires IsExample(pb) && Trace(pb, accepted, heap)
    ensures Shape(accepted, heap)
    decreases |accepted|
  {
    hide Round, Pops, SHORT, MIDDLE, LONG, LightestPath, PresentArcs, IsExample;
    TraceStart(pb, accepted, heap);
    if |accepted| <= 1 {
      ShortIsFirst(pb, accepted[0]);
      assert accepted == [accepted[0]];
    } else {
      var h, r, c := TraceLast(pb, accepted, heap);
      TraceShape(pb, accepted[..|accepted| - 1], h);
      PopShape(pb, accepted[..|accepted| - 1], h, r, c, heap);
    }
  }

  /** Asked for four paths or more, the search must return the long one twice. */
  lemma RepeatForced(pb: Problem, k: int, accepted: seq<seq<Uuid>>)
    requires IsExample(pb) && k >= 4 && Outcome(pb, k, accepted)
    ensures accepted == [SHORT, MIDDLE, LONG, LONG]
  {
    hide Trace, Round, SHORT, MIDDLE, LONG, EntryOf, IsExample;
    var heap :| Trace(pb, accepted, heap) && (|accepted| < k ==> Round(pb, accepted, heap, multiset{}));
    TraceShape(pb, accepted, heap);
    if |accepted| < k {
      RoundShape(pb, accepted, heap, multiset{});
    }
  }

  // ---- Records that give this example ----

  const RECORDS: seq<CallEdge> := [
    MakeEdge(0, SOURCE, A, 0.0), MakeEdge(1, A, TARGET, 0.0),
    MakeEdge(2, A, B, 0.0), MakeEdge(3, B, TARGET, 0.0),
    MakeEdge(4, SOURCE, C, 0.0), MakeEdge(5, C, D, 0.0), MakeEdge(6, D, E, 0.0), MakeEdge(7, E, TARGET, 0.0)]

  const NODES: seq<ServiceNode> := [
    MakeNode(0), MakeNode(1), MakeNode(2), MakeNode(3), MakeNode(4), MakeNode(5), MakeNode(6)]

  lemma ExampleClean()
    ensures Clean(NODES, RECORDS) && RecordArcs(RECORDS) == ARCS
  {
    hide NodeTable, NODES, RECORDS, ARCS;
    NodesPresent();
    RecordsCount();
    forall i | 0 <= i < 8
      ensures RECORDS[i].source in NodeTable(NODES) && RECORDS[i].target in NodeTable(NODES) && ArcOf(RECORDS[i]) in ARCS
    {
      RecordAt(i);
    }
    forall i, j | 0 <= i < j < 8 ensures RECORDS[i].id != RECORDS[j].id && ArcOf(RECORDS[i]) != ArcOf(RECORDS[j]) {
      RecordsDiffer(i, j);
    }
    forall a | a in ARCS ensures a in RecordArcs(RECORDS) {
      RecordOf(a);
    }
  }

  lemma NodesPresent()
    ensures forall i: nat :: i < 7 ==> Uuid(i) in NodeTable(NODES)
  {
    NodeTableKeys(NODES);
    forall i: nat | i < 7 ensures Uuid(i) in NodeTable(NODES) {
      assert NODES[i] in NODES && NODES[i].id == Uuid(i);
    }
  }

  lemma RecordsCount()
    ensures |RECORDS| == 8
  {
  }

  lemma RecordAt(i: nat)
    requires i < 8
    ensures exists m: nat, n: nat :: m < 7 && n < 7 && RECORDS[i].source == Uuid(m) && RECORDS[i].target == Uuid(n)
    ensures ArcOf(RECORDS[i]) in ARCS
  {
    assert RECORDS[i].source == Uuid(RECORDS[i].source.bits) && RECORDS[i].target == Uuid(RECORDS[i].target.bits);
  }

  lemma RecordsDiffer(i: nat, j: nat)
    requires i < j < 8
    ensures RECORDS[i].id != RECORDS[j].id && ArcOf(RECORDS[i]) != ArcOf(RECORDS[j])
  {
  }

  lemma RecordOf(a: Arc)
    requires a in ARCS
    ensures exists i :: 0 <= i < 8 && ArcOf(RECORDS[i]) == a
  {
    assert ArcOf(RECORDS[0]) == Arc(SOURCE, A) && ArcOf(RECORDS[1]) == Arc(A, TARGET);
    assert ArcOf(RECORDS[2]) == Arc(A, B) && ArcOf(RECORDS[3]) == Arc(B, TARGET);
    assert ArcOf(RECORDS[4]) == Arc(SOURCE, C) && ArcOf(RECORDS[5]) == Arc(C, D);
    assert ArcOf(RECORDS[6]) == Arc(D, E) && ArcOf(RECORDS[7]) == Arc(E, TARGET);
  }

  lemma EndsPresent()
    ensures SOURCE in NodeTable(NODES) && TARGET in NodeTable(NODES)
  {
    hide NodeTable, NODES;
    NodesPresent();
  }

  lemma ExampleRequest() returns (pb: Problem)
    ensures Regular(pb) && IsExample(pb)
  {
    hide Clean, RECORDS, NODES, ARCS, EdgeArcs, PresentArcs, RecordArcs, EdgeTable, NodeTable,
         Transposed, Keyed, NoParallelEdges, StartsIn;
    ExampleClean();
    CleanGraph(NODES, RECORDS);
    EndsPresent();
    pb := Problem(Rebuilt(NODES, RECORDS), OrUnit(None), SOURCE, TARGET);
  }

  /** Every run on every regular request for `k` paths returns each path once. */
  ghost predicate NeverRepeats(k: int) {
    forall pb, accepted :: Regular(pb) && Outcome(pb, k, accepted) ==> Distinct(accepted)
  }

  /** The search never repeats a path exactly when it is asked for at most three. */
  lemma RepeatsIff(k: int)
    ensures NeverRepeats(k) <==> k <= 3
  {
    hide Outcome, Regular, LightestPath, SHORT, MIDDLE, LONG, Orderly, IsPath, IsExample, PresentArcs, Distinct;
    if k <= 3 {
      forall pb, accepted | Regular(pb) && Outcome(pb, k, accepted) ensures Distinct(accepted) {
        ThreeDistinct(pb, k, accepted);
      }
    } else {
      var pb := ExampleRequest();
      ShortIsFirst(pb, SHORT);
      var accepted := OutcomeExists(pb, k, SHORT);
      RepeatForced(pb, k, accepted);
      assert accepted[2] == accepted[3];
      LastTwice(accepted);
    }
  }

  lemma LastTwice(accepted: seq<seq<Uuid>>)
    requires |accepted| == 4 && accepted[2] == accepted[3]
    ensures !Distinct(accepted)
  {
  }
}
