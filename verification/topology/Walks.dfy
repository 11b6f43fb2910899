/** Walks and distances in a finite directed relation on identifiers: the
    vocabulary in which every graph algorithm is specified. */
module Walks {
  import opened Domain
  import opened Sequences

  datatype Arc = Arc(src: Uuid, dst: Uuid)

  ghost predicate IsWalk(E: set<Arc>, p: seq<Uuid>) {
    && |p| >= 1
    && forall i :: 0 <= i < |p| - 1 ==> Arc(p[i], p[i + 1]) in E
  }

  ghost predicate WalkFromTo(E: set<Arc>, p: seq<Uuid>, s: Uuid, t: Uuid) {
    IsWalk(E, p) && p[0] == s && p[|p| - 1] == t
  }

  ghost predicate SimplePath(E: set<Arc>, p: seq<Uuid>, s: Uuid, t: Uuid) {
    WalkFromTo(E, p, s, t) && Distinct(p)
  }

  /** `v` can be reached from `s` over exactly `n` arcs. */
  ghost predicate Steps(E: set<Arc>, s: Uuid, v: Uuid, n: nat)
    decreases n
  {
    if n == 0 then s == v
    else exists u :: Steps(E, s, u, n - 1) && Arc(u, v) in E
  }

  ghost predicate Reachable(E: set<Arc>, s: Uuid, v: Uuid) {
    exists n: nat :: Steps(E, s, v, n)
  }

  /** `d` is the least number of arcs that leads from `s` to `v`. */
  ghost predicate HopDistance(E: set<Arc>, s: Uuid, v: Uuid, d: nat) {
    && Steps(E, s, v, d)
    && forall n: nat :: Steps(E, s, v, n) ==> d <= n
  }

  function Reverse(E: set<Arc>): set<Arc> {
    set a | a in E :: Arc(a.dst, a.src)
  }

  /** The arcs of `E` between members of `N`. */
  ghost function Within(E: set<Arc>, N: set<Uuid>): set<Arc> {
    set a | a in E && a.src in N && a.dst in N
  }

  /** Every arc of `E` starts in `N`. */
  ghost predicate StartsIn(E: set<Arc>, N: set<Uuid>) {
    forall a :: a in E ==> a.src in N
  }

  /** Then a walk that ends in `N` never leaves it. */
  lemma WalkInside(E: set<Arc>, N: set<Uuid>, p: seq<Uuid>, s: Uuid, t: Uuid)
    requires StartsIn(E, N) && t in N && WalkFromTo(E, p, s, t)
    ensures forall i :: 0 <= i < |p| ==> p[i] in N
    ensures WalkFromTo(Within(E, N), p, s, t)
  {
    forall i | 0 <= i < |p| ensures p[i] in N {
      if i < |p| - 1 {
        assert Arc(p[i], p[i + 1]) in E;
      }
    }
  }

  // ---- Walks and step counts ----

  lemma {:induction false} WalkSteps(E: set<Arc>, p: seq<Uuid>, s: Uuid, t: Uuid)
    requires WalkFromTo(E, p, s, t)
    ensures Steps(E, s, t, |p| - 1)
    decreases |p|
  {
    if |p| <= 1 {
    } else {
      var q := p[..|p| - 1];
      assert IsWalk(E, q);
      WalkSteps(E, q, s, q[|q| - 1]);
      assert Arc(p[|p| - 2], p[|p| - 1]) in E;
    }
  }

  lemma {:induction false} StepsWalk(E: set<Arc>, s: Uuid, t: Uuid, n: nat) returns (p: seq<Uuid>)
    requires Steps(E, s, t, n)
    ensures WalkFromTo(E, p, s, t) && |p| == n + 1
    decreases n
  {
    if n == 0 {
      p := [s];
    } else {
      var u :| Steps(E, s, u, n - 1) && Arc(u, t) in E;
      var q := StepsWalk(E, s, u, n - 1);
      p := q + [t];
    }
  }

  lemma {:induction false} StepsCompose(E: set<Arc>, s: Uuid, u: Uuid, v: Uuid, m: nat, n: nat)
    requires Steps(E, s, u, m) && Steps(E, u, v, n)
    ensures Steps(E, s, v, m + n)
    decreases n
  {
    if n == 0 {
    } else {
      var x :| Steps(E, u, x, n - 1) && Arc(x, v) in E;
      StepsCompose(E, s, u, x, m, n - 1);
    }
  }

  lemma {:induction false} StepsMonotone(E: set<Arc>, F: set<Arc>, s: Uuid, v: Uuid, n: nat)
    requires E <= F && Steps(E, s, v, n)
    ensures Steps(F, s, v, n)
    decreases n
  {
    if n == 0 {
    } else {
      var x :| Steps(E, s, x, n - 1) && Arc(x, v) in E;
      StepsMonotone(E, F, s, x, n - 1);
    }
  }

  /** Following arcs backwards reaches the start over the same number of arcs. */
  lemma {:induction false} StepsReverse(E: set<Arc>, s: Uuid, v: Uuid, n: nat)
    requires Steps(E, s, v, n)
    ensures Steps(Reverse(E), v, s, n)
    decreases n
  {
    if n == 0 {
    } else {
      var x :| Steps(E, s, x, n - 1) && Arc(x, v) in E;
      StepsReverse(E, s, x, n - 1);
      assert Arc(v, x) in Reverse(E);
      assert Steps(Reverse(E), v, v, 0);
      assert Steps(Reverse(E), v, x, 1);
      StepsCompose(Reverse(E), v, x, s, 1, n - 1);
    }
  }

  lemma ReverseTwice(E: set<Arc>)
    ensures Reverse(Reverse(E)) == E
  {
    forall a | a in E ensures a in Reverse(Reverse(E)) {
      assert Arc(a.dst, a.src) in Reverse(E);
    }
  }

  /** Distances are the same in both directions: `v` is `d` hops downstream of
      `u` exactly when `u` is `d` hops upstream of `v`. */
  lemma DistanceReverses(E: set<Arc>, u: Uuid, v: Uuid, d: nat)
    ensures HopDistance(E, u, v, d) <==> HopDistance(Reverse(E), v, u, d)
  {
    ReverseTwice(E);
    forall n: nat ensures Steps(E, u, v, n) <==> Steps(Reverse(E), v, u, n) {
      if Steps(E, u, v, n) { StepsReverse(E, u, v, n); }
      if Steps(Reverse(E), v, u, n) { StepsReverse(Reverse(E), v, u, n); }
    }
  }

  lemma DistanceUnique(E: set<Arc>, s: Uuid, v: Uuid, d: nat, e: nat)
    requires HopDistance(E, s, v, d) && HopDistance(E, s, v, e)
    ensures d == e
  {
  }

  /** A number of steps bounds a distance. */
  lemma {:induction false} DistanceExists(E: set<Arc>, s: Uuid, v: Uuid, n: nat) returns (d: nat)
    requires Steps(E, s, v, n)
    ensures d <= n && HopDistance(E, s, v, d)
    decreases n
  {
    if exists m: nat :: m < n && Steps(E, s, v, m) {
      var m: nat :| m < n && Steps(E, s, v, m);
      d := DistanceExists(E, s, v, m);
    } else {
      d := n;
    }
  }

  /** A relation closed under `E` keeps whatever it can reach. */
  lemma {:induction false} ClosedKeepsReachable(E: set<Arc>, C: set<Uuid>, s: Uuid, v: Uuid, n: nat)
    requires s in C && Steps(E, s, v, n)
    requires forall a :: a in E && a.src in C ==> a.dst in C
    ensures v in C
    decreases n
  {
    if n == 0 {
    } else {
      var x :| Steps(E, s, x, n - 1) && Arc(x, v) in E;
      ClosedKeepsReachable(E, C, s, x, n - 1);
    }
  }

  /** A walk with a repeated vertex can be cut short. */
  lemma CutLoop(E: set<Arc>, p: seq<Uuid>, s: Uuid, t: Uuid, i: nat, j: nat) returns (q: seq<Uuid>)
    requires WalkFromTo(E, p, s, t)
    requires i < j < |p| && p[i] == p[j]
    ensures q == p[..i] + p[j..]
    ensures WalkFromTo(E, q, s, t) && |q| < |p|
  {
    q := p[..i] + p[j..];
    forall k | 0 <= k < |q| - 1 ensures Arc(q[k], q[k + 1]) in E {
      if k + 1 < i {
        assert q[k] == p[k] && q[k + 1] == p[k + 1];
      } else if k + 1 == i {
        assert q[k] == p[k] && q[k + 1] == p[j] == p[k + 1];
      } else {
        assert q[k] == p[k - i + j] && q[k + 1] == p[k - i + j + 1];
      }
    }
  }

  lemma {:induction false} SimplePathExists(E: set<Arc>, p: seq<Uuid>, s: Uuid, t: Uuid) returns (q: seq<Uuid>)
    requires WalkFromTo(E, p, s, t)
    ensures SimplePath(E, q, s, t) && |q| <= |p|
    ensures forall x :: x in q ==> x in p
    decreases |p|
  {
    if Distinct(p) {
      q := p;
    } else {
      var i, j :| 0 <= i < j < |p| && p[i] == p[j];
      var r := CutLoop(E, p, s, t, i, j);
      q := SimplePathExists(E, r, s, t);
    }
  }

  /** A walk as short as the distance repeats no vertex. */
  lemma ShortestIsSimple(E: set<Arc>, p: seq<Uuid>, s: Uuid, t: Uuid)
    requires WalkFromTo(E, p, s, t) && HopDistance(E, s, t, |p| - 1)
    ensures SimplePath(E, p, s, t)
  {
    if !Distinct(p) {
      var i, j :| 0 <= i < j < |p| && p[i] == p[j];
      var r := CutLoop(E, p, s, t, i, j);
      WalkSteps(E, r, s, t);
    }
  }
}
