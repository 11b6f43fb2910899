/** The precompute queue: jobs in order of priority, oldest first among equals. */
module PrecomputeQueue {
  import opened Domain

  datatype Job = Job(serviceIds: seq<Uuid>, priority: int, createdAt: int)

  /** Before the first job of lower priority, or at the end. */
  function Insert(jobs: seq<Job>, job: Job): seq<Job> {
    if jobs == [] then [job]
    else if job.priority > jobs[0].priority then [job] + jobs
    else [jobs[0]] + Insert(jobs[1..], job)
  }

  lemma {:induction false} InsertAfter(front: seq<Job>, rest: seq<Job>, job: Job)
    requires forall j :: 0 <= j < |front| ==> job.priority <= front[j].priority
    ensures Insert(front + rest, job) == front + Insert(rest, job)
    decreases |front|
  {
    if front == [] {
      assert front + rest == rest;
    } else {
      InsertAfter(front[1..], rest, job);
      assert (front + rest)[1..] == front[1..] + rest;
      assert [front[0]] + (front[1..] + Insert(rest, job)) == front + Insert(rest, job);
    }
  }

  class ImpactPrecomputeQueue {
    var jobs: seq<Job>

    constructor ()
      ensures jobs == []
    {
      jobs := [];
    }

    method Push(job: Job)
      modifies this
      ensures jobs == Insert(old(jobs), job)
    {
      for i := 0 to |jobs|
        invariant jobs == old(jobs)
        invariant forall j :: 0 <= j < i ==> job.priority <= jobs[j].priority
      {
        if job.priority > jobs[i].priority {
          InsertAfter(jobs[..i], jobs[i..], job);
          assert jobs[..i] + jobs[i..] == jobs;
          jobs := jobs[..i] + ([job] + jobs[i..]);
          return;
        }
      }
      InsertAfter(jobs, [], job);
      assert jobs + [] == jobs;
      jobs := jobs + [job];
    }

    method Pop() returns (job: Option<Job>)
      modifies this
      ensures old(jobs) == [] ==> job == None && jobs == []
      ensures old(jobs) != [] ==> job == Some(old(jobs)[0]) && jobs == old(jobs)[1..]
    {
      if |jobs| == 0 {
        return None;
      }
      job := Some(jobs[0]);
      jobs := jobs[1..];
    }

    function Len(): (n: nat)
      reads this
      ensures n == |jobs|
    {
      |jobs|
    }
  }

  // ---- Whole runs ----

  datatype Op = Push(job: Job) | Pop

  ghost function Run(ops: seq<Op>): seq<Job> {
    if ops == [] then []
    else
      var jobs := Run(ops[..|ops| - 1]);
      match ops[|ops| - 1]
      case Push(j) => Insert(jobs, j)
      case Pop => if jobs == [] then [] else jobs[1..]
  }

  /** What is still queued, in order of arrival: each pop takes away the oldest job of
      greatest priority. */
  ghost function Waiting(ops: seq<Op>): seq<Job> {
    if ops == [] then []
    else
      var w := Waiting(ops[..|ops| - 1]);
      match ops[|ops| - 1]
      case Push(j) => w + [j]
      case Pop => if w == [] then [] else w[..Best(w)] + w[Best(w) + 1..]
  }

  /** The index of the first job of greatest priority. */
  ghost function Best(w: seq<Job>): (b: nat)
    requires w != []
    ensures b < |w|
    ensures forall i :: 0 <= i < |w| ==> w[i].priority <= w[b].priority
    ensures forall i :: 0 <= i < b ==> w[i].priority < w[b].priority
  {
    if |w| == 1 then 0
    else
      var n := |w| - 1;
      var b := Best(w[..n]);
      assert forall i :: 0 <= i < n ==> w[..n][i] == w[i];
      if w[n].priority > w[b].priority then n else b
  }

  ghost predicate Descending(jobs: seq<Job>) {
    forall i, j :: 0 <= i < j < |jobs| ==> jobs[i].priority >= jobs[j].priority
  }

  /** Jobs of priority `p`, in order. */
  ghost function OfPriority(jobs: seq<Job>, p: int): seq<Job> {
    if jobs == [] then []
    else (if jobs[0].priority == p then [jobs[0]] else []) + OfPriority(jobs[1..], p)
  }

  ghost function One(job: Job, p: int): seq<Job> {
    if job.priority == p then [job] else []
  }

  lemma OfPriorityCons(job: Job, jobs: seq<Job>, p: int)
    ensures OfPriority([job] + jobs, p) == One(job, p) + OfPriority(jobs, p)
    ensures OfPriority([job], p) == One(job, p)
  {
    assert ([job] + jobs)[1..] == jobs;
    assert [job][1..] == [];
  }

  lemma {:induction false} OfPriorityConcat(a: seq<Job>, b: seq<Job>, p: int)
    ensures OfPriority(a + b, p) == OfPriority(a, p) + OfPriority(b, p)
    decreases |a|
  {
    if a == [] {
      assert a + b == b;
    } else {
      OfPriorityConcat(a[1..], b, p);
      ConcatStep(a[0], a[1..], b, p);
      assert a == [a[0]] + a[1..];
    }
  }

  lemma ConcatStep(x: Job, a: seq<Job>, b: seq<Job>, p: int)
    requires OfPriority(a + b, p) == OfPriority(a, p) + OfPriority(b, p)
    ensures OfPriority([x] + a + b, p) == OfPriority([x] + a, p) + OfPriority(b, p)
  {
    hide OfPriority, One;
    assert [x] + a + b == [x] + (a + b);
    OfPriorityCons(x, a + b, p);
    OfPriorityCons(x, a, p);
    var one, l, r := One(x, p), OfPriority(a, p), OfPriority(b, p);
    assert one + (l + r) == one + l + r;
  }

  lemma {:induction false} InsertFacts(jobs: seq<Job>, job: Job)
    requires Descending(jobs)
    ensures Descending(Insert(jobs, job))
    ensures forall k :: 0 <= k < |Insert(jobs, job)| ==> Insert(jobs, job)[k] == job || Insert(jobs, job)[k] in jobs
    decreases |jobs|
  {
    if jobs == [] {
    } else if job.priority <= jobs[0].priority {
      InsertFacts(jobs[1..], job);
    }
  }

  lemma {:induction false} InsertClass(jobs: seq<Job>, job: Job, p: int)
    requires Descending(jobs)
    ensures OfPriority(Insert(jobs, job), p) == OfPriority(jobs, p) + One(job, p)
    decreases |jobs|
  {
    hide OfPriority, One;
    if jobs == [] {
      assert [job] + jobs == [job];
      OfPriorityCons(job, jobs, p);
      EmptyClass(p);
    } else if job.priority > jobs[0].priority {
      NoneAbove(jobs, p, job);
    } else {
      var rest := jobs[1..];
      InsertClass(rest, job, p);
      OfPriorityCons(jobs[0], Insert(rest, job), p);
      OfPriorityCons(jobs[0], rest, p);
      assert jobs == [jobs[0]] + rest;
      var first, l, r := One(jobs[0], p), OfPriority(rest, p), One(job, p);
      assert first + (l + r) == first + l + r;
    }
  }

  lemma EmptyClass(p: int)
    ensures OfPriority([], p) == []
  {
  }

  /** A descending queue below the new job holds none of its priority. */
  lemma {:induction false} NoneAbove(jobs: seq<Job>, p: int, job: Job)
    requires Descending(jobs) && jobs != [] && job.priority > jobs[0].priority
    ensures OfPriority([job] + jobs, p) == OfPriority(jobs, p) + One(job, p)
  {
    hide OfPriority;
    OfPriorityCons(job, jobs, p);
    if p == job.priority {
      NoneOf(jobs, p);
    }
  }

  lemma {:induction false} NoneOf(jobs: seq<Job>, p: int)
    requires forall i :: 0 <= i < |jobs| ==> jobs[i].priority != p
    ensures OfPriority(jobs, p) == []
    decreases |jobs|
  {
    if jobs == [] {
    } else {
      NoneOf(jobs[1..], p);
    }
  }

  lemma {:induction false} FirstOf(w: seq<Job>, i: nat)
    requires i < |w| && forall k :: 0 <= k < i ==> w[k].priority != w[i].priority
    ensures OfPriority(w, w[i].priority) != [] && OfPriority(w, w[i].priority)[0] == w[i]
  {
    NoneOf(w[..i], w[i].priority);
    OfPriorityConcat(w[..i], w[i..], w[i].priority);
    assert w == w[..i] + w[i..];
  }

  lemma {:induction false} MemberOf(w: seq<Job>, i: nat)
    requires i < |w|
    ensures OfPriority(w, w[i].priority) != []
    decreases |w|
  {
    if i == 0 {
    } else {
      MemberOf(w[1..], i - 1);
    }
  }

  /** A descending queue holding the same jobs class by class starts with the first
      job of greatest priority. */
  lemma {:induction false} HeadIsBest(jobs: seq<Job>, w: seq<Job>)
    requires Descending(jobs) && forall p :: OfPriority(jobs, p) == OfPriority(w, p)
    ensures jobs == [] <==> w == []
    ensures w != [] ==> jobs[0] == w[Best(w)]
  {
    if jobs != [] {
      MemberOf(jobs, 0);
    }
    if w != [] {
      var b := Best(w);
      assert OfPriority(jobs, w[b].priority) == OfPriority(w, w[b].priority);
      MemberOf(w, b);
      InClass(jobs, w[b].priority);
      assert OfPriority(jobs, jobs[0].priority) == OfPriority(w, jobs[0].priority);
      InClass(w, jobs[0].priority);
      assert jobs[0].priority == w[b].priority;
      FirstOf(w, b);
    }
  }

  /** A non-empty class has a member. */
  lemma {:induction false} InClass(w: seq<Job>, p: int)
    ensures OfPriority(w, p) != [] ==> exists i :: 0 <= i < |w| && w[i].priority == p
    decreases |w|
  {
    if w == [] {
    } else {
      InClass(w[1..], p);
      if OfPriority(w[1..], p) != [] {
        var i :| 0 <= i < |w| - 1 && w[1..][i].priority == p;
        assert w[i + 1].priority == p;
      } else if OfPriority(w, p) != [] {
        assert w[0].priority == p;
      }
    }
  }

  /** After any run the queue is in order of priority and holds, priority by
      priority and in order of arrival, exactly what is still waiting. */
  lemma {:induction false} RunIsStable(ops: seq<Op>)
    ensures Descending(Run(ops))
    ensures forall p :: OfPriority(Run(ops), p) == OfPriority(Waiting(ops), p)
    decreases |ops|
  {
    if ops == [] {
    } else {
      var n := |ops| - 1;
      RunIsStable(ops[..n]);
      var jobs, w := Run(ops[..n]), Waiting(ops[..n]);
      match ops[n]
      case Push(j) =>
        InsertFacts(jobs, j);
        forall p ensures OfPriority(Run(ops), p) == OfPriority(Waiting(ops), p) {
          InsertClass(jobs, j, p);
          OfPriorityConcat(w, [j], p);
          OfPriorityCons(j, [], p);
        }
      case Pop =>
        HeadIsBest(jobs, w);
        if w != [] {
          forall p ensures OfPriority(Run(ops), p) == OfPriority(Waiting(ops), p) {
            RemoveBest(jobs, w, p);
          }
        }
    }
  }

  lemma {:induction false} RemoveBest(jobs: seq<Job>, w: seq<Job>, p: int)
    requires w != [] && jobs != [] && jobs[0] == w[Best(w)] && OfPriority(jobs, p) == OfPriority(w, p)
    ensures OfPriority(jobs[1..], p) == OfPriority(w[..Best(w)] + w[Best(w) + 1..], p)
  {
    var b := Best(w);
    ClassWithout(w, b, p);
    ClassWithout(jobs, 0, p);
    NoneOf(jobs[..0], p);
    if p == w[b].priority {
      NoneOf(w[..b], p);
    }
    hide OfPriority, Best;
    var one := if w[b].priority == p then [w[b]] else [];
    CancelFront(OfPriority(w[..b], p), one, OfPriority(jobs[1..], p), OfPriority(w[b + 1..], p));
  }

  lemma CancelFront(front: seq<Job>, one: seq<Job>, left: seq<Job>, right: seq<Job>)
    requires one == [] || front == []
    requires [] + one + left == front + one + right
    ensures left == front + right
  {
    assert [] + one + left == one + left;
    assert (one + left)[|one|..] == left;
    if front == [] {
      assert front + one + right == one + right;
      assert (one + right)[|one|..] == right;
    }
  }

  /** Taking one job out of a queue, seen from one priority class. */
  lemma ClassWithout(w: seq<Job>, b: nat, p: int)
    requires b < |w|
    ensures OfPriority(w, p) == OfPriority(w[..b], p) + (if w[b].priority == p then [w[b]] else []) + OfPriority(w[b + 1..], p)
    ensures OfPriority(w[..b] + w[b + 1..], p) == OfPriority(w[..b], p) + OfPriority(w[b + 1..], p)
  {
    assert w == w[..b] + ([w[b]] + w[b + 1..]);
    OfPriorityConcat(w[..b], [w[b]] + w[b + 1..], p);
    OfPriorityConcat([w[b]], w[b + 1..], p);
    OfPriorityConcat(w[..b], w[b + 1..], p);
    assert [w[b]][1..] == [];
  }

  /** Pop always returns the oldest waiting job of greatest priority. */
  lemma PopsOldestBest(ops: seq<Op>)
    ensures Run(ops) == [] <==> Waiting(ops) == []
    ensures Run(ops) != [] ==> Run(ops)[0] == Waiting(ops)[Best(Waiting(ops))]
  {
    RunIsStable(ops);
    HeadIsBest(Run(ops), Waiting(ops));
  }

  /** The jobs pushed, and the jobs that pops returned, in order. */
  ghost function Pushed(ops: seq<Op>): seq<Job> {
    if ops == [] then []
    else Pushed(ops[..|ops| - 1]) + if ops[|ops| - 1].Push? then [ops[|ops| - 1].job] else []
  }

  ghost function Popped(ops: seq<Op>): seq<Job> {
    if ops == [] then []
    else
      var jobs := Run(ops[..|ops| - 1]);
      Popped(ops[..|ops| - 1]) + if ops[|ops| - 1].Pop? && jobs != [] then [jobs[0]] else []
  }

  lemma {:induction false} InsertBag(jobs: seq<Job>, job: Job)
    ensures multiset(Insert(jobs, job)) == multiset(jobs) + multiset{job}
    decreases |jobs|
  {
    if jobs == [] {
    } else {
      assert jobs == [jobs[0]] + jobs[1..];
      if job.priority <= jobs[0].priority {
        InsertBag(jobs[1..], job);
      }
    }
  }

  lemma RunSnoc(ops: seq<Op>)
    requires ops != []
    ensures var before, op := ops[..|ops| - 1], ops[|ops| - 1];
            var jobs := Run(before);
            && Run(ops) == (if op.Push? then Insert(jobs, op.job) else if jobs == [] then [] else jobs[1..])
            && Pushed(ops) == Pushed(before) + (if op.Push? then [op.job] else [])
            && Popped(ops) == Popped(before) + (if op.Pop? && jobs != [] then [jobs[0]] else [])
  {
  }

  lemma BagPush(jobs: seq<Job>, popped: seq<Job>, pushed: seq<Job>, j: Job)
    requires multiset(jobs) + multiset(popped) == multiset(pushed)
    ensures multiset(Insert(jobs, j)) + multiset(popped) == multiset(pushed + [j])
  {
    hide Insert;
    InsertBag(jobs, j);
  }

  lemma BagPop(jobs: seq<Job>, popped: seq<Job>)
    requires jobs != []
    ensures multiset(jobs[1..]) + multiset(popped + [jobs[0]]) == multiset(jobs) + multiset(popped)
  {
    assert jobs == [jobs[0]] + jobs[1..];
  }

  /** After any run the queue holds exactly what was pushed and not popped. */
  lemma {:induction false} RunConserves(ops: seq<Op>)
    ensures multiset(Run(ops)) + multiset(Popped(ops)) == multiset(Pushed(ops))
    decreases |ops|
  {
    hide Insert;
    if ops == [] {
    } else {
      var before, op := ops[..|ops| - 1], ops[|ops| - 1];
      RunConserves(before);
      StepConserves(ops, before, op);
    }
  }

  lemma StepConserves(ops: seq<Op>, before: seq<Op>, op: Op)
    requires ops != [] && before == ops[..|ops| - 1] && op == ops[|ops| - 1]
    requires multiset(Run(before)) + multiset(Popped(before)) == multiset(Pushed(before))
    ensures multiset(Run(ops)) + multiset(Popped(ops)) == multiset(Pushed(ops))
  {
    hide Insert, Run, Popped, Pushed;
    RunSnoc(ops);
    var jobs := Run(before);
    match op
    case Push(j) =>
      BagPush(jobs, Popped(before), Pushed(before), j);
    case Pop =>
      assert Pushed(before) + [] == Pushed(before) && Popped(before) + [] == Popped(before);
      if jobs != [] {
        BagPop(jobs, Popped(before));
      }
  }

  /** So the reported length is the number of pushes minus that of successful pops. */
  lemma LengthCounts(ops: seq<Op>)
    ensures |Run(ops)| + |Popped(ops)| == |Pushed(ops)|
  {
    hide Run, Popped, Pushed;
    RunConserves(ops);
    assert |multiset(Run(ops)) + multiset(Popped(ops))| == |multiset(Run(ops))| + |multiset(Popped(ops))|;
  }
}
