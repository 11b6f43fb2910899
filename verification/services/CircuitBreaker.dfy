/** A circuit breaker over whole runs of calls.  Clock readings and the outcomes of
    the protected function are chosen by the environment. */
module CircuitBreaker {
  datatype CircuitState = Closed | Open | HalfOpen

  /** One call: the clock when it is checked, the outcome of the function if it is
      run, and the clock when a failure is recorded. */
  datatype Call = Call(checkedAt: int, ok: bool, failedAt: int)

  datatype Change = Change(from: CircuitState, to: CircuitState)

  datatype Config = Config(maxFailures: int, timeout: int)

  datatype Breaker = Breaker(failures: int, lastFailTime: int, state: CircuitState, changes: seq<Change>)

  datatype Outcome = Rejected | Succeeded | Failed

  const FRESH := Breaker(0, 0, Closed, [])

  // ---- The code ----

  function Notify(changes: seq<Change>, from: CircuitState, to: CircuitState): seq<Change> {
    if from != to then changes + [Change(from, to)] else changes
  }

  /** The state in which the function is run, if the call is admitted. */
  function Admit(cfg: Config, b: Breaker, c: Call): Breaker {
    if b.state.Open? then b.(state := HalfOpen, changes := Notify(b.changes, Open, HalfOpen)) else b
  }

  predicate Blocks(cfg: Config, b: Breaker, c: Call) {
    b.state.Open? && c.checkedAt - b.lastFailTime <= cfg.timeout
  }

  function Settle(cfg: Config, b: Breaker, c: Call): Breaker {
    if c.ok then Breaker(0, b.lastFailTime, Closed, Notify(b.changes, b.state, Closed))
    else
      var to := if b.failures + 1 >= cfg.maxFailures then Open else b.state;
      Breaker(b.failures + 1, c.failedAt, to, Notify(b.changes, b.state, to))
  }

  function Step(cfg: Config, b: Breaker, c: Call): Breaker {
    if Blocks(cfg, b, c) then b else Settle(cfg, Admit(cfg, b, c), c)
  }

  function Run(cfg: Config, calls: seq<Call>): Breaker {
    if calls == [] then FRESH else Step(cfg, Run(cfg, calls[..|calls| - 1]), calls[|calls| - 1])
  }

  class CircuitBreaker {
    const maxFailures: int
    const timeout: int
    var failures: int
    var lastFailTime: int
    var state: CircuitState
    var changes: seq<Change>

    ghost function View(): Breaker
      reads this
    {
      Breaker(failures, lastFailTime, state, changes)
    }

    ghost function Settings(): Config {
      Config(maxFailures, timeout)
    }

    constructor (maxFailures: int, timeout: int)
      ensures View() == FRESH && Settings() == Config(maxFailures, timeout)
    {
      this.maxFailures, this.timeout := maxFailures, timeout;
      failures, lastFailTime, state, changes := 0, 0, Closed, [];
    }

    method NotifyStateChange(from: CircuitState, to: CircuitState)
      modifies this`changes
      ensures changes == Notify(old(changes), from, to)
    {
      if from != to {
        changes := changes + [Change(from, to)];
      }
    }

    method Execute(call: Call) returns (outcome: Outcome)
      modifies this
      ensures View() == Step(Settings(), old(View()), call)
      ensures outcome == if Blocks(Settings(), old(View()), call) then Rejected
                         else if call.ok then Succeeded else Failed
      ensures outcome == Succeeded ==> state == Closed && failures == 0
      ensures outcome == Failed ==> failures == old(failures) + 1 && lastFailTime == call.failedAt
      ensures outcome == Failed && old(state) != Closed ==> state == if failures >= maxFailures then Open else HalfOpen
    {
      var prevState := state;
      if state == Open {
        if call.checkedAt - lastFailTime > timeout {
          state := HalfOpen;
          NotifyStateChange(prevState, state);
        } else {
          return Rejected;
        }
      }
      if !call.ok {
        failures := failures + 1;
        lastFailTime := call.failedAt;
        prevState := state;
        if failures >= maxFailures {
          state := Open;
        }
        NotifyStateChange(prevState, state);
        return Failed;
      }
      prevState := state;
      failures := 0;
      state := Closed;
      NotifyStateChange(prevState, state);
      outcome := Succeeded;
    }

    /** The state that callers are shown: an open breaker whose timeout has passed
        reads as half-open. */
    function State(now: int): (s: CircuitState)
      reads this
      ensures s == HalfOpen <==> state == HalfOpen || (state == Open && !Blocks(Settings(), View(), Call(now, true, now)))
      ensures s != HalfOpen ==> s == state
    {
      if state == Open && now - lastFailTime > timeout then HalfOpen else state
    }
  }

  // ---- A reference without states ----

  /** The failures of admitted calls since the last admitted success, and the time
      of the last admitted failure. */
  datatype Streak = Streak(failures: nat, lastFailure: int)

  /** A call is refused when the streak has reached the limit and its last failure
      is no older than the timeout. */
  predicate Refused(cfg: Config, s: Streak, c: Call) {
    Tripped(cfg, s) && c.checkedAt - s.lastFailure <= cfg.timeout
  }

  predicate Tripped(cfg: Config, s: Streak) {
    s.failures >= 1 && s.failures >= cfg.maxFailures
  }

  function StreakAfter(cfg: Config, calls: seq<Call>): Streak {
    if calls == [] then Streak(0, 0)
    else
      var s, c := StreakAfter(cfg, calls[..|calls| - 1]), calls[|calls| - 1];
      if Refused(cfg, s, c) then s
      else if c.ok then Streak(0, s.lastFailure)
      else Streak(s.failures + 1, c.failedAt)
  }

  /** A connected walk from `Closed` to `last` that never goes from open to closed
      directly. */
  ghost predicate Walk(changes: seq<Change>, last: CircuitState) {
    && (forall i :: 0 <= i < |changes| ==> changes[i].from != changes[i].to && changes[i] != Change(Open, Closed))
    && (forall i :: 0 <= i < |changes| - 1 ==> changes[i].to == changes[i + 1].from)
    && (if changes == [] then last == Closed else changes[0].from == Closed && changes[|changes| - 1].to == last)
  }

  lemma NotifyWalks(changes: seq<Change>, from: CircuitState, to: CircuitState)
    requires Walk(changes, from) && !(from.Open? && to.Closed?)
    ensures Walk(Notify(changes, from, to), to)
  {
  }

  /** Between calls the breaker is open exactly when the streak has reached the
      limit, whatever the limit; half-open never survives a call; and the reported
      changes form a walk that ends in the current state. */
  lemma {:induction false} RunFollowsStreak(cfg: Config, calls: seq<Call>)
    ensures var b, s := Run(cfg, calls), StreakAfter(cfg, calls);
            && b.failures == s.failures && b.lastFailTime == s.lastFailure
            && b.state == (if Tripped(cfg, s) then Open else Closed)
            && Walk(b.changes, b.state)
    decreases |calls|
  {
    if calls == [] {
    } else {
      var n := |calls| - 1;
      RunFollowsStreak(cfg, calls[..n]);
      var b, c := Run(cfg, calls[..n]), calls[n];
      if !Blocks(cfg, b, c) {
        var a := Admit(cfg, b, c);
        if b.state.Open? {
          NotifyWalks(b.changes, Open, HalfOpen);
        }
        NotifyWalks(a.changes, a.state, Settle(cfg, a, c).state);
      }
    }
  }

  /** A call runs the function unless the breaker is open and its last failure is no
      older than the timeout: the breaker blocks exactly what the reference refuses. */
  lemma BlocksWhatIsRefused(cfg: Config, calls: seq<Call>, c: Call)
    ensures Blocks(cfg, Run(cfg, calls), c) <==> Refused(cfg, StreakAfter(cfg, calls), c)
  {
    RunFollowsStreak(cfg, calls);
  }

  /** With a limit of at least one the open state needs exactly that many failures
      in a row; with a lower limit a single failure opens it. */
  lemma OpensAtLimit(cfg: Config, calls: seq<Call>)
    ensures Run(cfg, calls).state.Open? <==>
            StreakAfter(cfg, calls).failures >= if cfg.maxFailures >= 1 then cfg.maxFailures else 1
  {
    RunFollowsStreak(cfg, calls);
  }

  /** After a success the breaker is closed and forgets the failures before it. */
  lemma SuccessCloses(cfg: Config, calls: seq<Call>, c: Call)
    requires c.ok && !Refused(cfg, StreakAfter(cfg, calls), c)
    ensures Run(cfg, calls + [c]).state.Closed? && Run(cfg, calls + [c]).failures == 0
  {
    assert (calls + [c])[..|calls|] == calls;
    RunFollowsStreak(cfg, calls);
    RunFollowsStreak(cfg, calls + [c]);
  }

  // ---- What is reported ----

  /** What one call reports, told from the streak before it: nothing when it is refused;
      the trial and its outcome when the limit had been reached; else only the failure
      that reaches it. */
  function Reports(cfg: Config, s: Streak, c: Call): seq<Change> {
    if Refused(cfg, s, c) then []
    else if Tripped(cfg, s) then [Change(Open, HalfOpen), Change(HalfOpen, if c.ok then Closed else Open)]
    else if !c.ok && s.failures + 1 >= cfg.maxFailures then [Change(Closed, Open)]
    else []
  }

  /** The reports of a run, call by call. */
  function ReportsOf(cfg: Config, calls: seq<Call>): seq<Change> {
    if calls == [] then []
    else
      var n := |calls| - 1;
      ReportsOf(cfg, calls[..n]) + Reports(cfg, StreakAfter(cfg, calls[..n]), calls[n])
  }

  /** A run reports exactly what its calls call for, in order. */
  lemma {:induction false} RunReports(cfg: Config, calls: seq<Call>)
    ensures Run(cfg, calls).changes == ReportsOf(cfg, calls)
    decreases |calls|
  {
    if calls == [] {
    } else {
      var n := |calls| - 1;
      RunReports(cfg, calls[..n]);
      RunFollowsStreak(cfg, calls[..n]);
      StepReports(cfg, Run(cfg, calls[..n]), StreakAfter(cfg, calls[..n]), calls[n]);
    }
  }

  lemma StepReports(cfg: Config, b: Breaker, s: Streak, c: Call)
    requires b.failures == s.failures && b.lastFailTime == s.lastFailure
    requires b.state == if Tripped(cfg, s) then Open else Closed
    ensures Step(cfg, b, c).changes == b.changes + Reports(cfg, s, c)
  {
  }

  /** With a limit of at most one, a failure, the timeout and another failure report
      three changes. */
  lemma FailedTrialReports(cfg: Config, first: Call, second: Call)
    requires cfg.maxFailures <= 1 && !first.ok && !second.ok
    requires second.checkedAt - first.failedAt > cfg.timeout
    ensures Run(cfg, [first, second]).changes
         == [Change(Closed, Open), Change(Open, HalfOpen), Change(HalfOpen, Open)]
  {
    var calls := [first, second];
    var one := calls[..1];
    assert one[..0] == [] && one[0] == first;
    assert StreakAfter(cfg, one[..0]) == Streak(0, 0) && ReportsOf(cfg, one[..0]) == [];
    assert StreakAfter(cfg, one) == Streak(1, first.failedAt);
    assert ReportsOf(cfg, one) == [Change(Closed, Open)];
    RunReports(cfg, calls);
  }
}
